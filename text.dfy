/**
 * The string functions the cleaners use, restricted to ASCII:
 * DuckDB's TRIM (strip leading and trailing spaces), LOWER (fold A-Z to a-z)
 * and the pattern `LIKE '%p%'` (case-sensitive substring test).
 */
module Text {

  predicate IsSpace(c: char) {
    c == ' '
  }

  ghost predicate AllSpaces(s: string) {
    forall i :: 0 <= i < |s| ==> IsSpace(s[i])
  }

  /** Number of spaces at the front of `s`. */
  function LeadingSpaces(s: string): (k: nat)
    ensures k <= |s|
    ensures forall i :: 0 <= i < k ==> IsSpace(s[i])
    ensures k < |s| ==> !IsSpace(s[k])
  {
    if s == [] || !IsSpace(s[0]) then 0 else 1 + LeadingSpaces(s[1..])
  }

  /** Number of spaces at the back of `s`. */
  function TrailingSpaces(s: string): (k: nat)
    ensures k <= |s|
    ensures forall i :: |s| - k <= i < |s| ==> IsSpace(s[i])
    ensures k < |s| ==> !IsSpace(s[|s| - 1 - k])
  {
    if s == [] || !IsSpace(s[|s| - 1]) then 0 else 1 + TrailingSpaces(s[..|s| - 1])
  }

  /** SQL TRIM(s): `s` without its leading and trailing spaces. */
  function Trim(s: string): string {
    var t := s[LeadingSpaces(s)..];
    t[..|t| - TrailingSpaces(t)]
  }

  /** Trim keeps a contiguous middle part of `s` and removes only spaces around it. */
  lemma TrimShape(s: string)
    ensures exists i, j :: 0 <= i <= j <= |s| && Trim(s) == s[i..j]
                           && AllSpaces(s[..i]) && AllSpaces(s[j..])
    ensures Trim(s) == [] || (!IsSpace(Trim(s)[0]) && !IsSpace(Trim(s)[|Trim(s)| - 1]))
  {
    var i := LeadingSpaces(s);
    var t := s[i..];
    var j := i + |t| - TrailingSpaces(t);
    assert Trim(s) == s[i..j];
    assert AllSpaces(s[..i]);
    assert AllSpaces(s[j..]) by {
      forall k | 0 <= k < |s[j..]| ensures IsSpace(s[j..][k]) {
        assert s[j..][k] == t[|t| - TrailingSpaces(t) + k];
      }
    }
    var r := Trim(s);
    if r != [] {
      assert r[0] == t[0];
      if i < |s| {
        assert !IsSpace(t[0]);
      }
    }
  }

  /** Trimming is idempotent. */
  lemma TrimIdempotent(s: string)
    ensures Trim(Trim(s)) == Trim(s)
  {
    var r := Trim(s);
    TrimShape(s);
    if r != [] {
      assert LeadingSpaces(r) == 0;
      assert TrailingSpaces(r) == 0;
    }
  }

  /** TRIM yields the empty string exactly for inputs made only of spaces. */
  lemma TrimEmptyIffAllSpaces(s: string)
    ensures Trim(s) == [] <==> AllSpaces(s)
  {
    var i := LeadingSpaces(s);
    if AllSpaces(s) {
      assert i == |s|;
    } else {
      assert i < |s|;
      var t := s[i..];
      assert !IsSpace(t[0]);
      assert TrailingSpaces(t) < |t|;
    }
  }

  /** ASCII LOWER of one character. */
  function LowerChar(c: char): char {
    if 'A' <= c <= 'Z' then (c as int + 32) as char else c
  }

  /**
   * SQL LOWER(s), ASCII letters only: the result has no upper-case letter left,
   * and every character that was not an upper-case letter stays where it was.
   */
  function Lower(s: string): (r: string)
    ensures |r| == |s|
    ensures forall i :: 0 <= i < |s| ==> r[i] == LowerChar(s[i])
    ensures forall i :: 0 <= i < |r| ==> !('A' <= r[i] <= 'Z')
    ensures forall i :: 0 <= i < |s| && !('A' <= s[i] <= 'Z') ==> r[i] == s[i]
  {
    seq(|s|, i requires 0 <= i < |s| => LowerChar(s[i]))
  }

  /** Lowering is idempotent: a lowercased value stays as it is. */
  lemma LowerIdempotent(s: string)
    ensures Lower(Lower(s)) == Lower(s)
  {
    var l := Lower(s);
    assert forall i :: 0 <= i < |l| ==> Lower(l)[i] == l[i];
  }

  /** LOWER(TRIM(s)) == TRIM(LOWER(s)): lowering never creates or removes a space. */
  lemma {:induction false} LowerTrimCommute(s: string)
    ensures Lower(Trim(s)) == Trim(Lower(s))
  {
    var t := s[LeadingSpaces(s)..];
    var n := |t| - TrailingSpaces(t);
    TrimLower(s);
    LowerSlice(t, 0, n);
  }

  /** TRIM(LOWER(s)) lowers the slice that TRIM(s) keeps. */
  lemma {:induction false} TrimLower(s: string)
    ensures var t := s[LeadingSpaces(s)..];
      Trim(Lower(s)) == Lower(t)[..|t| - TrailingSpaces(t)]
  {
    var i := LeadingSpaces(s);
    LeadingSpacesLower(s);
    LowerSuffix(s, i);
    TrailingSpacesLower(s[i..]);
    TrimTransfer(Lower(s), Lower(s[i..]), s[i..], i);
  }

  /** LOWER commutes with dropping a prefix. */
  lemma {:induction false} LowerSuffix(s: string, i: nat)
    requires i <= |s|
    ensures Lower(s)[i..] == Lower(s[i..])
  {
    assert forall k :: 0 <= k < |s| - i ==> Lower(s)[i..][k] == Lower(s[i..])[k];
  }

  /**
   * TRIM of `x` in terms of another string `t` whose spaces sit where those of `x` do
   * once the `i` leading spaces are gone.
   */
  lemma TrimTransfer(x: string, y: string, t: string, i: nat)
    requires i <= |x| && LeadingSpaces(x) == i && x[i..] == y
    requires |y| == |t| && TrailingSpaces(y) == TrailingSpaces(t)
    ensures Trim(x) == y[..|t| - TrailingSpaces(t)]
  {
  }

  /** LOWER works character by character, so it commutes with slicing. */
  lemma {:induction false} LowerSlice(s: string, i: nat, j: nat)
    requires i <= j <= |s|
    ensures Lower(s)[i..j] == Lower(s[i..j])
  {
    assert forall k :: 0 <= k < j - i ==> Lower(s)[i..j][k] == Lower(s[i..j])[k];
  }

  lemma {:induction false} LeadingSpacesLower(s: string)
    ensures LeadingSpaces(Lower(s)) == LeadingSpaces(s)
  {
    if s != [] && IsSpace(s[0]) {
      LeadingSpacesLower(s[1..]);
      assert Lower(s)[1..] == Lower(s[1..]);
    }
  }

  lemma {:induction false} TrailingSpacesLower(s: string)
    ensures TrailingSpaces(Lower(s)) == TrailingSpaces(s)
  {
    if s != [] && IsSpace(s[|s| - 1]) {
      TrailingSpacesLower(s[..|s| - 1]);
      assert Lower(s)[..|s| - 1] == Lower(s[..|s| - 1]);
    }
  }

  /** `p` occurs in `s` starting at some position (the test behind LIKE '%p%'). */
  function Contains(s: string, p: string): bool
    decreases |s|
  {
    if |p| > |s| then false
    else if s[..|p|] == p then true
    else Contains(s[1..], p)
  }

  /** `p` occurs in `s` at position `i`. */
  predicate OccursAt(s: string, p: string, i: int) {
    0 <= i <= |s| - |p| && s[i..i + |p|] == p
  }

  /** Contains agrees with the positional definition of a substring. */
  lemma {:induction false} ContainsIff(s: string, p: string)
    ensures Contains(s, p) <==> exists i :: OccursAt(s, p, i)
    decreases |s|
  {
    if |p| > |s| {
    } else if s[..|p|] == p {
      assert OccursAt(s, p, 0);
    } else {
      ContainsIff(s[1..], p);
      if Contains(s[1..], p) {
        var i :| OccursAt(s[1..], p, i);
        assert s[i + 1..i + 1 + |p|] == s[1..][i..i + |p|];
        assert OccursAt(s, p, i + 1);
      } else {
        forall i | 0 < i <= |s| - |p| ensures !OccursAt(s, p, i) {
          assert s[1..][i - 1..i - 1 + |p|] == s[i..i + |p|];
          assert !OccursAt(s[1..], p, i - 1);
        }
        assert !OccursAt(s, p, 0);
      }
    }
  }
}

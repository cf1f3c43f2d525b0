/**
 * Scalar aggregates and orderings used by the reports: AVG over a nullable
 * column, ROUND(x, 2), the price-to-rating division, and DuckDB's default
 * NULLS LAST placement in ORDER BY. Doubles are modelled as exact reals.
 */
module Aggregates {
  import opened Wrappers

  // ------------------------------------------------------------------- AVG

  /** Number of non-NULL entries. */
  function CountPresent(ps: seq<Option<real>>): nat {
    if ps == [] then 0 else CountPresent(ps[..|ps| - 1]) + (if ps[|ps| - 1].Some? then 1 else 0)
  }

  /** Sum of the non-NULL entries. */
  function SumPresent(ps: seq<Option<real>>): real {
    if ps == [] then 0.0
    else SumPresent(ps[..|ps| - 1]) + (if ps[|ps| - 1].Some? then ps[|ps| - 1].value else 0.0)
  }

  /** SQL AVG: the mean of the non-NULL entries, NULL when there are none. */
  function Avg(ps: seq<Option<real>>): Option<real> {
    if CountPresent(ps) == 0 then None else Some(SumPresent(ps) / CountPresent(ps) as real)
  }

  ghost predicate AllPresentWithin(ps: seq<Option<real>>, lo: real, hi: real) {
    forall i :: 0 <= i < |ps| && ps[i].Some? ==> lo <= ps[i].value <= hi
  }

  lemma {:induction false} SumPresentBounds(ps: seq<Option<real>>, lo: real, hi: real)
    requires AllPresentWithin(ps, lo, hi)
    ensures lo * CountPresent(ps) as real <= SumPresent(ps) <= hi * CountPresent(ps) as real
  {
    if ps != [] {
      var init := ps[..|ps| - 1];
      assert AllPresentWithin(init, lo, hi) by {
        forall i | 0 <= i < |init| && init[i].Some? ensures lo <= init[i].value <= hi {
          assert init[i] == ps[i];
        }
      }
      SumPresentBounds(init, lo, hi);
      var n := CountPresent(init) as real;
      if ps[|ps| - 1].Some? {
        assert lo * (n + 1.0) == lo * n + lo;
        assert hi * (n + 1.0) == hi * n + hi;
      }
    }
  }

  /** AVG of values that all lie in [lo, hi] lies in [lo, hi]; it is NULL only when every entry is. */
  lemma AvgWithin(ps: seq<Option<real>>, lo: real, hi: real)
    requires AllPresentWithin(ps, lo, hi)
    ensures Avg(ps).Some? ==> lo <= Avg(ps).value <= hi
  {
    if CountPresent(ps) > 0 {
      SumPresentBounds(ps, lo, hi);
      var n := CountPresent(ps) as real;
      var s := SumPresent(ps);
      assert Avg(ps) == Some(s / n);
      DivBounds(s, n, lo, hi);
    }
  }

  /** AVG is NULL exactly when no entry is present. */
  lemma {:induction false} AvgNullIff(ps: seq<Option<real>>)
    ensures Avg(ps).None? <==> forall i :: 0 <= i < |ps| ==> ps[i].None?
  {
    if ps != [] {
      var init := ps[..|ps| - 1];
      AvgNullIff(init);
      assert forall i :: 0 <= i < |init| ==> init[i] == ps[i];
    }
  }

  /** AVG of two present values is their midpoint. */
  lemma AvgOfTwo(a: real, b: real)
    ensures Avg([Some(a), Some(b)]) == Some((a + b) / 2.0)
  {
    var ps := [Some(a), Some(b)];
    assert ps[..1] == [Some(a)];
    assert [Some(a)][..0] == [];
    assert CountPresent([Some(a)]) == 1 && SumPresent([Some(a)]) == a;
    assert CountPresent(ps) == 2;
    assert SumPresent(ps) == a + b;
  }

  /** A NULL entry changes neither the count nor the sum: AVG ignores it. */
  lemma AvgIgnoresNull(ps: seq<Option<real>>)
    ensures Avg(ps + [None]) == Avg(ps)
  {
    assert (ps + [None])[..|ps|] == ps;
  }

  // ------------------------------------------------------------- ROUND(x, 2)

  /** std::round: nearest integer, halves away from zero. */
  function RoundHalfAway(x: real): int {
    if x >= 0.0 then (x + 0.5).Floor else -((-x + 0.5).Floor)
  }

  /** ROUND(x, 2) on an exact value: DuckDB computes round(x * 100) / 100. */
  function Round2(x: real): real {
    RoundHalfAway(x * 100.0) as real / 100.0
  }

  /** ROUND(x, 2) moves a value by at most half a cent. */
  lemma Round2Error(x: real)
    ensures -0.005 <= Round2(x) - x <= 0.005
  {
    var y := x * 100.0;
    var n := RoundHalfAway(y);
    assert -0.5 <= n as real - y <= 0.5;
  }

  /** ROUND(x, 2) does not reverse the order of two values. */
  lemma Round2Monotone(x: real, y: real)
    requires x <= y
    ensures Round2(x) <= Round2(y)
  {
    var a, b := x * 100.0, y * 100.0;
    assert a <= b;
    FloorMonotone(a + 0.5, b + 0.5);
    FloorMonotone(-b + 0.5, -a + 0.5);
    assert RoundHalfAway(a) <= RoundHalfAway(b);
  }

  lemma FloorMonotone(a: real, b: real)
    requires a <= b
    ensures a.Floor <= b.Floor
  {
  }

  lemma DivBounds(s: real, n: real, lo: real, hi: real)
    requires n > 0.0 && lo * n <= s <= hi * n
    ensures lo <= s / n <= hi
  {
    var q := s / n;
    assert s == q * n;
    assert (q - lo) * n >= 0.0;
    assert (hi - q) * n >= 0.0;
  }

  /** ROUND applied to a nullable value: NULL stays NULL. */
  function Round2Opt(x: Option<real>): (r: Option<real>)
    ensures r.Some? <==> x.Some?
  {
    if x.Some? then Some(Round2(x.value)) else None
  }

  // ------------------------------------------------------ price / rating

  /**
   * `AVG(price) / rating`: the division is only defined for a non-zero divisor,
   * so every query that uses it must show that its filter excludes a zero rating.
   */
  function Ratio(avg: Option<real>, rating: real): (r: Option<real>)
    requires rating != 0.0
    ensures r.Some? <==> avg.Some?
  {
    if avg.Some? then Some(avg.value / rating) else None
  }

  /**
   * The guarded division `AVG(price) / NULLIF(rating, 0)`: NULL instead of a
   * division by zero. A value is produced exactly when there is an average and a
   * non-zero rating, and it is the quotient: multiplied back by the rating it
   * gives the average.
   */
  function GuardedRatio(avg: Option<real>, rating: real): (r: Option<real>)
    ensures r.Some? <==> avg.Some? && rating != 0.0
    ensures r.Some? ==> r.value * rating == avg.value
    ensures rating != 0.0 ==> r == Ratio(avg, rating)
  {
    if rating == 0.0 then None else Ratio(avg, rating)
  }

  // ---------------------------------------------------- ORDER BY, NULLS LAST

  /** `a` may precede `b` under ORDER BY ... ASC NULLS LAST. */
  predicate AscNullsLast(a: Option<real>, b: Option<real>) {
    b.None? || (a.Some? && a.value <= b.value)
  }

  /** `a` may precede `b` under ORDER BY ... DESC NULLS LAST. */
  predicate DescNullsLast(a: Option<real>, b: Option<real>) {
    b.None? || (a.Some? && a.value >= b.value)
  }

  /** `a` may precede `b` under ORDER BY ... DESC NULLS LAST, for an integer column. */
  predicate DescNullsLastInt(a: Option<int>, b: Option<int>) {
    b.None? || (a.Some? && a.value >= b.value)
  }

  /** Two different keys are never tied: each of these orders is strict off the diagonal. */
  lemma NullsLastStrict(a: Option<real>, b: Option<real>, c: Option<int>, d: Option<int>)
    ensures a != b ==> (AscNullsLast(a, b) <==> !AscNullsLast(b, a))
    ensures a != b ==> (DescNullsLast(a, b) <==> !DescNullsLast(b, a))
    ensures c != d ==> (DescNullsLastInt(c, d) <==> !DescNullsLastInt(d, c))
  {
  }
}

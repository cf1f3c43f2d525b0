/**
 * The relational-algebra stages the report queries are built from:
 * WHERE (Filter), column projection (Project), GROUP BY (GroupBy),
 * ORDER BY (SortBy) and LIMIT (Limit), over tables given as sequences of rows.
 * Bag semantics: duplicates are kept, and multiplicities are counted with multisets.
 */
module Relational {
  import opened Wrappers

  // ---------------------------------------------------------------- WHERE

  /** The rows of `s` that satisfy `p`, in their original order (bag semantics: see FilterMultiplicity). */
  function Filter<T>(p: T -> bool, s: seq<T>): (r: seq<T>)
    ensures |r| <= |s|
    ensures forall i :: 0 <= i < |r| ==> r[i] in s && p(r[i])
    ensures forall i :: 0 <= i < |s| && p(s[i]) ==> s[i] in r
  {
    if s == [] then []
    else
      assert s == s[..|s| - 1] + [s[|s| - 1]];
      Filter(p, s[..|s| - 1]) + (if p(s[|s| - 1]) then [s[|s| - 1]] else [])
  }

  /**
   * WHERE has bag semantics: it keeps every copy of a value that satisfies `p`
   * and no copy of any other, so it never removes duplicates.
   */
  lemma {:induction false} FilterMultiplicity<T>(p: T -> bool, s: seq<T>, x: T)
    ensures multiset(Filter(p, s))[x] == if p(x) then multiset(s)[x] else 0
  {
    if s != [] {
      var init, last := s[..|s| - 1], s[|s| - 1];
      FilterMultiplicity(p, init, x);
      MultisetSnoc(s, x);
      MultisetConcat(Filter(p, init), if p(last) then [last] else [], x);
    }
  }

  lemma MultisetConcat<T>(a: seq<T>, b: seq<T>, x: T)
    ensures multiset(a + b)[x] == multiset(a)[x] + multiset(b)[x]
  {
  }

  lemma MultisetSnoc<T>(s: seq<T>, x: T)
    requires s != []
    ensures multiset(s)[x] == multiset(s[..|s| - 1])[x] + (if x == s[|s| - 1] then 1 else 0)
  {
    assert s == s[..|s| - 1] + [s[|s| - 1]];
  }

  // ------------------------------------------------------- column projection

  /** The column `f` of every row of `s` (SELECT f FROM s). */
  function Project<T, U>(f: T --> U, s: seq<T>): (r: seq<U>)
    requires forall i :: 0 <= i < |s| ==> f.requires(s[i])
    ensures |r| == |s|
    ensures forall i :: 0 <= i < |s| ==> r[i] == f(s[i])
  {
    if s == [] then [] else Project(f, s[..|s| - 1]) + [f(s[|s| - 1])]
  }

  /** The identity column function: grouping a column by its own values. */
  function Id<K>(k: K): K {
    k
  }

  /** The grouping key of a group: a query that selects only GROUP BY columns. */
  function GroupKey<K, T>(g: (K, seq<T>)): K {
    g.0
  }

  lemma ProjectId<K>(s: seq<K>)
    ensures Project(Id, s) == s
  {
  }

  /** The non-NULL entries of a nullable column, in order. */
  function Present<K>(s: seq<Option<K>>): (r: seq<K>)
    ensures |r| <= |s|
  {
    if s == [] then []
    else Present(s[..|s| - 1]) + (if s[|s| - 1].Some? then [s[|s| - 1].value] else [])
  }

  /** Dropping the NULLs keeps every other value with its multiplicity. */
  lemma {:induction false} PresentCounts<K>(s: seq<Option<K>>)
    ensures forall k :: multiset(Present(s))[k] == multiset(s)[Some(k)]
    ensures |Present(s)| + multiset(s)[None] == |s|
  {
    if s != [] {
      var init := s[..|s| - 1];
      var last := s[|s| - 1];
      var tail := if last.Some? then [last.value] else [];
      PresentCounts(init);
      assert s == init + [last];
      assert multiset(s) == multiset(init) + multiset{last};
      assert multiset(Present(s)) == multiset(Present(init)) + multiset(tail);
    }
  }

  // -------------------------------------------------------------- GROUP BY

  /** The rows of `s` whose key under `f` is `k`, in order (one group's members). */
  function Members<T, K(==)>(f: T -> K, s: seq<T>, k: K): seq<T> {
    if s == [] then []
    else Members(f, s[..|s| - 1], k) + (if f(s[|s| - 1]) == k then [s[|s| - 1]] else [])
  }

  /** The key column of a grouped table. */
  function Keys<K, T>(gs: seq<(K, seq<T>)>): (r: seq<K>)
    ensures |r| == |gs|
    ensures forall i :: 0 <= i < |gs| ==> r[i] == gs[i].0
  {
    if gs == [] then [] else [gs[0].0] + Keys(gs[1..])
  }

  ghost predicate DistinctKeys<K, T>(gs: seq<(K, seq<T>)>) {
    forall i, j :: 0 <= i < j < |gs| ==> gs[i].0 != gs[j].0
  }

  /** The members recorded for key `k` in a grouped table ([] when `k` has no group). */
  function Lookup<K(==), T>(gs: seq<(K, seq<T>)>, k: K): seq<T> {
    if gs == [] then [] else if gs[0].0 == k then gs[0].1 else Lookup(gs[1..], k)
  }

  /** Sum of the group sizes of a grouped table. */
  function TotalSize<K, T>(gs: seq<(K, seq<T>)>): nat {
    if gs == [] then 0 else |gs[0].1| + TotalSize(gs[1..])
  }

  /** Adds row `x` with key `k`: appended to the group of `k`, or a new group at the end. */
  function AddToGroup<K(==), T>(gs: seq<(K, seq<T>)>, k: K, x: T): seq<(K, seq<T>)> {
    if gs == [] then [(k, [x])]
    else if gs[0].0 == k then [(k, gs[0].1 + [x])] + gs[1..]
    else [gs[0]] + AddToGroup(gs[1..], k, x)
  }

  lemma {:induction false} AddToGroupSpec<K, T>(gs: seq<(K, seq<T>)>, k: K, x: T)
    requires DistinctKeys(gs)
    ensures DistinctKeys(AddToGroup(gs, k, x))
    ensures forall k' :: k' in Keys(AddToGroup(gs, k, x)) <==> k' in Keys(gs) || k' == k
    ensures forall k' :: Lookup(AddToGroup(gs, k, x), k') == Lookup(gs, k') + (if k' == k then [x] else [])
    ensures TotalSize(AddToGroup(gs, k, x)) == TotalSize(gs) + 1
  {
    var r := AddToGroup(gs, k, x);
    if gs == [] {
    } else if gs[0].0 == k {
      assert r[1..] == gs[1..];
      forall k' ensures k' in Keys(r) <==> k' in Keys(gs) || k' == k {
        assert Keys(r) == [k] + Keys(gs[1..]);
        assert Keys(gs) == [k] + Keys(gs[1..]);
      }
      forall k' | k' != k ensures Lookup(r, k') == Lookup(gs, k') {
        assert Lookup(r, k') == Lookup(gs[1..], k');
      }
    } else {
      var rest := AddToGroup(gs[1..], k, x);
      AddToGroupSpec(gs[1..], k, x);
      assert r == [gs[0]] + rest;
      assert r[1..] == rest;
      assert Keys(r) == [gs[0].0] + Keys(rest);
      assert Keys(gs) == [gs[0].0] + Keys(gs[1..]);
      assert gs[0].0 !in Keys(gs[1..]);
      forall i, j | 0 <= i < j < |r| ensures r[i].0 != r[j].0 {
        if i == 0 {
          assert r[j].0 == Keys(rest)[j - 1];
        } else {
          assert r[i] == rest[i - 1] && r[j] == rest[j - 1];
        }
      }
    }
  }

  /**
   * SQL GROUP BY f: one group per distinct key, in order of first appearance,
   * holding that key's rows in input order.
   */
  function GroupBy<T, K(==)>(f: T -> K, s: seq<T>): seq<(K, seq<T>)> {
    if s == [] then []
    else AddToGroup(GroupBy(f, s[..|s| - 1]), f(s[|s| - 1]), s[|s| - 1])
  }

  /**
   * GROUP BY partitions its input: keys are distinct, a key has a group exactly
   * when some row carries it, each group holds exactly the rows of its key,
   * and the group sizes add up to the number of input rows.
   */
  lemma {:induction false} GroupBySpec<T, K>(f: T -> K, s: seq<T>)
    ensures DistinctKeys(GroupBy(f, s))
    ensures forall k :: k in Keys(GroupBy(f, s)) <==> Members(f, s, k) != []
    ensures forall k :: Lookup(GroupBy(f, s), k) == Members(f, s, k)
    ensures TotalSize(GroupBy(f, s)) == |s|
  {
    if s != [] {
      var init := s[..|s| - 1];
      var x := s[|s| - 1];
      GroupBySpec(f, init);
      AddToGroupSpec(GroupBy(f, init), f(x), x);
      forall k ensures k in Keys(GroupBy(f, init)) <==> Members(f, init, k) != [] {
      }
    }
  }

  /** In a table with distinct keys, every entry is what Lookup finds for its key. */
  lemma {:induction false} LookupAt<K, T>(gs: seq<(K, seq<T>)>, i: nat)
    requires DistinctKeys(gs)
    requires i < |gs|
    ensures Lookup(gs, gs[i].0) == gs[i].1
  {
    if i > 0 {
      assert gs[0].0 != gs[i].0;
      LookupAt(gs[1..], i - 1);
    }
  }

  /** A group's size is the multiplicity of its key in the key column. */
  lemma {:induction false} MembersCount<T, K>(f: T -> K, s: seq<T>, k: K)
    ensures |Members(f, s, k)| == multiset(Project(f, s))[k]
  {
    if s != [] {
      var init := s[..|s| - 1];
      MembersCount(f, init, k);
      assert Project(f, s) == Project(f, init) + [f(s[|s| - 1])];
    }
  }

  /** Every row of the input is a member of the group of its own key. */
  lemma {:induction false} MembersComplete<T, K>(f: T -> K, s: seq<T>)
    ensures forall t :: t in s ==> t in Members(f, s, f(t))
  {
    if s != [] {
      var init := s[..|s| - 1];
      MembersComplete(f, init);
      assert s == init + [s[|s| - 1]];
    }
  }

  /** Restricting a group to the rows that satisfy `p` is the group of the restricted table. */
  lemma {:induction false} FilterMembers<T, K>(p: T -> bool, f: T -> K, s: seq<T>, k: K)
    ensures Filter(p, Members(f, s, k)) == Members(f, Filter(p, s), k)
  {
    if s != [] {
      var init := s[..|s| - 1];
      var x := s[|s| - 1];
      FilterMembers(p, f, init, k);
      var fi := Filter(p, init);
      var mi := Members(f, init, k);
      assert (fi + [x])[..|fi|] == fi;
      assert (mi + [x])[..|mi|] == mi;
      assert Filter(p, s) == if p(x) then fi + [x] else fi;
      assert Members(f, s, k) == if f(x) == k then mi + [x] else mi;
      assert Filter(p, mi + [x]) == Filter(p, mi) + (if p(x) then [x] else []);
      assert Members(f, fi + [x], k) == Members(f, fi, k) + (if f(x) == k then [x] else []);
    }
  }

  /** Every member of a group is a row of the input with that key. */
  lemma {:induction false} MembersSound<T, K>(f: T -> K, s: seq<T>, k: K)
    ensures forall x :: x in Members(f, s, k) ==> x in s && f(x) == k
  {
    if s != [] {
      var init := s[..|s| - 1];
      MembersSound(f, init, k);
      assert s == init + [s[|s| - 1]];
    }
  }

  /** Facts about the grouped table, stated entry by entry. */
  lemma GroupEntries<T, K>(f: T -> K, s: seq<T>)
    ensures forall i :: 0 <= i < |GroupBy(f, s)| ==>
      GroupBy(f, s)[i].1 == Members(f, s, GroupBy(f, s)[i].0) && GroupBy(f, s)[i].1 != []
    ensures forall i :: 0 <= i < |GroupBy(f, s)| ==>
      forall x :: x in GroupBy(f, s)[i].1 ==> x in s && f(x) == GroupBy(f, s)[i].0
  {
    var gs := GroupBy(f, s);
    GroupBySpec(f, s);
    forall i | 0 <= i < |gs| ensures gs[i].1 == Members(f, s, gs[i].0) && gs[i].1 != [] {
      LookupAt(gs, i);
      assert gs[i].0 in Keys(gs) by { assert Keys(gs)[i] == gs[i].0; }
    }
    forall i | 0 <= i < |gs|
      ensures forall x :: x in gs[i].1 ==> x in s && f(x) == gs[i].0
    {
      MembersSound(f, s, gs[i].0);
    }
  }

  /** No two rows of an aggregate query share a group key. */
  lemma RowsDistinct<T, K, R>(f: T -> K, s: seq<T>, row: ((K, seq<T>)) --> R, id: R -> K)
    requires forall i :: 0 <= i < |GroupBy(f, s)| ==> row.requires(GroupBy(f, s)[i])
    requires forall g :: row.requires(g) ==> id(row(g)) == g.0
    ensures DistinctBy(id, Project(row, GroupBy(f, s)))
  {
    var gs := GroupBy(f, s);
    var rows := Project(row, gs);
    GroupBySpec(f, s);
    forall i, j | 0 <= i < j < |rows| ensures id(rows[i]) != id(rows[j]) {
      assert id(rows[i]) == gs[i].0 && id(rows[j]) == gs[j].0;
    }
  }

  /**
   * The rows of an aggregate query (SELECT ... GROUP BY f), one per group:
   * no two rows share a group key, each row is computed from exactly the members
   * of its group, and every input row's key has its row.
   */
  lemma AggregateRows<T, K, R>(f: T -> K, s: seq<T>, row: ((K, seq<T>)) --> R, id: R -> K)
    requires forall i :: 0 <= i < |GroupBy(f, s)| ==> row.requires(GroupBy(f, s)[i])
    requires forall g :: row.requires(g) ==> id(row(g)) == g.0
    ensures DistinctBy(id, Project(row, GroupBy(f, s)))
    ensures forall x :: x in Project(row, GroupBy(f, s)) ==>
      && Members(f, s, id(x)) != []
      && row.requires((id(x), Members(f, s, id(x))))
      && x == row((id(x), Members(f, s, id(x))))
    ensures forall t :: t in s ==> exists x :: x in Project(row, GroupBy(f, s)) && id(x) == f(t)
  {
    var gs := GroupBy(f, s);
    var rows := Project(row, gs);
    RowsDistinct(f, s, row, id);
    GroupBySpec(f, s);
    GroupEntries(f, s);
    forall x | x in rows
      ensures Members(f, s, id(x)) != [] && row.requires((id(x), Members(f, s, id(x))))
      ensures x == row((id(x), Members(f, s, id(x))))
    {
      var i :| 0 <= i < |rows| && rows[i] == x;
      assert gs[i] == (gs[i].0, gs[i].1);
    }
    MembersComplete(f, s);
    forall t | t in s ensures exists x :: x in rows && id(x) == f(t) {
      assert t in Members(f, s, f(t));
      var i :| 0 <= i < |gs| && Keys(gs)[i] == f(t);
      assert rows[i] in rows;
    }
  }

  /**
   * An aggregate query with ORDER BY le LIMIT n: at most n rows (fewer only when
   * there are fewer groups), sorted, at most one row per group key, each a row of
   * the aggregate, and every row it drops may be placed after every row it keeps.
   */
  lemma AggregateTopN<T, K, R(!new)>(f: T -> K, s: seq<T>, row: ((K, seq<T>)) --> R, id: R -> K,
                                     le: (R, R) -> bool, n: nat)
    requires forall i :: 0 <= i < |GroupBy(f, s)| ==> row.requires(GroupBy(f, s)[i])
    requires forall g :: row.requires(g) ==> id(row(g)) == g.0
    requires TotalPreorder(le)
    ensures var rows := Project(row, GroupBy(f, s)); var out := Limit(SortBy(le, rows), n);
      && |out| == (if |rows| <= n then |rows| else n)
      && Sorted(le, out)
      && DistinctBy(id, out)
      && (forall x :: x in out ==> x in rows)
      && (forall x, y :: x in out && y in rows && y !in out ==> le(x, y))
  {
    RowsDistinct(f, s, row, id);
    TopNRows(le, id, Project(row, GroupBy(f, s)), n);
  }

  /** ORDER BY le LIMIT n over rows with distinct keys: the top-N laws, keys still distinct. */
  lemma TopNRows<R(!new), K>(le: (R, R) -> bool, id: R -> K, rows: seq<R>, n: nat)
    requires TotalPreorder(le)
    requires DistinctBy(id, rows)
    ensures var out := Limit(SortBy(le, rows), n);
      && |out| == (if |rows| <= n then |rows| else n)
      && Sorted(le, out)
      && DistinctBy(id, out)
      && (forall x :: x in out ==> x in rows)
      && (forall x, y :: x in out && y in rows && y !in out ==> le(x, y))
  {
    var sorted := SortBy(le, rows);
    var out := Limit(sorted, n);
    DistinctBySortBy(id, le, rows);
    TopN(le, rows, n);
    forall x | x in out ensures x in rows {
      assert x in multiset(out);
      assert x in multiset(rows);
    }
    assert DistinctBy(id, out) by {
      forall i, j | 0 <= i < j < |out| ensures id(out[i]) != id(out[j]) {
        assert out[i] == sorted[i] && out[j] == sorted[j];
      }
    }
  }

  // ------------------------------------------------------------ aggregates

  /** SUM of a natural-valued column. */
  function SumOf<T>(h: T -> nat, s: seq<T>): nat {
    if s == [] then 0 else h(s[0]) + SumOf(h, s[1..])
  }

  /** Summing a per-group column that equals the group size yields the total size. */
  lemma {:induction false} SumOfGroupSizes<K, T, R>(h: R -> nat, row: ((K, seq<T>)) -> R, gs: seq<(K, seq<T>)>)
    requires forall g :: h(row(g)) == |g.1|
    ensures SumOf(h, Project(row, gs)) == TotalSize(gs)
  {
    if gs != [] {
      SumOfGroupSizes(h, row, gs[1..]);
      var rs := Project(row, gs);
      assert rs[1..] == Project(row, gs[1..]);
    }
  }

  // -------------------------------------------------------------- ORDER BY

  /** `le(a, b)`: `a` may be placed before `b`. */
  ghost predicate TotalPreorder<T(!new)>(le: (T, T) -> bool) {
    && (forall a, b :: le(a, b) || le(b, a))
    && (forall a, b, c :: le(a, b) && le(b, c) ==> le(a, c))
  }

  ghost predicate Sorted<T>(le: (T, T) -> bool, s: seq<T>) {
    forall i, j :: 0 <= i < j < |s| ==> le(s[i], s[j])
  }

  /** No two rows of `s` share a value of `f`. */
  ghost predicate DistinctBy<T, K>(f: T -> K, s: seq<T>) {
    forall i, j :: 0 <= i < j < |s| ==> f(s[i]) != f(s[j])
  }

  function Insert<T>(le: (T, T) -> bool, x: T, s: seq<T>): (r: seq<T>)
    ensures multiset(r) == multiset(s) + multiset{x}
  {
    if s == [] then [x]
    else if le(x, s[0]) then [x] + s
    else
      assert s == [s[0]] + s[1..];
      [s[0]] + Insert(le, x, s[1..])
  }

  /** Insertion sort under `le`; the order among ties is left as it happens. */
  function SortBy<T>(le: (T, T) -> bool, s: seq<T>): (r: seq<T>)
    ensures multiset(r) == multiset(s)
  {
    if s == [] then []
    else
      assert s == [s[0]] + s[1..];
      Insert(le, s[0], SortBy(le, s[1..]))
  }

  lemma {:induction false} InsertSorted<T(!new)>(le: (T, T) -> bool, x: T, s: seq<T>)
    requires TotalPreorder(le)
    requires Sorted(le, s)
    ensures Sorted(le, Insert(le, x, s))
  {
    if s != [] && !le(x, s[0]) {
      var rest := Insert(le, x, s[1..]);
      InsertSorted(le, x, s[1..]);
      var r := [s[0]] + rest;
      forall j | 1 <= j < |r| ensures le(r[0], r[j]) {
        assert r[j] in multiset(rest);
        assert r[j] in multiset(s[1..]) + multiset{x};
        if r[j] != x {
          assert r[j] in s[1..];
        }
      }
    }
  }

  lemma {:induction false} SortBySorted<T(!new)>(le: (T, T) -> bool, s: seq<T>)
    requires TotalPreorder(le)
    ensures Sorted(le, SortBy(le, s))
  {
    if s != [] {
      SortBySorted(le, s[1..]);
      InsertSorted(le, s[0], SortBy(le, s[1..]));
    }
  }

  lemma {:induction false} SumOfInsert<T>(h: T -> nat, le: (T, T) -> bool, x: T, s: seq<T>)
    ensures SumOf(h, Insert(le, x, s)) == h(x) + SumOf(h, s)
  {
    if s != [] && !le(x, s[0]) {
      SumOfInsert(h, le, x, s[1..]);
      assert ([s[0]] + Insert(le, x, s[1..]))[1..] == Insert(le, x, s[1..]);
    }
  }

  /** Sorting does not change a column's sum. */
  lemma {:induction false} SumOfSortBy<T>(h: T -> nat, le: (T, T) -> bool, s: seq<T>)
    ensures SumOf(h, SortBy(le, s)) == SumOf(h, s)
  {
    if s != [] {
      SumOfSortBy(h, le, s[1..]);
      SumOfInsert(h, le, s[0], SortBy(le, s[1..]));
    }
  }

  /** WHERE keeps a column free of repeated values. */
  lemma {:induction false} DistinctByFilter<T, K>(f: T -> K, p: T -> bool, s: seq<T>)
    requires DistinctBy(f, s)
    ensures DistinctBy(f, Filter(p, s))
  {
    if s != [] {
      var init := s[..|s| - 1];
      var x := s[|s| - 1];
      assert DistinctBy(f, init);
      DistinctByFilter(f, p, init);
      var fi := Filter(p, init);
      if p(x) {
        var r := fi + [x];
        forall i, j | 0 <= i < j < |r| ensures f(r[i]) != f(r[j]) {
          if j == |fi| {
            assert r[i] in init;
            var k :| 0 <= k < |init| && init[k] == r[i];
            assert s[k] == r[i];
          } else {
            assert r[i] == fi[i] && r[j] == fi[j];
          }
        }
      }
    }
  }

  /**
   * GROUP BY key with COUNT(*): the rows have distinct keys, each counts the
   * input rows with its key (at least one), every key that occurs has a row,
   * and the counts add up to the input size.
   */
  lemma CountedRows<T, K, R>(f: T -> K, s: seq<T>, row: ((K, seq<T>)) -> R, id: R -> K, count: R -> nat)
    requires forall g :: id(row(g)) == g.0 && count(row(g)) == |g.1|
    ensures var rows := Project(row, GroupBy(f, s));
      && DistinctBy(id, rows)
      && (forall x :: x in rows ==> 1 <= count(x) == multiset(Project(f, s))[id(x)])
      && (forall k :: multiset(Project(f, s))[k] > 0 ==> exists x :: x in rows && id(x) == k)
      && SumOf(count, rows) == |s|
  {
    var gs := GroupBy(f, s);
    var rows := Project(row, gs);
    AggregateRows(f, s, row, id);
    forall x | x in rows ensures 1 <= count(x) == multiset(Project(f, s))[id(x)] {
      MembersCount(f, s, id(x));
    }
    forall k | multiset(Project(f, s))[k] > 0 ensures exists x :: x in rows && id(x) == k {
      var col := Project(f, s);
      assert k in col;
      var i :| 0 <= i < |col| && col[i] == k;
      assert s[i] in s;
    }
    SumOfGroupSizes(count, row, gs);
    GroupBySpec(f, s);
  }

  /** ORDER BY over a total preorder: sorted, same rows, same sum, still distinct. */
  lemma SortedRows<R(!new), K>(le: (R, R) -> bool, id: R -> K, count: R -> nat, rows: seq<R>)
    requires TotalPreorder(le)
    ensures var out := SortBy(le, rows);
      && Sorted(le, out)
      && (forall x :: x in out <==> x in rows)
      && SumOf(count, out) == SumOf(count, rows)
      && (DistinctBy(id, rows) ==> DistinctBy(id, out))
  {
    var out := SortBy(le, rows);
    SortBySorted(le, rows);
    forall x ensures x in out <==> x in rows {
      assert x in out <==> x in multiset(out);
    }
    SumOfSortBy(count, le, rows);
    if DistinctBy(id, rows) {
      DistinctBySortBy(id, le, rows);
    }
  }

  /** Sorting keeps a column free of repeated values. */
  lemma DistinctBySortBy<T, K>(f: T -> K, le: (T, T) -> bool, s: seq<T>)
    requires DistinctBy(f, s)
    ensures DistinctBy(f, SortBy(le, s))
  {
    var r := SortBy(le, s);
    forall i, j | 0 <= i < j < |r| ensures f(r[i]) != f(r[j]) {
      SortedIndices(s, r, i, j);
    }
  }

  /** Two distinct positions of a permutation come from two distinct positions of the original. */
  lemma SortedIndices<T>(s: seq<T>, r: seq<T>, i: int, j: int)
    requires multiset(r) == multiset(s)
    requires 0 <= i < j < |r|
    ensures exists i', j' :: 0 <= i' < |s| && 0 <= j' < |s| && i' != j' && s[i'] == r[i] && s[j'] == r[j]
  {
    if r[i] == r[j] {
      RepeatedCount(r, i, j);
      TwoPositions(s, r[i]);
    } else {
      assert r[i] in multiset(s);
      assert r[j] in multiset(s);
    }
  }

  /** A value at two positions of `r` occurs at least twice in it. */
  lemma RepeatedCount<T>(r: seq<T>, i: int, j: int)
    requires 0 <= i < j < |r| && r[i] == r[j]
    ensures multiset(r)[r[i]] >= 2
  {
    assert r == r[..j] + [r[j]] + r[j + 1..];
    assert r[i] in multiset(r[..j]);
  }

  /** A value occurring at least twice in `s` sits at two distinct positions of it. */
  lemma TwoPositions<T>(s: seq<T>, x: T)
    requires multiset(s)[x] >= 2
    ensures exists i', j' :: 0 <= i' < |s| && 0 <= j' < |s| && i' != j' && s[i'] == x && s[j'] == x
  {
    assert x in multiset(s);
    var i' :| 0 <= i' < |s| && s[i'] == x;
    var sRest := s[..i'] + s[i' + 1..];
    assert s == s[..i'] + [s[i']] + s[i' + 1..];
    assert multiset(s) == multiset(sRest) + multiset{x};
    assert x in multiset(sRest);
    var k :| 0 <= k < |sRest| && sRest[k] == x;
    var j' := if k < i' then k else k + 1;
    assert s[j'] == sRest[k];
  }

  // ------------------------------------------------------------------ LIMIT

  /** SQL LIMIT n: the first `n` rows. */
  function Limit<T>(s: seq<T>, n: nat): (r: seq<T>)
    ensures |r| == if |s| <= n then |s| else n
  {
    if |s| <= n then s else s[..n]
  }

  /**
   * ORDER BY le LIMIT n keeps min(n, |s|) of the rows, in order, and every row
   * it drops may be placed after every row it keeps.
   */
  lemma TopN<T(!new)>(le: (T, T) -> bool, s: seq<T>, n: nat)
    requires TotalPreorder(le)
    ensures |Limit(SortBy(le, s), n)| == if |s| <= n then |s| else n
    ensures Sorted(le, Limit(SortBy(le, s), n))
    ensures multiset(Limit(SortBy(le, s), n)) <= multiset(s)
    ensures forall x, y :: x in Limit(SortBy(le, s), n) && y in s && y !in Limit(SortBy(le, s), n) ==> le(x, y)
  {
    var sorted := SortBy(le, s);
    var out := Limit(sorted, n);
    SortBySorted(le, s);
    assert |sorted| == |s| by { assert |multiset(sorted)| == |multiset(s)|; }
    LimitPrefix(le, sorted, n);
    forall y | y in s ensures y in sorted {
      assert y in multiset(sorted);
    }
  }

  /** LIMIT keeps a prefix: its rows come from the input, and no dropped row precedes a kept one. */
  lemma LimitPrefix<T>(le: (T, T) -> bool, sorted: seq<T>, n: nat)
    requires Sorted(le, sorted)
    ensures Sorted(le, Limit(sorted, n))
    ensures multiset(Limit(sorted, n)) <= multiset(sorted)
    ensures forall x, y :: x in Limit(sorted, n) && y in sorted && y !in Limit(sorted, n) ==> le(x, y)
  {
    var out := Limit(sorted, n);
    var rest := sorted[|out|..];
    assert sorted == out + rest;
    assert multiset(sorted) == multiset(out) + multiset(rest);
    forall x, y | x in out && y in sorted && y !in out ensures le(x, y) {
      assert y !in multiset(out);
      assert y in multiset(rest);
      var k :| 0 <= k < |rest| && rest[k] == y;
      var i :| 0 <= i < |out| && out[i] == x;
      assert sorted[i] == x && sorted[|out| + k] == y;
    }
  }

}

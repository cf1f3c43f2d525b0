/**
 * `cleaned_restaurants r JOIN cleaned_menu_items m ON r.restaurant_key = m.restaurant_key`,
 * the inner join every menu-based report starts from, and the predicates on
 * its rows that the reports' WHERE clauses use.
 */
module Join {
  import opened Wrappers
  import opened Text
  import opened Relational
  import opened Cleaning

  datatype JoinedRow = Joined(restaurant: Restaurant, item: MenuItem)

  /** The ON condition: the keys are equal, and a NULL key equals nothing. */
  predicate KeysMatch(r: Restaurant, m: MenuItem) {
    r.key.Some? && m.key == r.key
  }

  /** The joined rows that pair `r` with an item of `ms`. */
  function Matches(r: Restaurant, ms: seq<MenuItem>): seq<JoinedRow> {
    if ms == [] then []
    else
      var m := ms[|ms| - 1];
      Matches(r, ms[..|ms| - 1]) + (if KeysMatch(r, m) then [Joined(r, m)] else [])
  }

  /** The inner join, as a bag of joined rows. */
  function InnerJoin(rs: seq<Restaurant>, ms: seq<MenuItem>): seq<JoinedRow> {
    if rs == [] then [] else InnerJoin(rs[..|rs| - 1], ms) + Matches(rs[|rs| - 1], ms)
  }

  lemma {:induction false} MatchesCount(r: Restaurant, ms: seq<MenuItem>, j: JoinedRow)
    ensures multiset(Matches(r, ms))[j] ==
      if j.restaurant == r && KeysMatch(r, j.item) then multiset(ms)[j.item] else 0
  {
    if ms != [] {
      var init := ms[..|ms| - 1];
      var m := ms[|ms| - 1];
      assert ms == init + [m];
      MatchesCount(r, init, j);
    }
  }

  /**
   * Bag semantics of the join: a pair of rows with matching keys occurs as often
   * as the product of its multiplicities on the two sides; any other pair never.
   */
  lemma {:induction false} JoinCount(rs: seq<Restaurant>, ms: seq<MenuItem>, j: JoinedRow)
    ensures multiset(InnerJoin(rs, ms))[j] ==
      if KeysMatch(j.restaurant, j.item) then multiset(rs)[j.restaurant] * multiset(ms)[j.item] else 0
  {
    if rs != [] {
      var init := rs[..|rs| - 1];
      var r := rs[|rs| - 1];
      JoinCount(init, ms, j);
      MatchesCount(r, ms, j);
      JoinSplit(rs, ms, j);
      if KeysMatch(j.restaurant, j.item) {
        CountStep(multiset(init)[j.restaurant], multiset(ms)[j.item], multiset(rs)[j.restaurant],
          multiset(InnerJoin(init, ms))[j], multiset(Matches(r, ms))[j], multiset(InnerJoin(rs, ms))[j],
          j.restaurant == r);
      }
    }
  }

  /** The join of one restaurant more adds that restaurant's matches. */
  lemma JoinSplit(rs: seq<Restaurant>, ms: seq<MenuItem>, j: JoinedRow)
    requires rs != []
    ensures multiset(InnerJoin(rs, ms))[j] ==
      multiset(InnerJoin(rs[..|rs| - 1], ms))[j] + multiset(Matches(rs[|rs| - 1], ms))[j]
    ensures multiset(rs)[j.restaurant] ==
      multiset(rs[..|rs| - 1])[j.restaurant] + (if j.restaurant == rs[|rs| - 1] then 1 else 0)
  {
    MultisetConcat(InnerJoin(rs[..|rs| - 1], ms), Matches(rs[|rs| - 1], ms), j);
    MultisetSnoc(rs, j.restaurant);
  }

  /** One restaurant more: the product grows by the item count exactly when the restaurant is `r`. */
  lemma CountStep(a: nat, c: nat, a': nat, before: nat, here: nat, after: nat, same: bool)
    requires before == a * c
    requires here == if same then c else 0
    requires a' == if same then a + 1 else a
    requires after == before + here
    ensures after == a' * c
  {
    if same {
      MulSucc(a, c);
    }
  }

  lemma MulSucc(a: nat, c: nat)
    ensures (a + 1) * c == a * c + c
  {
  }

  lemma ProductPositive(a: nat, c: nat)
    ensures a * c > 0 <==> a > 0 && c > 0
  {
    if a > 0 && c > 0 {
      assert a * c >= c by { MulSucc(a - 1, c); }
    }
  }

  /** A joined row is a restaurant and an item, both present, with matching keys. */
  lemma JoinMembers(rs: seq<Restaurant>, ms: seq<MenuItem>)
    ensures forall j :: j in InnerJoin(rs, ms) <==>
      j.restaurant in rs && j.item in ms && KeysMatch(j.restaurant, j.item)
  {
    forall j ensures j in InnerJoin(rs, ms) <==>
      j.restaurant in rs && j.item in ms && KeysMatch(j.restaurant, j.item)
    {
      JoinCount(rs, ms, j);
      ProductPositive(multiset(rs)[j.restaurant], multiset(ms)[j.item]);
      assert j in InnerJoin(rs, ms) <==> multiset(InnerJoin(rs, ms))[j] > 0;
    }
  }

  /** A restaurant or an item whose key is NULL joins with nothing. */
  lemma NullKeyNeverJoins(rs: seq<Restaurant>, ms: seq<MenuItem>)
    ensures forall j :: j in InnerJoin(rs, ms) ==> j.restaurant.key.Some? && j.item.key.Some?
  {
    JoinMembers(rs, ms);
  }

  /** WHERE p over the join. */
  function Selected(p: JoinedRow -> bool, rs: seq<Restaurant>, ms: seq<MenuItem>): seq<JoinedRow> {
    Filter(p, InnerJoin(rs, ms))
  }

  lemma SelectedMembers(p: JoinedRow -> bool, rs: seq<Restaurant>, ms: seq<MenuItem>)
    ensures forall j :: j in Selected(p, rs, ms) <==>
      j.restaurant in rs && j.item in ms && KeysMatch(j.restaurant, j.item) && p(j)
  {
    JoinMembers(rs, ms);
    var s := Selected(p, rs, ms);
    forall j | j in s ensures j in InnerJoin(rs, ms) && p(j) {
      var i :| 0 <= i < |s| && s[i] == j;
    }
    forall j | j in InnerJoin(rs, ms) && p(j) ensures j in s {
      var i :| 0 <= i < |InnerJoin(rs, ms)| && InnerJoin(rs, ms)[i] == j;
    }
  }

  // ----------------------------------------------------------- predicates

  /** m.item_name LIKE '%pattern%': a NULL name matches no pattern. */
  predicate NameLike(m: MenuItem, pattern: string) {
    m.name.Some? && Contains(m.name.value, pattern)
  }

  predicate IsPizza(j: JoinedRow) {
    NameLike(j.item, "pizza")
  }

  predicate IsDessert(j: JoinedRow) {
    || NameLike(j.item, "dessert")
    || NameLike(j.item, "cake")
    || NameLike(j.item, "ice cream")
    || NameLike(j.item, "brownie")
    || NameLike(j.item, "tiramisu")
  }

  predicate IsKapsalon(j: JoinedRow) {
    NameLike(j.item, "kapsalon")
  }

  predicate IsHummus(j: JoinedRow) {
    NameLike(j.item, "hummus")
  }

  predicate IsVegan(j: JoinedRow) {
    NameLike(j.item, "vegan")
  }

  predicate IsVegetarian(j: JoinedRow) {
    NameLike(j.item, "vegetarian") || NameLike(j.item, "veggie")
  }

  /** WHERE r.rating IS NOT NULL AND r.rating >= 3 */
  predicate RatedAtLeastThree(j: JoinedRow) {
    j.restaurant.rating.Some? && j.restaurant.rating.value >= 3.0
  }

  /** WHERE r.rating IS NOT NULL AND r.rating <= 3.5 AND m.price IS NOT NULL */
  predicate RatedAtMostThreeHalfAndPriced(j: JoinedRow) {
    j.restaurant.rating.Some? && j.restaurant.rating.value <= 3.5 && j.item.price.Some?
  }

  /** m.price, the column AVG(m.price) reads. */
  function ItemPrice(j: JoinedRow): Option<real> {
    j.item.price
  }

  /** LIKE finds the pattern anywhere in the name, and nowhere else. */
  lemma NameLikeIff(m: MenuItem, pattern: string)
    ensures NameLike(m, pattern) <==> m.name.Some? && exists i :: OccursAt(m.name.value, pattern, i)
  {
    if m.name.Some? {
      ContainsIff(m.name.value, pattern);
    }
  }
}

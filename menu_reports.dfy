/**
 * The seven reports over the join of `cleaned_restaurants` and
 * `cleaned_menu_items`: WHERE on the joined rows, GROUP BY a restaurant's
 * identity columns (or its city), COUNT(*) and ROUND(AVG(m.price), 2) per
 * group, then ORDER BY and LIMIT.
 */
module MenuReports {
  import opened Wrappers
  import opened Relational
  import opened Aggregates
  import opened Cleaning
  import opened Join

  // ------------------------------------------------------ group identities

  /** GROUP BY r.restaurant_key, r.restaurant_name, r.city, r.rating, r.rating_count */
  datatype RatedIdentity = RatedIdentity(
    key: Option<string>, name: Option<string>, city: Option<string>,
    rating: Option<real>, ratingCount: Option<int>)

  /** GROUP BY r.restaurant_key, r.restaurant_name, r.city, r.latitude, r.longitude */
  datatype MapIdentity = MapIdentity(
    key: Option<string>, name: Option<string>, city: Option<string>,
    latitude: Option<real>, longitude: Option<real>)

  /** GROUP BY r.restaurant_key, r.restaurant_name, r.city, r.rating */
  datatype ValueIdentity = ValueIdentity(
    key: Option<string>, name: Option<string>, city: Option<string>, rating: Option<real>)

  /** GROUP BY r.restaurant_key, r.restaurant_name, r.city */
  datatype NamedIdentity = NamedIdentity(key: Option<string>, name: Option<string>, city: Option<string>)

  function RatedOf(j: JoinedRow): RatedIdentity {
    var r := j.restaurant;
    RatedIdentity(r.key, r.name, r.city, r.rating, r.ratingCount)
  }

  function MapOf(j: JoinedRow): MapIdentity {
    var r := j.restaurant;
    MapIdentity(r.key, r.name, r.city, r.latitude, r.longitude)
  }

  function ValueOf(j: JoinedRow): ValueIdentity {
    var r := j.restaurant;
    ValueIdentity(r.key, r.name, r.city, r.rating)
  }

  function NamedOf(j: JoinedRow): NamedIdentity {
    var r := j.restaurant;
    NamedIdentity(r.key, r.name, r.city)
  }

  function JoinedCity(j: JoinedRow): Option<string> {
    j.restaurant.city
  }

  /** ROUND(AVG(m.price), 2) over a group. */
  function RoundedAvgPrice(items: seq<JoinedRow>): Option<real> {
    Round2Opt(Avg(Project(ItemPrice, items)))
  }

  /** AVG ignores NULL prices: the rounded average is NULL exactly when no item has a price. */
  lemma RoundedAvgPriceNullIff(items: seq<JoinedRow>)
    ensures RoundedAvgPrice(items).None? <==> forall i :: 0 <= i < |items| ==> items[i].item.price.None?
  {
    AvgNullIff(Project(ItemPrice, items));
  }

  /**
   * A group of a joined report holds exactly the joined rows that pass the
   * WHERE clause and carry the group's identity.
   */
  lemma GroupItems<K>(p: JoinedRow -> bool, f: JoinedRow -> K, rs: seq<Restaurant>, ms: seq<MenuItem>, k: K)
    ensures forall j :: j in Members(f, Selected(p, rs, ms), k) <==>
      j.restaurant in rs && j.item in ms && KeysMatch(j.restaurant, j.item) && p(j) && f(j) == k
  {
    SelectedMembers(p, rs, ms);
    MembersSound(f, Selected(p, rs, ms), k);
    MembersComplete(f, Selected(p, rs, ms));
  }

  // ------------------------------------------------------------- orderings

  /** ORDER BY r.rating DESC, r.rating_count DESC (both NULLS LAST) */
  predicate ByRating(a: RatedIdentity, b: RatedIdentity) {
    DescNullsLast(a.rating, b.rating)
    && (DescNullsLast(b.rating, a.rating) ==> DescNullsLastInt(a.ratingCount, b.ratingCount))
  }

  lemma ByRatingTotal()
    ensures TotalPreorder(ByRating)
  {
    forall a, b, c | ByRating(a, b) && ByRating(b, c) ensures ByRating(a, c) {
      if DescNullsLast(c.rating, a.rating) {
        assert DescNullsLast(b.rating, a.rating) && DescNullsLast(c.rating, b.rating);
      }
    }
  }

  // ---------------------------------------------- top_10_pizza_restaurants

  /** The restaurants with an item whose name contains "pizza", one row each. */
  function PizzaCandidates(rs: seq<Restaurant>, ms: seq<MenuItem>): seq<RatedIdentity> {
    Project(GroupKey, GroupBy(RatedOf, Selected(IsPizza, rs, ms)))
  }

  function TopPizza(rs: seq<Restaurant>, ms: seq<MenuItem>): seq<RatedIdentity> {
    Limit(SortBy(ByRating, PizzaCandidates(rs, ms)), 10)
  }

  /** A restaurant is a candidate exactly when it has a joined pizza item. */
  lemma PizzaCandidatesSpec(rs: seq<Restaurant>, ms: seq<MenuItem>)
    ensures DistinctBy(Id, PizzaCandidates(rs, ms))
    ensures forall x :: x in PizzaCandidates(rs, ms) <==>
      exists j :: j in Selected(IsPizza, rs, ms) && RatedOf(j) == x
  {
    var sel := Selected(IsPizza, rs, ms);
    AggregateRows(RatedOf, sel, GroupKey, Id);
    forall x | x in PizzaCandidates(rs, ms) ensures exists j :: j in sel && RatedOf(j) == x {
      MembersSound(RatedOf, sel, x);
      var j := Members(RatedOf, sel, x)[0];
      assert j in Members(RatedOf, sel, x);
    }
  }

  /**
   * top_10_pizza_restaurants: at most ten distinct candidates, best rating
   * first (ties by rating count), and no candidate left out ranks above one kept.
   */
  lemma TopPizzaSpec(rs: seq<Restaurant>, ms: seq<MenuItem>)
    ensures var cands := PizzaCandidates(rs, ms); var out := TopPizza(rs, ms);
      && |out| == (if |cands| <= 10 then |cands| else 10)
      && Sorted(ByRating, out)
      && DistinctBy(Id, out)
      && (forall x :: x in out ==> x in cands)
      && (forall x, y :: x in out && y in cands && y !in out ==> ByRating(x, y))
  {
    ByRatingTotal();
    AggregateTopN(RatedOf, Selected(IsPizza, rs, ms), GroupKey, Id, ByRating, 10);
  }

  // -------------------------------------------- top_10_dessert_restaurants

  datatype DessertRow = DessertRow(who: RatedIdentity, dessertItems: nat, avgDessertPrice: Option<real>)

  function DessertRowOf(g: (RatedIdentity, seq<JoinedRow>)): DessertRow {
    DessertRow(g.0, |g.1|, RoundedAvgPrice(g.1))
  }

  function DessertWho(x: DessertRow): RatedIdentity {
    x.who
  }

  predicate DessertByRating(a: DessertRow, b: DessertRow) {
    ByRating(a.who, b.who)
  }

  function DessertCandidates(rs: seq<Restaurant>, ms: seq<MenuItem>): seq<DessertRow> {
    Project(DessertRowOf, GroupBy(RatedOf, Selected(IsDessert, rs, ms)))
  }

  function TopDessert(rs: seq<Restaurant>, ms: seq<MenuItem>): seq<DessertRow> {
    Limit(SortBy(DessertByRating, DessertCandidates(rs, ms)), 10)
  }

  /**
   * Each dessert row counts the restaurant's dessert items and averages their
   * prices; every restaurant with a dessert item has its row.
   */
  lemma DessertCandidatesSpec(rs: seq<Restaurant>, ms: seq<MenuItem>)
    ensures DistinctBy(DessertWho, DessertCandidates(rs, ms))
    ensures forall x :: x in DessertCandidates(rs, ms) ==>
      var items := Members(RatedOf, Selected(IsDessert, rs, ms), x.who);
      && items != []
      && x.dessertItems == |items|
      && x.avgDessertPrice == RoundedAvgPrice(items)
    ensures forall j :: j in Selected(IsDessert, rs, ms) ==>
      exists x :: x in DessertCandidates(rs, ms) && x.who == RatedOf(j)
  {
    AggregateRows(RatedOf, Selected(IsDessert, rs, ms), DessertRowOf, DessertWho);
  }

  /** top_10_dessert_restaurants: the ten best-rated dessert restaurants, as for pizza. */
  lemma TopDessertSpec(rs: seq<Restaurant>, ms: seq<MenuItem>)
    ensures var cands := DessertCandidates(rs, ms); var out := TopDessert(rs, ms);
      && |out| == (if |cands| <= 10 then |cands| else 10)
      && Sorted(DessertByRating, out)
      && DistinctBy(DessertWho, out)
      && (forall x :: x in out ==> x in cands)
      && (forall x, y :: x in out && y in cands && y !in out ==> DessertByRating(x, y))
  {
    ByRatingTotal();
    AggregateTopN(RatedOf, Selected(IsDessert, rs, ms), DessertRowOf, DessertWho, DessertByRating, 10);
  }

  // ---------------------------------------------------------- kapsalon_map

  datatype KapsalonRow = KapsalonRow(who: MapIdentity, kapsalonItems: nat, avgPrice: Option<real>)

  function KapsalonRowOf(g: (MapIdentity, seq<JoinedRow>)): KapsalonRow {
    KapsalonRow(g.0, |g.1|, RoundedAvgPrice(g.1))
  }

  function KapsalonWho(x: KapsalonRow): MapIdentity {
    x.who
  }

  function KapsalonMap(rs: seq<Restaurant>, ms: seq<MenuItem>): seq<KapsalonRow> {
    Project(KapsalonRowOf, GroupBy(MapOf, Selected(IsKapsalon, rs, ms)))
  }

  /**
   * kapsalon_map: one row per restaurant (with its coordinates) serving a
   * kapsalon, counting those items and averaging their prices; every such
   * restaurant appears.
   */
  lemma KapsalonMapSpec(rs: seq<Restaurant>, ms: seq<MenuItem>)
    ensures DistinctBy(KapsalonWho, KapsalonMap(rs, ms))
    ensures forall x :: x in KapsalonMap(rs, ms) ==>
      var items := Members(MapOf, Selected(IsKapsalon, rs, ms), x.who);
      items != [] && x.kapsalonItems == |items| && x.avgPrice == RoundedAvgPrice(items)
    ensures forall j :: j in Selected(IsKapsalon, rs, ms) ==>
      exists x :: x in KapsalonMap(rs, ms) && x.who == MapOf(j)
  {
    AggregateRows(MapOf, Selected(IsKapsalon, rs, ms), KapsalonRowOf, KapsalonWho);
  }

  // ------------------------------------------------ best_value_restaurants

  datatype BestValueRow = BestValueRow(who: ValueIdentity, avgPrice: Option<real>, ratio: Option<real>)

  /** AVG(m.price) / r.rating: defined because the WHERE clause keeps ratings of at least 3. */
  function BestValueRowOf(g: (ValueIdentity, seq<JoinedRow>)): BestValueRow
    requires g.0.rating.Some? && g.0.rating.value != 0.0
  {
    var avg := Avg(Project(ItemPrice, g.1));
    BestValueRow(g.0, Round2Opt(avg), Round2Opt(Ratio(avg, g.0.rating.value)))
  }

  function BestValueWho(x: BestValueRow): ValueIdentity {
    x.who
  }

  /** ORDER BY price_to_rating_ratio ASC (NULLS LAST), on the rounded ratio */
  predicate ByRatioAsc(a: BestValueRow, b: BestValueRow) {
    AscNullsLast(a.ratio, b.ratio)
  }

  /** Every best-value group has a rating of at least 3, so division by it is safe. */
  lemma BestValueGroupsRated(rs: seq<Restaurant>, ms: seq<MenuItem>)
    ensures forall i :: 0 <= i < |GroupBy(ValueOf, Selected(RatedAtLeastThree, rs, ms))| ==>
      var g := GroupBy(ValueOf, Selected(RatedAtLeastThree, rs, ms))[i];
      g.0.rating.Some? && g.0.rating.value >= 3.0
  {
    var sel := Selected(RatedAtLeastThree, rs, ms);
    var gs := GroupBy(ValueOf, sel);
    GroupEntries(ValueOf, sel);
    SelectedMembers(RatedAtLeastThree, rs, ms);
    forall i | 0 <= i < |gs| ensures gs[i].0.rating.Some? && gs[i].0.rating.value >= 3.0 {
      assert gs[i].1[0] in gs[i].1;
    }
  }

  function BestValueCandidates(rs: seq<Restaurant>, ms: seq<MenuItem>): seq<BestValueRow> {
    var gs := GroupBy(ValueOf, Selected(RatedAtLeastThree, rs, ms));
    BestValueGroupsRated(rs, ms);
    assert forall i :: 0 <= i < |gs| ==> BestValueRowOf.requires(gs[i]);
    Project(BestValueRowOf, gs)
  }

  function BestValue(rs: seq<Restaurant>, ms: seq<MenuItem>): seq<BestValueRow> {
    Limit(SortBy(ByRatioAsc, BestValueCandidates(rs, ms)), 15)
  }

  /**
   * Each best-value row is a restaurant rated 3 or more, with its rounded
   * average price and its rounded ratio of average price to rating; the ratio
   * is NULL exactly when the average is.
   */
  lemma BestValueCandidatesSpec(rs: seq<Restaurant>, ms: seq<MenuItem>)
    ensures DistinctBy(BestValueWho, BestValueCandidates(rs, ms))
    ensures forall x :: x in BestValueCandidates(rs, ms) ==>
      var items := Members(ValueOf, Selected(RatedAtLeastThree, rs, ms), x.who);
      var avg := Avg(Project(ItemPrice, items));
      && items != []
      && x.who.rating.Some? && x.who.rating.value >= 3.0
      && x.avgPrice == Round2Opt(avg)
      && x.ratio == Round2Opt(Ratio(avg, x.who.rating.value))
      && (x.ratio.Some? <==> x.avgPrice.Some?)
    ensures forall j :: j in Selected(RatedAtLeastThree, rs, ms) ==>
      exists x :: x in BestValueCandidates(rs, ms) && x.who == ValueOf(j)
  {
    var sel := Selected(RatedAtLeastThree, rs, ms);
    BestValueGroupsRated(rs, ms);
    AggregateRows(ValueOf, sel, BestValueRowOf, BestValueWho);
    forall x | x in BestValueCandidates(rs, ms)
      ensures x.who.rating.Some? && x.who.rating.value >= 3.0
    {
      var items := Members(ValueOf, sel, x.who);
      MembersSound(ValueOf, sel, x.who);
      SelectedMembers(RatedAtLeastThree, rs, ms);
      assert items[0] in items;
    }
  }

  /** best_value_restaurants: the fifteen lowest ratios, NULL ratios last. */
  lemma BestValueSpec(rs: seq<Restaurant>, ms: seq<MenuItem>)
    ensures var cands := BestValueCandidates(rs, ms); var out := BestValue(rs, ms);
      && |out| == (if |cands| <= 15 then |cands| else 15)
      && Sorted(ByRatioAsc, out)
      && DistinctBy(BestValueWho, out)
      && (forall x :: x in out ==> x in cands)
      && (forall x, y :: x in out && y in cands && y !in out ==> ByRatioAsc(x, y))
  {
    BestValueGroupsRated(rs, ms);
    AggregateTopN(ValueOf, Selected(RatedAtLeastThree, rs, ms), BestValueRowOf, BestValueWho, ByRatioAsc, 15);
  }

  // -------------------------------------------------- worst_10_restaurants

  datatype WorstRow = WorstRow(who: RatedIdentity, avgPrice: Option<real>, ratio: Option<real>)

  function WorstWho(x: WorstRow): RatedIdentity {
    x.who
  }

  /**
   * The row as the query writes it: AVG(m.price) / r.rating with no guard,
   * which needs a non-zero rating that the WHERE clause does not ensure.
   */
  function WorstRowAsWritten(g: (RatedIdentity, seq<JoinedRow>)): WorstRow
    requires g.0.rating.Some? ==> g.0.rating.value != 0.0
  {
    var avg := Avg(Project(ItemPrice, g.1));
    WorstRow(g.0, Round2Opt(avg), if g.0.rating.Some? then Round2Opt(Ratio(avg, g.0.rating.value)) else None)
  }

  /** The row with the division guarded: AVG(m.price) / NULLIF(r.rating, 0). */
  function WorstRowOf(g: (RatedIdentity, seq<JoinedRow>)): WorstRow {
    var avg := Avg(Project(ItemPrice, g.1));
    WorstRow(g.0, Round2Opt(avg), if g.0.rating.Some? then Round2Opt(GuardedRatio(avg, g.0.rating.value)) else None)
  }

  /** ORDER BY price_to_rating_ratio DESC (NULLS LAST), on the rounded ratio */
  predicate ByRatioDesc(a: WorstRow, b: WorstRow) {
    DescNullsLast(a.ratio, b.ratio)
  }

  function WorstCandidates(rs: seq<Restaurant>, ms: seq<MenuItem>): seq<WorstRow> {
    Project(WorstRowOf, GroupBy(RatedOf, Selected(RatedAtMostThreeHalfAndPriced, rs, ms)))
  }

  function WorstTen(rs: seq<Restaurant>, ms: seq<MenuItem>): seq<WorstRow> {
    Limit(SortBy(ByRatioDesc, WorstCandidates(rs, ms)), 10)
  }

  /**
   * Each worst-ten row has a priced average (every one of its items has a
   * price), a rating of at most 3.5, and a ratio that is NULL exactly when the
   * rating is 0 and is otherwise the rounded average-to-rating ratio.
   */
  lemma WorstCandidatesSpec(rs: seq<Restaurant>, ms: seq<MenuItem>)
    ensures DistinctBy(WorstWho, WorstCandidates(rs, ms))
    ensures forall x :: x in WorstCandidates(rs, ms) ==>
      var items := Members(RatedOf, Selected(RatedAtMostThreeHalfAndPriced, rs, ms), x.who);
      var avg := Avg(Project(ItemPrice, items));
      && items != []
      && x.who.rating.Some? && x.who.rating.value <= 3.5
      && avg.Some? && x.avgPrice == Round2Opt(avg)
      && (x.ratio.None? <==> x.who.rating.value == 0.0)
      && (x.who.rating.value != 0.0 ==> x.ratio == Round2Opt(Ratio(avg, x.who.rating.value)))
    ensures forall j :: j in Selected(RatedAtMostThreeHalfAndPriced, rs, ms) ==>
      exists x :: x in WorstCandidates(rs, ms) && x.who == RatedOf(j)
  {
    var sel := Selected(RatedAtMostThreeHalfAndPriced, rs, ms);
    AggregateRows(RatedOf, sel, WorstRowOf, WorstWho);
    SelectedMembers(RatedAtMostThreeHalfAndPriced, rs, ms);
    forall x | x in WorstCandidates(rs, ms)
      ensures var items := Members(RatedOf, sel, x.who);
        x.who.rating.Some? && x.who.rating.value <= 3.5 && Avg(Project(ItemPrice, items)).Some?
    {
      var items := Members(RatedOf, sel, x.who);
      MembersSound(RatedOf, sel, x.who);
      assert items[0] in items;
      AvgNullIff(Project(ItemPrice, items));
      assert Project(ItemPrice, items)[0].Some?;
    }
  }

  /** worst_10_restaurants: the ten highest ratios, NULL ratios last. */
  lemma WorstTenSpec(rs: seq<Restaurant>, ms: seq<MenuItem>)
    ensures var cands := WorstCandidates(rs, ms); var out := WorstTen(rs, ms);
      && |out| == (if |cands| <= 10 then |cands| else 10)
      && Sorted(ByRatioDesc, out)
      && DistinctBy(WorstWho, out)
      && (forall x :: x in out ==> x in cands)
      && (forall x, y :: x in out && y in cands && y !in out ==> ByRatioDesc(x, y))
  {
    AggregateTopN(RatedOf, Selected(RatedAtMostThreeHalfAndPriced, rs, ms), WorstRowOf, WorstWho, ByRatioDesc, 10);
  }

  // ------------------------------------------------ veg_vegan_distribution

  datatype VegRow = VegRow(city: Option<string>, veganItems: nat, vegetarianItems: nat)

  /** COUNT(CASE WHEN ... THEN 1 END) counts the members that satisfy the condition. */
  function VegRowOf(g: (Option<string>, seq<JoinedRow>)): VegRow {
    VegRow(g.0, |Filter(IsVegan, g.1)|, |Filter(IsVegetarian, g.1)|)
  }

  function VegCity(x: VegRow): Option<string> {
    x.city
  }

  function VegVeganDistribution(rs: seq<Restaurant>, ms: seq<MenuItem>): seq<VegRow> {
    Project(VegRowOf, GroupBy(JoinedCity, InnerJoin(rs, ms)))
  }

  /**
   * veg_vegan_distribution: one row per city that has any joined item (also
   * when it has no vegan or vegetarian one), counting its vegan and its
   * vegetarian-or-veggie items.
   */
  lemma VegVeganDistributionSpec(rs: seq<Restaurant>, ms: seq<MenuItem>)
    ensures DistinctBy(VegCity, VegVeganDistribution(rs, ms))
    ensures forall x :: x in VegVeganDistribution(rs, ms) ==>
      && Members(JoinedCity, InnerJoin(rs, ms), x.city) != []
      && x.veganItems == multiset(Project(JoinedCity, Selected(IsVegan, rs, ms)))[x.city]
      && x.vegetarianItems == multiset(Project(JoinedCity, Selected(IsVegetarian, rs, ms)))[x.city]
    ensures forall j :: j in InnerJoin(rs, ms) ==>
      exists x :: x in VegVeganDistribution(rs, ms) && x.city == JoinedCity(j)
  {
    var joined := InnerJoin(rs, ms);
    AggregateRows(JoinedCity, joined, VegRowOf, VegCity);
    forall x | x in VegVeganDistribution(rs, ms)
      ensures x.veganItems == multiset(Project(JoinedCity, Selected(IsVegan, rs, ms)))[x.city]
      ensures x.vegetarianItems == multiset(Project(JoinedCity, Selected(IsVegetarian, rs, ms)))[x.city]
    {
      FilterMembers(IsVegan, JoinedCity, joined, x.city);
      MembersCount(JoinedCity, Filter(IsVegan, joined), x.city);
      FilterMembers(IsVegetarian, JoinedCity, joined, x.city);
      MembersCount(JoinedCity, Filter(IsVegetarian, joined), x.city);
    }
  }

  // ---------------------------------------------------- world_hummus_order

  datatype HummusRow = HummusRow(who: NamedIdentity, hummusItems: nat, avgHummusPrice: Option<real>)

  function HummusRowOf(g: (NamedIdentity, seq<JoinedRow>)): HummusRow {
    HummusRow(g.0, |g.1|, RoundedAvgPrice(g.1))
  }

  function HummusWho(x: HummusRow): NamedIdentity {
    x.who
  }

  /** ORDER BY hummus_items DESC, avg_hummus_price ASC (NULLS LAST) */
  predicate ByHummus(a: HummusRow, b: HummusRow) {
    a.hummusItems > b.hummusItems
    || (a.hummusItems == b.hummusItems && AscNullsLast(a.avgHummusPrice, b.avgHummusPrice))
  }

  lemma ByHummusTotal()
    ensures TotalPreorder(ByHummus)
  {
  }

  function HummusCandidates(rs: seq<Restaurant>, ms: seq<MenuItem>): seq<HummusRow> {
    Project(HummusRowOf, GroupBy(NamedOf, Selected(IsHummus, rs, ms)))
  }

  function HummusOrder(rs: seq<Restaurant>, ms: seq<MenuItem>): seq<HummusRow> {
    Limit(SortBy(ByHummus, HummusCandidates(rs, ms)), 3)
  }

  /** Each hummus row counts the restaurant's hummus items and averages their prices. */
  lemma HummusCandidatesSpec(rs: seq<Restaurant>, ms: seq<MenuItem>)
    ensures DistinctBy(HummusWho, HummusCandidates(rs, ms))
    ensures forall x :: x in HummusCandidates(rs, ms) ==>
      var items := Members(NamedOf, Selected(IsHummus, rs, ms), x.who);
      items != [] && x.hummusItems == |items| && x.avgHummusPrice == RoundedAvgPrice(items)
    ensures forall j :: j in Selected(IsHummus, rs, ms) ==>
      exists x :: x in HummusCandidates(rs, ms) && x.who == NamedOf(j)
  {
    AggregateRows(NamedOf, Selected(IsHummus, rs, ms), HummusRowOf, HummusWho);
  }

  /**
   * world_hummus_order: the three restaurants with the most hummus items,
   * cheaper average first among equals; none left out ranks above one kept.
   */
  lemma HummusOrderSpec(rs: seq<Restaurant>, ms: seq<MenuItem>)
    ensures var cands := HummusCandidates(rs, ms); var out := HummusOrder(rs, ms);
      && |out| == (if |cands| <= 3 then |cands| else 3)
      && Sorted(ByHummus, out)
      && DistinctBy(HummusWho, out)
      && (forall x :: x in out ==> x in cands)
      && (forall x, y :: x in out && y in cands && y !in out ==> ByHummus(x, y))
  {
    ByHummusTotal();
    AggregateTopN(NamedOf, Selected(IsHummus, rs, ms), HummusRowOf, HummusWho, ByHummus, 3);
  }
}

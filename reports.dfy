/**
 * The three single-table reports: `price_distribution` over
 * `cleaned_menu_items`, and `restaurants_per_city` and `delivery_dead_zones`
 * over `cleaned_restaurants`. Each is WHERE, GROUP BY, COUNT(*), ORDER BY.
 */
module Reports {
  import opened Wrappers
  import opened Relational
  import opened Aggregates
  import opened Cleaning

  function CityOf(r: Restaurant): Option<string> {
    r.city
  }

  function PriceOf(m: MenuItem): Option<real> {
    m.price
  }

  /** The `city` column of `cleaned_restaurants`. */
  function CityColumn(rs: seq<Restaurant>): seq<Option<string>> {
    Project(CityOf, rs)
  }

  /** The `price` column of `cleaned_menu_items`. */
  function PriceColumn(ms: seq<MenuItem>): seq<Option<real>> {
    Project(PriceOf, ms)
  }

  // --------------------------------------------------- restaurants_per_city

  datatype CityCount = CityCount(city: string, restaurantCount: nat)

  function CityCountOf(g: (string, seq<string>)): CityCount {
    CityCount(g.0, |g.1|)
  }

  function CityCountCity(x: CityCount): string {
    x.city
  }

  function CityCountSize(x: CityCount): nat {
    x.restaurantCount
  }

  /** ORDER BY restaurant_count DESC */
  predicate ByCountDesc(a: CityCount, b: CityCount) {
    a.restaurantCount >= b.restaurantCount
  }

  /** WHERE city IS NOT NULL GROUP BY city, COUNT(*), ORDER BY restaurant_count DESC. */
  function RestaurantsPerCity(rs: seq<Restaurant>): seq<CityCount> {
    SortBy(ByCountDesc, Project(CityCountOf, GroupBy(Id, Present(CityColumn(rs)))))
  }

  lemma ByCountDescTotal()
    ensures TotalPreorder(ByCountDesc)
  {
  }

  /**
   * restaurants_per_city: one row per non-NULL city, in descending count order;
   * a row's count is the number of restaurants in that city, and the counts add
   * up to the number of restaurants whose city is not NULL.
   */
  lemma RestaurantsPerCitySpec(rs: seq<Restaurant>)
    ensures var out := RestaurantsPerCity(rs);
      && Sorted(ByCountDesc, out)
      && DistinctBy(CityCountCity, out)
      && (forall x :: x in out ==>
            x.restaurantCount >= 1 && x.restaurantCount == multiset(CityColumn(rs))[Some(x.city)])
      && (forall r :: r in rs && r.city.Some? ==> exists x :: x in out && x.city == r.city.value)
      && SumOf(CityCountSize, out) == |rs| - multiset(CityColumn(rs))[None]
  {
    var col := CityColumn(rs);
    var ks := Present(col);
    var rows := Project(CityCountOf, GroupBy(Id, ks));
    var out := RestaurantsPerCity(rs);
    CountedRows(Id, ks, CityCountOf, CityCountCity, CityCountSize);
    ByCountDescTotal();
    SortedRows(ByCountDesc, CityCountCity, CityCountSize, rows);
    PresentCounts(col);
    ProjectId(ks);
    forall x | x in out
      ensures x.restaurantCount >= 1 && x.restaurantCount == multiset(col)[Some(x.city)]
    {
      assert x in rows;
      assert multiset(Project(Id, ks))[x.city] == multiset(ks)[x.city];
    }
    forall r | r in rs && r.city.Some? ensures exists x :: x in out && x.city == r.city.value {
      CityCounted(rs, r);
      assert multiset(Project(Id, ks))[r.city.value] > 0;
      var x :| x in rows && x.city == r.city.value;
      assert x in out;
    }
  }

  /** A restaurant's non-NULL city is among the present cities. */
  lemma CityCounted(rs: seq<Restaurant>, r: Restaurant)
    requires r in rs && r.city.Some?
    ensures multiset(Present(CityColumn(rs)))[r.city.value] > 0
  {
    var col := CityColumn(rs);
    var i :| 0 <= i < |rs| && rs[i] == r;
    assert col[i] == r.city;
    PresentCounts(col);
  }

  // ---------------------------------------------------- delivery_dead_zones

  /** A city row of `delivery_dead_zones`; the NULL city forms a group of its own. */
  datatype DeadZone = DeadZone(city: Option<string>, restaurantCount: nat)

  predicate Delivers(r: Restaurant) {
    r.supportsDelivery == Some(true)
  }

  function DeadZoneOf(g: (Option<string>, seq<Restaurant>)): DeadZone {
    DeadZone(g.0, |g.1|)
  }

  function DeadZoneCity(z: DeadZone): Option<string> {
    z.city
  }

  function DeadZoneSize(z: DeadZone): nat {
    z.restaurantCount
  }

  /** HAVING restaurant_count < 3 */
  predicate FewerThanThree(z: DeadZone) {
    z.restaurantCount < 3
  }

  /** ORDER BY restaurant_count */
  predicate ByCountAsc(a: DeadZone, b: DeadZone) {
    a.restaurantCount <= b.restaurantCount
  }

  /** WHERE supports_delivery = 1 GROUP BY city HAVING COUNT(*) < 3 ORDER BY COUNT(*). */
  function DeliveryDeadZones(rs: seq<Restaurant>): seq<DeadZone> {
    SortBy(ByCountAsc, Filter(FewerThanThree, Project(DeadZoneOf, GroupBy(CityOf, Filter(Delivers, rs)))))
  }

  /** Number of delivering restaurants whose city is `c`. */
  function DeliveringIn(rs: seq<Restaurant>, c: Option<string>): nat {
    multiset(Project(CityOf, Filter(Delivers, rs)))[c]
  }

  lemma ByCountAscTotal()
    ensures TotalPreorder(ByCountAsc)
  {
  }

  /**
   * delivery_dead_zones: each row counts the delivering restaurants of its city,
   * that count is 1 or 2, cities are distinct, rows ascend by count, and a city
   * appears exactly when it has one or two delivering restaurants (so a city
   * with three or more is absent).
   */
  lemma DeliveryDeadZonesSpec(rs: seq<Restaurant>)
    ensures var out := DeliveryDeadZones(rs);
      && Sorted(ByCountAsc, out)
      && DistinctBy(DeadZoneCity, out)
      && (forall z :: z in out ==>
            1 <= z.restaurantCount < 3 && z.restaurantCount == DeliveringIn(rs, z.city))
      && (forall c :: (exists z :: z in out && z.city == c) <==> 1 <= DeliveringIn(rs, c) < 3)
  {
    var having := Filter(FewerThanThree, Project(DeadZoneOf, GroupBy(CityOf, Filter(Delivers, rs))));
    DeadZoneHaving(rs);
    ByCountAscTotal();
    SortedRows(ByCountAsc, DeadZoneCity, DeadZoneSize, having);
  }

  /** The HAVING stage of delivery_dead_zones, before ORDER BY. */
  lemma DeadZoneHaving(rs: seq<Restaurant>)
    ensures var having := Filter(FewerThanThree, Project(DeadZoneOf, GroupBy(CityOf, Filter(Delivers, rs))));
      && DistinctBy(DeadZoneCity, having)
      && (forall z :: z in having ==>
            1 <= z.restaurantCount < 3 && z.restaurantCount == DeliveringIn(rs, z.city))
      && (forall c :: (exists z :: z in having && z.city == c) <==> 1 <= DeliveringIn(rs, c) < 3)
  {
    var delivering := Filter(Delivers, rs);
    var rows := Project(DeadZoneOf, GroupBy(CityOf, delivering));
    CountedRows(CityOf, delivering, DeadZoneOf, DeadZoneCity, DeadZoneSize);
    DistinctByFilter(DeadZoneCity, FewerThanThree, rows);
  }


  // ----------------------------------------------------- price_distribution

  datatype PriceBucket = PriceBucket(price: real, itemCount: nat)

  function BucketPrice(b: PriceBucket): real {
    b.price
  }

  function BucketSize(b: PriceBucket): nat {
    b.itemCount
  }

  /** ORDER BY price (the rounded output column) */
  predicate ByPriceAsc(a: PriceBucket, b: PriceBucket) {
    a.price <= b.price
  }

  lemma ByPriceAscTotal()
    ensures TotalPreorder(ByPriceAsc)
  {
  }

  /** As written, a group is one exact price, displayed rounded. */
  function RoundedBucketOf(g: (real, seq<real>)): PriceBucket {
    PriceBucket(Round2(g.0), |g.1|)
  }

  function BucketOf(g: (real, seq<real>)): PriceBucket {
    PriceBucket(g.0, |g.1|)
  }

  /** The output row of a bucket: `ROUND(price, 2) AS price`, with the count kept. */
  function Displayed(b: PriceBucket): PriceBucket {
    PriceBucket(Round2(b.price), b.itemCount)
  }

  /** The non-NULL prices of `cleaned_menu_items` (WHERE price IS NOT NULL). */
  function Prices(ms: seq<MenuItem>): seq<real> {
    Present(PriceColumn(ms))
  }

  /** The groups of `GROUP BY price` before ROUND: one bucket per exact price. */
  function ExactBuckets(ms: seq<MenuItem>): seq<PriceBucket> {
    Project(BucketOf, GroupBy(Id, Prices(ms)))
  }

  /**
   * price_distribution as written: `GROUP BY price` names the table column
   * (an input column wins over the output alias `price`), so groups are exact
   * prices while the output shows ROUND(price, 2).
   */
  function PriceDistributionAsWritten(ms: seq<MenuItem>): seq<PriceBucket> {
    SortBy(ByPriceAsc, Project(RoundedBucketOf, GroupBy(Id, Prices(ms))))
  }

  /**
   * The exact-price buckets: one per distinct non-NULL price, each counting
   * the items with that price, covering every priced item, and together
   * counting every item whose price is not NULL.
   */
  lemma ExactBucketsSpec(ms: seq<MenuItem>)
    ensures var exact := ExactBuckets(ms);
      && DistinctBy(BucketPrice, exact)
      && (forall b :: b in exact ==> 1 <= b.itemCount == multiset(Prices(ms))[b.price])
      && (forall m :: m in ms && m.price.Some? ==> exists b :: b in exact && b.price == m.price.value)
      && SumOf(BucketSize, exact) == |ms| - multiset(PriceColumn(ms))[None]
  {
    var prices := Prices(ms);
    CountedRows(Id, prices, BucketOf, BucketPrice, BucketSize);
    ProjectId(prices);
    PresentCounts(PriceColumn(ms));
    forall m | m in ms && m.price.Some? ensures multiset(prices)[m.price.value] > 0 {
      PricedItemPresent(ms, m);
    }
  }

  /** The displayed rows are the exact-price buckets with their prices rounded. */
  lemma RoundedBucketsDisplayed(gs: seq<(real, seq<real>)>)
    ensures Project(RoundedBucketOf, gs) == Project(Displayed, Project(BucketOf, gs))
  {
    var a := Project(RoundedBucketOf, gs);
    var b := Project(Displayed, Project(BucketOf, gs));
    assert forall i :: 0 <= i < |a| ==> a[i] == b[i];
  }

  /**
   * price_distribution as written: its rows are exactly the exact-price buckets
   * (one per distinct price, with its count) shown with the price rounded,
   * ascending by the shown price, and the counts add up to the number of items
   * whose price is not NULL.
   */
  lemma PriceDistributionAsWrittenSpec(ms: seq<MenuItem>)
    ensures var out := PriceDistributionAsWritten(ms);
      && multiset(out) == multiset(Project(Displayed, ExactBuckets(ms)))
      && Sorted(ByPriceAsc, out)
      && (forall x :: x in out ==> exists b :: b in ExactBuckets(ms) && x == Displayed(b))
      && SumOf(BucketSize, out) == |ms| - multiset(PriceColumn(ms))[None]
  {
    var prices := Prices(ms);
    var gs := GroupBy(Id, prices);
    var rows := Project(RoundedBucketOf, gs);
    var out := SortBy(ByPriceAsc, rows);
    RoundedBucketsDisplayed(gs);
    ByPriceAscTotal();
    SortBySorted(ByPriceAsc, rows);
    forall x | x in out ensures exists b :: b in ExactBuckets(ms) && x == Displayed(b) {
      assert x in multiset(rows);
      var i :| 0 <= i < |rows| && rows[i] == x;
      assert ExactBuckets(ms)[i] in ExactBuckets(ms);
    }
    SumOfSortBy(BucketSize, ByPriceAsc, rows);
    SumOfGroupSizes(BucketSize, RoundedBucketOf, gs);
    GroupBySpec(Id, prices);
    PresentCounts(PriceColumn(ms));
  }

  /** The non-NULL prices, rounded to cents. */
  function RoundedPrices(ms: seq<MenuItem>): seq<real> {
    Project(Round2, Prices(ms))
  }

  /** price_distribution grouped by the rounded price it displays. */
  function PriceDistribution(ms: seq<MenuItem>): seq<PriceBucket> {
    SortBy(ByPriceAsc, Project(BucketOf, GroupBy(Id, RoundedPrices(ms))))
  }

  /**
   * As written, two items whose prices differ but round to the same cent give
   * two rows showing the same price.
   */
  lemma PriceDistributionAsWrittenRepeatsPrice(m1: MenuItem, m2: MenuItem, p: real, q: real)
    requires m1.price == Some(p) && m2.price == Some(q)
    requires p != q && Round2(p) == Round2(q)
    ensures var out := PriceDistributionAsWritten([m1, m2]);
      |out| == 2 && forall x :: x in out ==> x.price == Round2(p) && x.itemCount == 1
  {
    PresentPair(m1, m2, p, q);
    var gs := GroupBy(Id, [p, q]);
    GroupPair(p, q);
    var rows := Project(RoundedBucketOf, gs);
    assert rows == [PriceBucket(Round2(p), 1), PriceBucket(Round2(q), 1)];
    var out := SortBy(ByPriceAsc, rows);
    assert |out| == 2 by { assert |multiset(out)| == 2; }
    forall x | x in out ensures x.price == Round2(p) && x.itemCount == 1 {
      assert x in multiset(rows);
    }
  }

  lemma PresentPair(m1: MenuItem, m2: MenuItem, p: real, q: real)
    requires m1.price == Some(p) && m2.price == Some(q)
    ensures Present(PriceColumn([m1, m2])) == [p, q]
  {
    var col := PriceColumn([m1, m2]);
    assert col == [Some(p), Some(q)];
    assert col[..1] == [Some(p)];
  }

  /** Grouping two different values by themselves gives two singleton groups. */
  lemma GroupPair<K>(p: K, q: K)
    requires p != q
    ensures GroupBy(Id, [p, q]) == [(p, [p]), (q, [q])]
  {
    assert [p, q][..1] == [p];
    assert GroupBy(Id, [p]) == [(p, [p])];
    assert GroupBy(Id, [p, q]) == AddToGroup(GroupBy(Id, [p]), q, q);
  }

  /** Such a pair exists: 1.001 and 1.004 both display as 1.00. */
  lemma SubCentPricesShareARoundedPrice()
    ensures 1.001 != 1.004 && Round2(1.001) == Round2(1.004) == 1.0
  {
    assert (100.1 + 0.5).Floor == 100;
    assert (100.4 + 0.5).Floor == 100;
  }

  /** An item with a price contributes that price to the non-NULL prices. */
  lemma PricedItemPresent(ms: seq<MenuItem>, m: MenuItem)
    requires m in ms && m.price.Some?
    ensures m.price.value in Prices(ms)
  {
    var col := PriceColumn(ms);
    var i :| 0 <= i < |ms| && ms[i] == m;
    assert col[i] == m.price;
    PresentCounts(col);
    assert multiset(col)[Some(m.price.value)] > 0;
  }

  /** An item with a price contributes its rounded price to RoundedPrices. */
  lemma PricedItemRounded(ms: seq<MenuItem>, m: MenuItem)
    requires m in ms && m.price.Some?
    ensures Round2(m.price.value) in RoundedPrices(ms)
  {
    var present := Prices(ms);
    PricedItemPresent(ms, m);
    var j :| 0 <= j < |present| && present[j] == m.price.value;
    assert RoundedPrices(ms)[j] == Round2(m.price.value);
  }

  /**
   * price_distribution: one row per distinct rounded price, ascending; a row
   * counts the items whose price rounds to it; items with a NULL price (which
   * includes every zero or negative raw price) are never counted, and all others are.
   */
  lemma PriceDistributionSpec(ms: seq<MenuItem>)
    ensures var out := PriceDistribution(ms);
      && Sorted(ByPriceAsc, out)
      && DistinctBy(BucketPrice, out)
      && (forall x :: x in out ==> x.itemCount >= 1 && x.itemCount == multiset(RoundedPrices(ms))[x.price])
      && (forall m :: m in ms && m.price.Some? ==> exists x :: x in out && x.price == Round2(m.price.value))
      && SumOf(BucketSize, out) == |ms| - multiset(PriceColumn(ms))[None]
  {
    var col := PriceColumn(ms);
    var ks := RoundedPrices(ms);
    var rows := Project(BucketOf, GroupBy(Id, ks));
    CountedRows(Id, ks, BucketOf, BucketPrice, BucketSize);
    ByPriceAscTotal();
    SortedRows(ByPriceAsc, BucketPrice, BucketSize, rows);
    PresentCounts(col);
    ProjectId(ks);
    forall m | m in ms && m.price.Some? ensures multiset(ks)[Round2(m.price.value)] > 0 {
      PricedItemRounded(ms, m);
    }
  }

}

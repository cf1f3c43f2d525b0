/**
 * The script end to end: the three SQLite tables are cleaned into
 * `cleaned_locations`, `cleaned_restaurants` and `cleaned_menu_items`, and
 * the ten report tables are built from the cleaned ones.
 */
module Pipeline {
  import opened Wrappers
  import opened Relational
  import opened Cleaning
  import opened Reports
  import opened MenuReports

  /** The attached SQLite database: tables `locations`, `restaurants`, `menuItems`. */
  datatype SqliteDatabase = SqliteDatabase(
    locations: seq<RawLocation>, restaurants: seq<RawRestaurant>, menuItems: seq<RawMenuItem>)

  datatype CleanedTables = CleanedTables(
    locations: seq<Location>, restaurants: seq<Restaurant>, menuItems: seq<MenuItem>)

  datatype ReportTables = ReportTables(
    priceDistribution: seq<PriceBucket>,
    restaurantsPerCity: seq<CityCount>,
    topPizza: seq<RatedIdentity>,
    topDessert: seq<DessertRow>,
    kapsalonMap: seq<KapsalonRow>,
    bestValue: seq<BestValueRow>,
    worstTen: seq<WorstRow>,
    deliveryDeadZones: seq<DeadZone>,
    vegVeganDistribution: seq<VegRow>,
    hummusOrder: seq<HummusRow>)

  /** The three CREATE TABLE ... AS SELECT cleaners: one canonical row per raw row. */
  function CleanDatabase(c: Casts, db: SqliteDatabase): (t: CleanedTables)
    ensures |t.locations| == |db.locations|
    ensures |t.restaurants| == |db.restaurants|
    ensures |t.menuItems| == |db.menuItems|
    ensures forall i :: 0 <= i < |t.locations| ==> ValidLocation(t.locations[i])
    ensures forall i :: 0 <= i < |t.restaurants| ==> ValidRestaurant(t.restaurants[i])
    ensures forall i :: 0 <= i < |t.menuItems| ==> ValidMenuItem(t.menuItems[i])
  {
    CleanedTables(
      CleanLocations(c, db.locations),
      CleanRestaurants(c, db.restaurants),
      CleanMenuItems(c, db.menuItems))
  }

  /**
   * The ten report tables, as the script's queries are written; the LIMITs
   * bound the top-N ones. `worst_10` uses the guarded division (a rating of 0
   * gives a NULL ratio), since the unguarded one is undefined there.
   */
  function BuildReports(t: CleanedTables): (out: ReportTables)
    ensures |out.topPizza| <= 10 && |out.topDessert| <= 10 && |out.worstTen| <= 10
    ensures |out.bestValue| <= 15 && |out.hummusOrder| <= 3
  {
    var rs := t.restaurants;
    var ms := t.menuItems;
    ReportTables(
      PriceDistributionAsWritten(ms),
      RestaurantsPerCity(rs),
      TopPizza(rs, ms),
      TopDessert(rs, ms),
      KapsalonMap(rs, ms),
      BestValue(rs, ms),
      WorstTen(rs, ms),
      DeliveryDeadZones(rs),
      VegVeganDistribution(rs, ms),
      HummusOrder(rs, ms))
  }

  function RunPipeline(c: Casts, db: SqliteDatabase): ReportTables {
    BuildReports(CleanDatabase(c, db))
  }

  /** TRY_CAST(price AS DOUBLE) > 0 */
  predicate HasPositivePrice(c: Casts, raw: RawMenuItem) {
    c.toDouble(raw.price).Some? && c.toDouble(raw.price).value > 0.0
  }

  /** The number of raw menu items whose price casts to a positive number. */
  function PositivelyPriced(c: Casts, raws: seq<RawMenuItem>): nat {
    if raws == [] then 0
    else PositivelyPriced(c, raws[..|raws| - 1]) + (if HasPositivePrice(c, raws[|raws| - 1]) then 1 else 0)
  }

  /** Cleaning nulls exactly the prices that do not cast to a positive number. */
  lemma {:induction false} NullPricesCount(c: Casts, raws: seq<RawMenuItem>, ms: seq<MenuItem>)
    requires |ms| == |raws|
    requires forall i :: 0 <= i < |raws| ==> ms[i] == CleanMenuItem(c, raws[i])
    ensures multiset(PriceColumn(ms))[None] + PositivelyPriced(c, raws) == |raws|
  {
    if raws != [] {
      var n := |raws| - 1;
      NullPricesCount(c, raws[..n], ms[..n]);
      assert PriceColumn(ms) == PriceColumn(ms[..n]) + [ms[n].price];
      assert ms[n].price.None? <==> !HasPositivePrice(c, raws[n]);
    }
  }

  /**
   * End to end, the price_distribution counts add up to the number of raw
   * menu items whose price casts to a positive number.
   */
  lemma PriceCountsMatchRawPrices(c: Casts, db: SqliteDatabase)
    ensures SumOf(BucketSize, RunPipeline(c, db).priceDistribution) == PositivelyPriced(c, db.menuItems)
  {
    var ms := CleanDatabase(c, db).menuItems;
    PriceDistributionAsWrittenSpec(ms);
    NullPricesCount(c, db.menuItems, ms);
  }

  /** The same count law holds for price_distribution grouped by the rounded price. */
  lemma IntendedPriceCountsMatchRawPrices(c: Casts, db: SqliteDatabase)
    ensures SumOf(BucketSize, PriceDistribution(CleanDatabase(c, db).menuItems)) == PositivelyPriced(c, db.menuItems)
  {
    var ms := CleanDatabase(c, db).menuItems;
    PriceDistributionSpec(ms);
    NullPricesCount(c, db.menuItems, ms);
  }
}

/**
 * The normalisation layer: the three cleaning queries that turn the raw SQLite
 * tables `locations`, `restaurants` and `menuItems` into `cleaned_locations`,
 * `cleaned_restaurants` and `cleaned_menu_items`. Each maps one raw row to one
 * canonical row; a field that fails to convert, is out of range or is a
 * sentinel becomes NULL and never drops its row.
 */
module Cleaning {
  import opened Wrappers
  import opened Text

  /** A value as SQLite stores it: one of its five storage classes. */
  datatype SqlValue =
    | SqlNull
    | SqlInteger(i: int)
    | SqlReal(r: real)
    | SqlText(t: string)
    | SqlBlob(bytes: seq<bv8>)

  /**
   * DuckDB's TRY_CAST to VARCHAR, DOUBLE and BIGINT. The conversions themselves
   * (number formatting and parsing) belong to DuckDB and are a parameter of the
   * model; a conversion that fails yields NULL.
   */
  datatype Casts = Casts(
    toVarchar: SqlValue -> Option<string>,
    toDouble: SqlValue -> Option<real>,
    toBigint: SqlValue -> Option<int>)

  /**
   * Facts about DuckDB's TRY_CAST that a lemma may assume: NULL casts to NULL,
   * text to itself, BIGINT is 64-bit. NullSlugNullKey, TextSentinelExamples and
   * RatingCountIsBigint use them; every other result holds for any conversion functions.
   */
  ghost predicate SqlCasts(c: Casts) {
    && c.toVarchar(SqlNull) == None
    && c.toDouble(SqlNull) == None
    && c.toBigint(SqlNull) == None
    && (forall t :: c.toVarchar(SqlText(t)) == Some(t))
    && (forall v :: c.toBigint(v).Some? ==> -0x8000_0000_0000_0000 <= c.toBigint(v).value < 0x8000_0000_0000_0000)
  }

  // ------------------------------------------------------------ raw tables

  datatype RawLocation = RawLocation(
    id: SqlValue, postalCode: SqlValue, latitude: SqlValue, longitude: SqlValue, city: SqlValue)

  datatype RawRestaurant = RawRestaurant(
    primarySlug: SqlValue, name: SqlValue, city: SqlValue, supportsDelivery: SqlValue,
    ratings: SqlValue, ratingsNumber: SqlValue, latitude: SqlValue, longitude: SqlValue)

  datatype RawMenuItem = RawMenuItem(
    primarySlug: SqlValue, id: SqlValue, name: SqlValue, price: SqlValue)

  // ------------------------------------------------------ canonical tables

  datatype Location = Location(
    locationId: SqlValue,
    postalCode: Option<string>,
    latitude: Option<real>,
    longitude: Option<real>,
    city: Option<string>)

  /** `supportsDelivery`: Some(true) is the SQL value 1, Some(false) is 0, None is NULL. */
  datatype Restaurant = Restaurant(
    key: Option<string>,
    name: Option<string>,
    city: Option<string>,
    supportsDelivery: Option<bool>,
    rating: Option<real>,
    ratingCount: Option<int>,
    latitude: Option<real>,
    longitude: Option<real>)

  datatype MenuItem = MenuItem(
    key: Option<string>,
    itemId: SqlValue,
    name: Option<string>,
    price: Option<real>)

  // ---------------------------------------------------------- field rules

  /** The placeholder texts that stand for "no value". */
  const Sentinels: set<string> := {"0", ""}

  predicate IsSentinel(v: Option<string>) {
    v.Some? && v.value in Sentinels
  }

  /** CASE WHEN v IN ('0','') THEN NULL ELSE TRIM(v) END: the sentinel test sees the untrimmed text. */
  function TrimmedText(v: Option<string>): Option<string> {
    if v.None? || IsSentinel(v) then None else Some(Trim(v.value))
  }

  /** CASE WHEN v IN ('0','') THEN NULL ELSE LOWER(TRIM(v)) END */
  function LoweredText(v: Option<string>): Option<string> {
    if v.None? || IsSentinel(v) then None else Some(Lower(Trim(v.value)))
  }

  /** LOWER(TRIM(v)) with no sentinel test: the join key. */
  function KeyText(v: Option<string>): Option<string> {
    if v.None? then None else Some(Lower(Trim(v.value)))
  }

  /** CASE WHEN v BETWEEN lo AND hi THEN v ELSE NULL END */
  function Between(v: Option<real>, lo: real, hi: real): (r: Option<real>)
    ensures r.None? || lo <= r.value <= hi
    ensures r.Some? ==> r == v
    ensures v.Some? && lo <= v.value <= hi ==> r == v
  {
    if v.Some? && lo <= v.value <= hi then v else None
  }

  /** CASE WHEN v > 0 THEN v ELSE NULL END, for DOUBLE */
  function PositiveReal(v: Option<real>): (r: Option<real>)
    ensures r.None? || r.value > 0.0
    ensures r.Some? ==> r == v
    ensures v.Some? && v.value > 0.0 ==> r == v
  {
    if v.Some? && v.value > 0.0 then v else None
  }

  /** CASE WHEN v > 0 THEN v ELSE NULL END, for BIGINT */
  function PositiveInt(v: Option<int>): (r: Option<int>)
    ensures r.None? || r.value > 0
    ensures r.Some? ==> r == v
    ensures v.Some? && v.value > 0 ==> r == v
  {
    if v.Some? && v.value > 0 then v else None
  }

  const TrueTokens: set<string> := {"true", "1", "yes", "y"}
  const FalseTokens: set<string> := {"false", "0", "no", "n"}

  /** The closed tri-state classifier of `supportsDelivery`: LOWER of the text, no TRIM. */
  function Delivery(v: Option<string>): Option<bool> {
    if v.Some? && Lower(v.value) in TrueTokens then Some(true)
    else if v.Some? && Lower(v.value) in FalseTokens then Some(false)
    else None
  }

  // -------------------------------------------------------------- cleaners

  /** Canonical-location invariant: coordinates are NULL or in range. */
  ghost predicate ValidLocation(l: Location) {
    && (l.latitude.None? || -90.0 <= l.latitude.value <= 90.0)
    && (l.longitude.None? || -180.0 <= l.longitude.value <= 180.0)
  }

  /** Canonical-restaurant invariant: every validated numeric field is NULL or in its domain. */
  ghost predicate ValidRestaurant(r: Restaurant) {
    && (r.rating.None? || 0.0 <= r.rating.value <= 5.0)
    && (r.ratingCount.None? || r.ratingCount.value > 0)
    && (r.latitude.None? || -90.0 <= r.latitude.value <= 90.0)
    && (r.longitude.None? || -180.0 <= r.longitude.value <= 180.0)
  }

  /** Canonical-menu-item invariant: a price is NULL or positive. */
  ghost predicate ValidMenuItem(m: MenuItem) {
    m.price.None? || m.price.value > 0.0
  }

  /** A canonical text value is already lowercased and trimmed: LOWER and TRIM leave it unchanged. */
  ghost predicate Canonical(v: Option<string>) {
    v.None? || (Lower(v.value) == v.value && Trim(v.value) == v.value)
  }

  /** LOWER(TRIM(s)) is canonical. */
  lemma LowerTrimCanonical(s: string)
    ensures Canonical(Some(Lower(Trim(s))))
  {
    LowerIdempotent(Trim(s));
    LowerTrimCommute(Trim(s));
    TrimIdempotent(s);
  }

  /** LOWER(TRIM(...)) fields, with or without the sentinel test, are canonical. */
  lemma LoweredCanonical(v: Option<string>)
    ensures Canonical(LoweredText(v)) && Canonical(KeyText(v))
  {
    if v.Some? {
      LowerTrimCanonical(v.value);
    }
  }

  /** One row of `cleaned_locations`. */
  function CleanLocation(c: Casts, raw: RawLocation): (l: Location)
    ensures ValidLocation(l)
    ensures l.locationId == raw.id
    ensures Canonical(l.city)
  {
    var city := c.toVarchar(raw.city);
    LoweredCanonical(city);
    Location(
      raw.id,
      TrimmedText(c.toVarchar(raw.postalCode)),
      Between(c.toDouble(raw.latitude), -90.0, 90.0),
      Between(c.toDouble(raw.longitude), -180.0, 180.0),
      LoweredText(city))
  }

  /** One row of `cleaned_restaurants`. */
  function CleanRestaurant(c: Casts, raw: RawRestaurant): (r: Restaurant)
    ensures ValidRestaurant(r)
    ensures r.key.None? <==> c.toVarchar(raw.primarySlug).None?
    ensures Canonical(r.key) && Canonical(r.city)
  {
    var slug := c.toVarchar(raw.primarySlug);
    var city := c.toVarchar(raw.city);
    LoweredCanonical(slug);
    LoweredCanonical(city);
    Restaurant(
      KeyText(slug),
      TrimmedText(c.toVarchar(raw.name)),
      LoweredText(city),
      Delivery(c.toVarchar(raw.supportsDelivery)),
      Between(c.toDouble(raw.ratings), 0.0, 5.0),
      PositiveInt(c.toBigint(raw.ratingsNumber)),
      Between(c.toDouble(raw.latitude), -90.0, 90.0),
      Between(c.toDouble(raw.longitude), -180.0, 180.0))
  }

  /** One row of `cleaned_menu_items`. */
  function CleanMenuItem(c: Casts, raw: RawMenuItem): (m: MenuItem)
    ensures ValidMenuItem(m)
    ensures m.itemId == raw.id
    ensures m.key.None? <==> c.toVarchar(raw.primarySlug).None?
    ensures Canonical(m.key) && Canonical(m.name)
    ensures m.price.Some? <==> c.toDouble(raw.price).Some? && c.toDouble(raw.price).value > 0.0
    ensures m.price.Some? ==> m.price == c.toDouble(raw.price)
  {
    var slug := c.toVarchar(raw.primarySlug);
    var name := c.toVarchar(raw.name);
    LoweredCanonical(slug);
    LoweredCanonical(name);
    MenuItem(
      KeyText(slug),
      raw.id,
      LoweredText(name),
      PositiveReal(c.toDouble(raw.price)))
  }

  /** `cleaned_locations`: no WHERE, so exactly one canonical row per raw row, in order. */
  function CleanLocations(c: Casts, raws: seq<RawLocation>): (ls: seq<Location>)
    ensures |ls| == |raws|
    ensures forall i :: 0 <= i < |raws| ==> ls[i] == CleanLocation(c, raws[i])
  {
    if raws == [] then [] else [CleanLocation(c, raws[0])] + CleanLocations(c, raws[1..])
  }

  /** `cleaned_restaurants`: one canonical row per raw row, in order. */
  function CleanRestaurants(c: Casts, raws: seq<RawRestaurant>): (rs: seq<Restaurant>)
    ensures |rs| == |raws|
    ensures forall i :: 0 <= i < |raws| ==> rs[i] == CleanRestaurant(c, raws[i])
  {
    if raws == [] then [] else [CleanRestaurant(c, raws[0])] + CleanRestaurants(c, raws[1..])
  }

  /** `cleaned_menu_items`: one canonical row per raw row, in order. */
  function CleanMenuItems(c: Casts, raws: seq<RawMenuItem>): (ms: seq<MenuItem>)
    ensures |ms| == |raws|
    ensures forall i :: 0 <= i < |raws| ==> ms[i] == CleanMenuItem(c, raws[i])
  {
    if raws == [] then [] else [CleanMenuItem(c, raws[0])] + CleanMenuItems(c, raws[1..])
  }

  // ------------------------------------------------------ field properties

  /** Coordinates: an in-range value is kept unchanged, anything else (including a failed cast) is NULL. */
  lemma CoordinatesKeptIffInRange(c: Casts, raw: RawLocation, rr: RawRestaurant)
    ensures var v := c.toDouble(raw.latitude);
      CleanLocation(c, raw).latitude == (if v.Some? && -90.0 <= v.value <= 90.0 then v else None)
    ensures var v := c.toDouble(raw.longitude);
      CleanLocation(c, raw).longitude == (if v.Some? && -180.0 <= v.value <= 180.0 then v else None)
    ensures var v := c.toDouble(rr.latitude);
      CleanRestaurant(c, rr).latitude == (if v.Some? && -90.0 <= v.value <= 90.0 then v else None)
    ensures var v := c.toDouble(rr.longitude);
      CleanRestaurant(c, rr).longitude == (if v.Some? && -180.0 <= v.value <= 180.0 then v else None)
  {
  }

  /** The sentinel rule: NULL exactly for a NULL, '0' or '' untrimmed text, otherwise the trimmed text. */
  lemma SentinelRule(v: Option<string>)
    ensures TrimmedText(v).None? <==> v.None? || v.value == "0" || v.value == ""
    ensures LoweredText(v).None? <==> v.None? || v.value == "0" || v.value == ""
    ensures TrimmedText(v).Some? ==> TrimmedText(v).value == Trim(v.value)
    ensures LoweredText(v).Some? ==> LoweredText(v).value == Lower(Trim(v.value))
  {
  }

  /**
   * The sentinel fields of all three tables (postal code, city, restaurant name,
   * item name) follow the sentinel rule; city and item name are also lowercased.
   */
  lemma SentinelFields(c: Casts, loc: RawLocation, r: RawRestaurant, m: RawMenuItem)
    ensures var v := c.toVarchar(loc.postalCode); var out := CleanLocation(c, loc).postalCode;
      (out.None? <==> v.None? || v.value == "0" || v.value == "") && (out.Some? ==> out.value == Trim(v.value))
    ensures var v := c.toVarchar(loc.city); var out := CleanLocation(c, loc).city;
      (out.None? <==> v.None? || v.value == "0" || v.value == "") && (out.Some? ==> out.value == Lower(Trim(v.value)))
    ensures var v := c.toVarchar(r.name); var out := CleanRestaurant(c, r).name;
      (out.None? <==> v.None? || v.value == "0" || v.value == "") && (out.Some? ==> out.value == Trim(v.value))
    ensures var v := c.toVarchar(r.city); var out := CleanRestaurant(c, r).city;
      (out.None? <==> v.None? || v.value == "0" || v.value == "") && (out.Some? ==> out.value == Lower(Trim(v.value)))
    ensures var v := c.toVarchar(m.name); var out := CleanMenuItem(c, m).name;
      (out.None? <==> v.None? || v.value == "0" || v.value == "") && (out.Some? ==> out.value == Lower(Trim(v.value)))
  {
    SentinelRule(c.toVarchar(loc.postalCode));
    SentinelRule(c.toVarchar(loc.city));
    SentinelRule(c.toVarchar(r.name));
    SentinelRule(c.toVarchar(r.city));
    SentinelRule(c.toVarchar(m.name));
  }

  /** Because the sentinel test comes before TRIM, padded sentinels survive and blank text becomes '' rather than NULL. */
  lemma SentinelCheckedBeforeTrim(s: string)
    requires s != [] && AllSpaces(s)
    ensures TrimmedText(Some(s)) == Some("")
    ensures LoweredText(Some(s)) == Some("")
    ensures TrimmedText(Some(" 0 ")) == Some("0")
  {
    TrimEmptyIffAllSpaces(s);
    assert s[0] == ' ';
    assert s != "0";
    assert LeadingSpaces(" 0 ") == 1 by {
      assert " 0 "[1..] == "0 ";
    }
    assert " 0 "[1..] == "0 ";
    assert TrailingSpaces("0 ") == 1 by {
      assert "0 "[..1] == "0";
    }
    assert "0 "[..1] == "0";
  }

  /** The two token sets are disjoint, so the order of the two WHEN branches does not matter. */
  lemma TokensDisjoint()
    ensures TrueTokens !! FalseTokens
  {
  }

  /**
   * supports_delivery is a closed tri-state: 1 exactly for the true tokens,
   * 0 exactly for the false tokens, NULL for everything else, a failed cast included.
   */
  lemma DeliveryTriState(v: Option<string>)
    ensures Delivery(v) == Some(true) <==> v.Some? && Lower(v.value) in TrueTokens
    ensures Delivery(v) == Some(false) <==> v.Some? && Lower(v.value) in FalseTokens
    ensures Delivery(v).None? <==> v.None? || (Lower(v.value) !in TrueTokens && Lower(v.value) !in FalseTokens)
  {
    TokensDisjoint();
  }

  /** The `supports_delivery` column of `cleaned_restaurants` follows that tri-state rule. */
  lemma SupportsDeliveryColumn(c: Casts, raw: RawRestaurant)
    ensures var v := c.toVarchar(raw.supportsDelivery); var d := CleanRestaurant(c, raw).supportsDelivery;
      && (d == Some(true) <==> v.Some? && Lower(v.value) in TrueTokens)
      && (d == Some(false) <==> v.Some? && Lower(v.value) in FalseTokens)
      && (d.None? <==> v.None? || (Lower(v.value) !in TrueTokens && Lower(v.value) !in FalseTokens))
  {
    DeliveryTriState(c.toVarchar(raw.supportsDelivery));
  }

  /** The classifier ignores letter case. */
  lemma DeliveryIgnoresCase(s: string)
    ensures Delivery(Some(Lower(s))) == Delivery(Some(s))
  {
    LowerIdempotent(s);
  }

  /** Concrete tokens: upper case is recognised, surrounding spaces are not trimmed. */
  lemma DeliveryExamples()
    ensures Delivery(Some("YES")) == Some(true)
    ensures Delivery(Some("N")) == Some(false)
    ensures Delivery(Some(" yes")) == None
    ensures Delivery(None) == None
  {
    assert Lower("YES") == "yes";
    assert Lower("N") == "n";
    assert Lower(" yes") == " yes";
  }

  /** Rating, rating count and price obey their domains, and an in-domain value is kept as cast. */
  lemma NumericFields(c: Casts, r: RawRestaurant, m: RawMenuItem)
    ensures var v := c.toDouble(r.ratings); var out := CleanRestaurant(c, r).rating;
      out == (if v.Some? && 0.0 <= v.value <= 5.0 then v else None)
    ensures var v := c.toBigint(r.ratingsNumber); var out := CleanRestaurant(c, r).ratingCount;
      out == (if v.Some? && v.value > 0 then v else None)
    ensures var v := c.toDouble(m.price); var out := CleanMenuItem(c, m).price;
      out == (if v.Some? && v.value > 0.0 then v else None)
  {
  }

  /** A raw row whose slug is NULL gets a NULL key, which no join can match. */
  lemma NullSlugNullKey(c: Casts, r: RawRestaurant, m: RawMenuItem)
    requires SqlCasts(c)
    requires r.primarySlug == SqlNull && m.primarySlug == SqlNull
    ensures CleanRestaurant(c, r).key.None? && CleanMenuItem(c, m).key.None?
  {
  }

  /**
   * Under the cast facts, raw text reaches the sentinel test unchanged: a
   * stored '0' postal code becomes NULL, and a stored ' Ghent ' city becomes 'ghent'.
   */
  lemma TextSentinelExamples(c: Casts, l: RawLocation)
    requires SqlCasts(c)
    requires l.postalCode == SqlText("0") && l.city == SqlText(" Ghent ")
    ensures CleanLocation(c, l).postalCode.None?
    ensures CleanLocation(c, l).city == Some("ghent")
  {
    assert c.toVarchar(l.city) == Some(" Ghent ");
    assert Trim(" Ghent ") == "Ghent" by {
      assert LeadingSpaces(" Ghent ") == 1;
      assert TrailingSpaces(" Ghent "[1..]) == 1;
    }
    assert Lower("Ghent") == "ghent";
  }

  /** Under the cast facts, a kept rating_count is a positive 64-bit BIGINT. */
  lemma RatingCountIsBigint(c: Casts, r: RawRestaurant)
    requires SqlCasts(c)
    ensures var n := CleanRestaurant(c, r).ratingCount;
      n.Some? ==> 0 < n.value < 0x8000_0000_0000_0000
  {
  }

  /** Every cleaned table satisfies its canonical invariant. */
  lemma CleanedTablesValid(c: Casts, ls: seq<RawLocation>, rs: seq<RawRestaurant>, ms: seq<RawMenuItem>)
    ensures forall l :: l in CleanLocations(c, ls) ==> ValidLocation(l)
    ensures forall r :: r in CleanRestaurants(c, rs) ==> ValidRestaurant(r)
    ensures forall m :: m in CleanMenuItems(c, ms) ==> ValidMenuItem(m)
  {
  }
}

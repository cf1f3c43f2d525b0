# delivery-market-analysis: the SQL pipeline in Dafny

`pipeline_sql.py` is a batch script. It attaches a SQLite database (tables
`locations`, `restaurants` and `menuItems`) to an in-memory DuckDB. It builds
three cleaned tables, then ten report tables, and exports each report to CSV.
All of its logic is DuckDB SQL. This project models that SQL as pure Dafny
functions over sequences of rows. SQL NULL is `Option.None`.

- `wrappers.dfy` (`Wrappers`): `Option`.
- `text.dfy` (`Text`): `TRIM`, `LOWER` and `LIKE '%p%'` on strings.
- `relational.dfy` (`Relational`): generic relational operations and their laws, all with bag (multiset) semantics.
  - Operations: `WHERE`, column projection, `IS NOT NULL`, `GROUP BY`, `COUNT(*)`, `ORDER BY` and `LIMIT`.
  - Laws: one row per group; a group holds exactly the rows with its key; counts are conserved; the output is sorted and a permutation; `LIMIT` keeps a top prefix.
- `aggregates.dfy` (`Aggregates`): `AVG` over a nullable column, `ROUND(x, 2)` and the price-to-rating division.
  - Also DuckDB's default `NULLS LAST` placement in both `ASC` and `DESC` order.
- `cleaning.dfy` (`Cleaning`): the raw SQLite values, `TRY_CAST`, the three cleaners and their field rules.
- `join.dfy` (`Join`): the inner join on `restaurant_key`, and the `WHERE` predicates on joined rows.
- `reports.dfy` (`Reports`): the single-table reports `price_distribution`, `restaurants_per_city` and `delivery_dead_zones`.
- `menu_reports.dfy` (`MenuReports`): the seven reports over the join.
- `menu_examples.dfy` (`MenuExamples`): concrete inputs for two of those reports.
- `pipeline.dfy` (`Pipeline`): raw database → cleaned tables → the ten report tables.

How SQL and DuckDB behaviour is modelled:
- **Casts.** `TRY_CAST` is DuckDB's own conversion code, so it is a parameter: `Cleaning.Casts` holds three partial conversions (to VARCHAR, DOUBLE and BIGINT). `Cleaning.SqlCasts` collects facts about DuckDB's casts that a lemma may assume: NULL casts to NULL, text casts to itself, and BIGINT is 64-bit. `Cleaning.NullSlugNullKey`, `Cleaning.TextSentinelExamples` and `Cleaning.RatingCountIsBigint` assume them; every other result holds for any conversions.
- **Numbers.** DOUBLE values are exact reals. `ROUND(x, 2)` is `round(x * 100) / 100` with halves rounded away from zero.
- **Text.** `TRIM` removes ASCII spaces. `LOWER` folds `A`–`Z`.
- **Equality and NULL.** `GROUP BY` treats NULL as equal to NULL. A join key equal to NULL matches nothing.
- **Row order.** SQL leaves the order of tied rows unspecified. The model sorts deterministically, and its lemmas state only what SQL guarantees:
  - the rows are sorted;
  - they are the grouped rows;
  - no row cut off by `LIMIT` ranks strictly before a kept row.
- **Row identity.** Joined report rows carry the whole `GROUP BY` tuple, `restaurant_key` included, as `who`.

Two places where the code does something its own text suggests was not meant (see Findings):
- **price_distribution grouping.** The output column is `ROUND(price, 2) AS price`, which suggests that the rounded price was meant to be the group. The code's `GROUP BY price` names the table column, so it groups by the exact price. The pipeline composes the query as written (`Reports.PriceDistributionAsWritten`). The grouping by rounded price is `Reports.PriceDistribution`, with its own lemmas.
- **Rating 0.** The cleaner keeps ratings in [0, 5] (lines 75-78), so a rating of 0 passes `r.rating <= 3.5` (line 249), and `AVG(m.price) / r.rating` (line 244) then divides by zero. The model's division `Aggregates.Ratio` is undefined for a zero divisor, so `MenuReports.WorstTen`, and with it the pipeline, uses the guarded row `MenuReports.WorstRowOf`, whose ratio is NULL for a rating of 0.

## Model

| member | source | states |
|---|---|---|
| Text.TrimShape | pipeline_sql.py:37 | TRIM returns a contiguous slice of its input. Only spaces are removed around it, and the result neither starts nor ends with a space. |
| Text.TrimIdempotent | pipeline_sql.py:37 | TRIM applied twice equals TRIM applied once. |
| Text.TrimEmptyIffAllSpaces | pipeline_sql.py:37 | TRIM yields '' exactly when the input consists only of spaces. |
| Text.Lower | pipeline_sql.py:49 | LOWER keeps the length, leaves no upper-case letter in its result, and keeps every character that is not an upper-case letter in place. |
| Text.LowerIdempotent | pipeline_sql.py:49 | LOWER applied twice equals LOWER applied once. |
| Text.LowerTrimCommute | pipeline_sql.py:61 | LOWER(TRIM(s)) equals TRIM(LOWER(s)). |
| Text.ContainsIff | pipeline_sql.py:151 | LIKE '%p%' holds exactly when p occurs at some position of the text. |
| Relational.Filter | pipeline_sql.py:123 | WHERE returns only input rows that satisfy the predicate, every satisfying row appears, and it never adds rows. Multiplicities are stated by FilterMultiplicity. |
| Relational.FilterMultiplicity | pipeline_sql.py:123 | Bag semantics: a value occurs in the WHERE result as often as in the input when it satisfies the predicate, and not at all otherwise, so duplicates are kept. |
| Relational.Project | pipeline_sql.py:119-121 | A projection emits one output row per input row, each computed from that row. |
| Relational.PresentCounts | pipeline_sql.py:135 | IS NOT NULL keeps every non-NULL value as often as it occurs. Kept plus NULL entries equal the column length. |
| Relational.GroupBySpec | pipeline_sql.py:136 | GROUP BY has distinct keys. A key has a group iff some row has that key. Each group holds exactly the rows with its key. Group sizes add up to the input size. |
| Relational.MembersCount | pipeline_sql.py:133 | COUNT(*) of a group equals the multiplicity of its key in the key column. |
| Relational.FilterMembers | pipeline_sql.py:279-280 | Counting the members of a group that satisfy a condition equals grouping only the rows that satisfy it. |
| Relational.AggregateRows | pipeline_sql.py:152-157 | An aggregate query yields one row per group, with no repeated identity. Each row is computed from exactly its group's members, and every input row's key has a row. |
| Relational.CountedRows | pipeline_sql.py:133-136 | With COUNT(*): each row counts its key's input rows, and that count is at least 1. Every present key has a row, and the counts add up to the input size. |
| Relational.SortBySorted | pipeline_sql.py:137 | ORDER BY yields rows sorted under a total preorder. |
| Relational.SortedRows | pipeline_sql.py:137 | ORDER BY yields the same rows, sorted, with the same count total and no new duplicates. |
| Relational.DistinctByFilter | pipeline_sql.py:270 | HAVING cannot create a repeated group key. |
| Relational.TopN | pipeline_sql.py:158-159 | ORDER BY … LIMIT n returns min(n, rows) rows, sorted, taken from the input bag. No dropped row ranks strictly before a kept one. |
| Relational.AggregateTopN | pipeline_sql.py:152-159 | GROUP BY, then ORDER BY, then LIMIT: returns min(n, groups) rows, sorted, from distinct groups, each one a grouped row. No grouped row left out ranks strictly before a kept one. |
| Aggregates.AvgWithin | pipeline_sql.py:171 | AVG of values that all lie in [lo, hi] also lies in [lo, hi]. |
| Aggregates.AvgNullIff | pipeline_sql.py:171 | AVG is NULL exactly when every entry is NULL. |
| Aggregates.AvgIgnoresNull | pipeline_sql.py:171 | A NULL entry does not change AVG. |
| Aggregates.AvgOfTwo | pipeline_sql.py:220 | AVG of two present values is their midpoint. |
| Aggregates.Round2Error | pipeline_sql.py:120 | ROUND(x, 2) is within half a cent of x. |
| Aggregates.Round2Monotone | pipeline_sql.py:120 | ROUND(x, 2) preserves the order of values. |
| Aggregates.Round2Opt | pipeline_sql.py:171 | ROUND maps NULL to NULL and a value to a value. |
| Aggregates.Ratio | pipeline_sql.py:221 | AVG(price) / rating is defined only for a non-zero rating. It is NULL exactly when the average is. |
| Aggregates.GuardedRatio | pipeline_sql.py:244 | The guarded ratio has a value exactly when there is an average and the rating is not 0. That value times the rating is the average, and for a non-zero rating it is the unguarded ratio. |
| Aggregates.NullsLastStrict | pipeline_sql.py:231 | Distinct values are never tied under the NULLS LAST orders, in either direction. |
| Cleaning.Between | pipeline_sql.py:39-42 | BETWEEN lo AND hi keeps an in-range value unchanged. Anything else, a failed cast included, becomes NULL. |
| Cleaning.PositiveReal | pipeline_sql.py:106-109 | `> 0` keeps a positive value unchanged. Anything else becomes NULL. |
| Cleaning.PositiveInt | pipeline_sql.py:79-82 | `> 0` on BIGINT keeps a positive count unchanged. Anything else becomes NULL. |
| Cleaning.CleanLocation | pipeline_sql.py:31-51 | A cleaned location has in-range or NULL coordinates, the raw id, and a lowercased, trimmed city. |
| Cleaning.CleanRestaurant | pipeline_sql.py:58-91 | A cleaned restaurant satisfies every domain rule. Its key is NULL exactly when the slug's cast fails. Key and city are canonical. |
| Cleaning.CleanMenuItem | pipeline_sql.py:97-110 | A cleaned item has a positive or NULL price. Its price is kept exactly when the cast price is positive. It keeps the raw id, its key is NULL iff the slug cast fails, and key and name are canonical. |
| Cleaning.CleanLocations | pipeline_sql.py:31-51 | cleaned_locations has one row per raw row: row i is the cleaned raw row i. |
| Cleaning.CleanRestaurants | pipeline_sql.py:58-91 | cleaned_restaurants has one row per raw row: row i is the cleaned raw row i. |
| Cleaning.CleanMenuItems | pipeline_sql.py:97-110 | cleaned_menu_items has one row per raw row: row i is the cleaned raw row i. |
| Cleaning.LowerTrimCanonical | pipeline_sql.py:61 | LOWER(TRIM(s)) is a fixpoint of both LOWER and TRIM. |
| Cleaning.CoordinatesKeptIffInRange | pipeline_sql.py:39-46 | In both tables, latitude is the cast value when it is in [-90, 90], and NULL otherwise. Longitude is the same for [-180, 180]. Restaurant coordinates are at lines 83-90. |
| Cleaning.SentinelRule | pipeline_sql.py:35-38 | A text field is NULL iff the untrimmed cast text is NULL, '0' or ''. Otherwise it is the trimmed text, lowercased where LOWER is applied. |
| Cleaning.SentinelFields | pipeline_sql.py:47-50 | Postal code, location city, restaurant name, restaurant city and item name each follow the sentinel rule. The other sites are lines 35-38, 62-69 and 102-105. |
| Cleaning.SentinelCheckedBeforeTrim | pipeline_sql.py:62-65 | Blank text becomes '' rather than NULL, and ' 0 ' becomes '0', because the sentinel test sees the untrimmed text. |
| Cleaning.TokensDisjoint | pipeline_sql.py:71-72 | The true-token and false-token sets are disjoint. |
| Cleaning.DeliveryTriState | pipeline_sql.py:70-74 | supports_delivery is 1 iff the lowercased text is a true token, and 0 iff it is a false token. Otherwise it is NULL, a failed cast included. |
| Cleaning.SupportsDeliveryColumn | pipeline_sql.py:70-74 | The supports_delivery column of a cleaned restaurant is 1, 0 or NULL by the same token rule, applied to the cast of its raw value. |
| Cleaning.DeliveryIgnoresCase | pipeline_sql.py:71-72 | The delivery classification does not depend on letter case. |
| Cleaning.DeliveryExamples | pipeline_sql.py:70-74 | 'YES' gives 1 and 'N' gives 0. ' yes' gives NULL, because the value is not trimmed. A NULL value gives NULL. |
| Cleaning.NumericFields | pipeline_sql.py:75-82 | rating is the cast value when it is in [0, 5], and rating_count when it is > 0; otherwise each is NULL. The same holds for price > 0 at lines 106-109. |
| Cleaning.NullSlugNullKey | pipeline_sql.py:61 | A NULL slug gives a NULL restaurant_key, in both tables. |
| Cleaning.TextSentinelExamples | pipeline_sql.py:35-50 | With text cast to itself, a stored '0' postal code becomes NULL, and a stored ' Ghent ' city becomes 'ghent'. |
| Cleaning.RatingCountIsBigint | pipeline_sql.py:79-82 | With BIGINT casts in 64-bit range, a kept rating_count is positive and below 2^63. |
| Cleaning.CleanedTablesValid | pipeline_sql.py:31-110 | Every row of the three cleaned tables satisfies its table's domain invariant. |
| Join.MatchesCount | pipeline_sql.py:148-150 | The join rows of one restaurant pair it with each item whose key matches, as often as the item occurs. |
| Join.JoinCount | pipeline_sql.py:148-150 | A matching (restaurant, item) pair occurs in the join as often as the product of its multiplicities. A non-matching pair never occurs. |
| Join.JoinMembers | pipeline_sql.py:148-150 | A joined row is a restaurant and an item, both present, with equal non-NULL keys. |
| Join.NullKeyNeverJoins | pipeline_sql.py:150 | No joined row has a NULL restaurant key or a NULL item key. |
| Join.SelectedMembers | pipeline_sql.py:151 | WHERE over the join keeps exactly the matching pairs that satisfy the predicate. |
| Join.NameLikeIff | pipeline_sql.py:298 | item_name LIKE '%p%' holds iff the name is not NULL and p occurs in it. |
| Reports.RestaurantsPerCitySpec | pipeline_sql.py:129-138 | One row per non-NULL city, sorted by count descending. A row counts that city's restaurants, every non-NULL city appears, and the counts add up to the restaurants with a non-NULL city. |
| Reports.DeadZoneHaving | pipeline_sql.py:262-270 | After HAVING, city keys are distinct, each row counts 1 or 2 delivering restaurants of its city, and a city has a row iff it has 1 or 2. |
| Reports.DeliveryDeadZonesSpec | pipeline_sql.py:262-271 | Each row counts the delivering restaurants of its city, and the count is 1 or 2. Cities are distinct and rows ascend by count. A city appears iff it has 1 or 2 delivering restaurants. |
| Reports.ExactBucketsSpec | pipeline_sql.py:123-124 | `GROUP BY price` over the non-NULL prices yields one group per distinct exact price. Each counts the items at that price, every priced item is in one, and the counts add up to the items with a non-NULL price. |
| Reports.PriceDistributionAsWrittenSpec | pipeline_sql.py:117-126 | As written, the rows are exactly the exact-price groups shown with the price rounded, ascending by the shown price. The counts add up to the items with a non-NULL price. |
| Reports.PriceDistributionAsWrittenRepeatsPrice | pipeline_sql.py:117-126 | As written, two distinct prices that round to the same cent give two rows with the same displayed price. |
| Reports.SubCentPricesShareARoundedPrice | pipeline_sql.py:120 | 1.001 and 1.004 both round to 1.00. |
| Reports.PricedItemRounded | pipeline_sql.py:120-123 | An item with a price contributes its rounded price. |
| Reports.PriceDistributionSpec | pipeline_sql.py:117-126 | With the group on the rounded price, rounded prices are distinct and ascending. A row counts the items at that price, every priced item is counted, and the counts add up to the items with a non-NULL price. |
| MenuReports.RoundedAvgPriceNullIff | pipeline_sql.py:171 | ROUND(AVG(m.price), 2) is NULL exactly when no item of the group has a price. |
| MenuReports.GroupItems | pipeline_sql.py:148-157 | A group holds exactly the joined pairs that pass the WHERE clause and carry the group's identity. |
| MenuReports.PizzaCandidatesSpec | pipeline_sql.py:141-157 | A restaurant identity is a candidate exactly when it has a joined item containing "pizza", and it appears once. |
| MenuReports.TopPizzaSpec | pipeline_sql.py:141-160 | top_10_pizza_restaurants returns min(10, candidates) distinct candidates, ordered by rating and then rating count (both descending, NULLS LAST). No candidate left out ranks above a kept one. |
| MenuReports.DessertCandidatesSpec | pipeline_sql.py:163-186 | One row per restaurant with a dessert item (any of the five patterns). It counts those items and holds their rounded average price. |
| MenuReports.TopDessertSpec | pipeline_sql.py:163-188 | top_10_dessert_restaurants returns min(10, rows) distinct rows, best-rated first. No row left out ranks above a kept one. |
| MenuReports.KapsalonMapSpec | pipeline_sql.py:192-211 | One row per restaurant, coordinates included, with a kapsalon item. It counts those items and holds their rounded average price, and every such restaurant appears. |
| MenuReports.BestValueGroupsRated | pipeline_sql.py:221-225 | Every best-value group has a rating of at least 3, so the division at line 221 is defined. |
| MenuReports.BestValueCandidatesSpec | pipeline_sql.py:214-230 | Each row is a restaurant rated 3 or more. It holds the rounded average price and the rounded average-to-rating ratio, NULL exactly when the average is. Every qualifying restaurant has a row. |
| MenuExamples.BestValueExample | pipeline_sql.py:214-233 | A restaurant rated 5 with items priced 5 and 10 yields one row: average 7.5, ratio 1.5. |
| MenuReports.BestValueSpec | pipeline_sql.py:214-233 | best_value_restaurants returns min(15, rows) distinct rows, by ratio ascending with NULLs last. No row left out ranks above a kept one. |
| MenuExamples.WorstTenAsWrittenDividesByZero | pipeline_sql.py:244-249 | A cleaned restaurant rated 0 with a priced item passes the WHERE clause. Its group lies outside the unguarded division's domain. |
| MenuReports.WorstCandidatesSpec | pipeline_sql.py:236-256 | With the division guarded, each row has a non-NULL average and a rating of at most 3.5. Its ratio is NULL iff the rating is 0, and is otherwise the rounded average-to-rating ratio. Every qualifying restaurant has a row. |
| MenuReports.WorstTenSpec | pipeline_sql.py:236-259 | worst_10_restaurants returns min(10, rows) distinct rows, by ratio descending with NULLs last. No row left out ranks above a kept one. |
| MenuReports.VegVeganDistributionSpec | pipeline_sql.py:275-285 | One row per city with any joined item. It counts that city's vegan items and its vegetarian-or-veggie items, and every joined city appears. |
| MenuReports.HummusCandidatesSpec | pipeline_sql.py:288-302 | One row per restaurant with a hummus item. It counts those items and holds their rounded average price. |
| MenuReports.HummusOrderSpec | pipeline_sql.py:288-305 | world_hummus_order returns min(3, rows) distinct rows, by most hummus items and then cheaper average. No row left out ranks above a kept one. |
| Pipeline.CleanDatabase | pipeline_sql.py:31-110 | Each cleaned table has as many rows as its raw table, and every row is valid. |
| Pipeline.BuildReports | pipeline_sql.py:117-305 | Composes the ten report queries as written, price_distribution grouped by the exact price and worst_10 with the guarded division. The top-N reports hold at most 10, 10, 15, 10 and 3 rows. |
| Pipeline.NullPricesCount | pipeline_sql.py:106-109 | Cleaning nulls exactly the prices that do not cast to a positive number. |
| Pipeline.PriceCountsMatchRawPrices | pipeline_sql.py:97-126 | End to end, the price_distribution counts, as written, add up to the raw menu items whose price casts to a positive number. |
| Pipeline.IntendedPriceCountsMatchRawPrices | pipeline_sql.py:97-126 | The same holds when price_distribution groups by the rounded price. |

## Left out

- Connecting to DuckDB, installing and loading the SQLite extension, and `ATTACH` (pipeline_sql.py:17-26): foreign I/O. The attached tables are the parameter `Pipeline.SqliteDatabase`.
- The Windows path constants and `os.makedirs` (pipeline_sql.py:8-11): file-system configuration.
- The CSV `COPY` export loop and the final `print` (pipeline_sql.py:310-330): I/O. The report tables are returned as values.
- Sequential `CREATE TABLE` into the connection's catalog: modelled as function composition in `Pipeline.RunPipeline`.
- Floating-point DOUBLE arithmetic, NaN and infinity: doubles are exact reals, so `AVG`, the ratios and `ROUND` are modelled exactly.
- The exact `TRY_CAST` conversions (number formats, Unicode, DuckDB coercions): they are the parameter `Cleaning.Casts`. Only the properties in `Cleaning.SqlCasts` are assumed of them.
- Unicode `LOWER` and `TRIM`: the model folds ASCII letters and trims ASCII spaces only.
- `supports_delivery` is modelled as a nullable BOOLEAN, and `= 1` as `= true`.
- The exported report tables leave out `restaurant_key`. The model's rows keep the whole `GROUP BY` tuple as `who`, so that distinct groups stay distinguishable.
- MenuReports.KapsalonMapSpec: says nothing about row order, because the query has no ORDER BY.
- MenuReports.VegVeganDistributionSpec: says nothing about row order, because the query has no ORDER BY.
- MenuReports.TopPizzaSpec: fixes no order among tied rows, because SQL leaves it unspecified. The same holds for every other ORDER BY report.
- Pipeline.BuildReports: worst_10_restaurants uses the guarded division, so a restaurant rated 0 gets a NULL ratio. The program's own result there (a DuckDB division by zero) is not modelled. The two outputs can then differ in order as well as in that cell: the model sorts the NULL ratio last, while an IEEE +infinity from the program would sort that restaurant first under `ORDER BY ... DESC`.
- Idempotence of re-running the pipeline: every member is a function, so the same input gives the same output by construction.

## Findings

| source | as written | input that shows it | evidently intended | confidence | as-written member | corrected member |
|---|---|---|---|---|---|---|
| pipeline_sql.py:244, 248-249 | `AVG(m.price) / r.rating` is filtered only by `r.rating <= 3.5`. The cleaner keeps ratings in [0, 5] (line 76), so a rating of exactly 0 is divided by. | A restaurant with `ratings = 0` and one priced menu item with the same slug. | No division by zero: the ratio is NULL for a rating of 0, as with `NULLIF(r.rating, 0)`. | not executed; the division by zero is reachable as proved. What DuckDB then returns (NULL or infinity) depends on its division semantics. | MenuExamples.WorstTenAsWrittenDividesByZero | MenuReports.WorstCandidatesSpec |
| pipeline_sql.py:120, 124 | `GROUP BY price` binds to the input column `price`, not to the output alias `ROUND(price, 2) AS price`. Groups are therefore exact prices shown rounded (`Reports.PriceDistributionAsWritten`). | Two menu items priced 1.001 and 1.004: both rows show 1.00 with count 1. | One row per displayed price (`GROUP BY ROUND(price, 2)`, `Reports.PriceDistribution`). | not executed; medium, because it rests on DuckDB resolving a `GROUP BY` name to the input column before the alias. | Reports.PriceDistributionAsWrittenRepeatsPrice | Reports.PriceDistributionSpec |

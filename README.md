# Corporate-bond trade cleaning and effective spreads, modelled in Dafny

This project models the two stages of the bond-liquidity pipeline that turn raw
TRACE trade reports into weekly effective-spread figures.

**The extractor** is the query in `get_data`. It is a chain of SQL common table
expressions over the trade-report table:
- `base` selects the date window, the bond list, a present price and a positive volume;
- `error_reports` picks cancels, corrections and reversals;
- `originals_to_drop_strict` matches trades to error reports on eight columns;
- `originals_to_drop_fallback` matches reversals on six columns with `DISTINCT ON`;
- `to_remove` and `clean` form the anti-join;
- the `step_*` filters check hours, price, sub-product, sale condition, capacity, agency and trading day;
- the final projection is ordered and capped at 8,000,000 rows.

Each CTE is a function over a sequence of rows, with its membership stated exactly.

**The y-declaration script** then works on those trades:
1. It sorts them and flags riskless-principal (RPT) legs: adjacent offsetting
   buy/sell rows of one (bond, date, volume) group.
2. It clears a flag when the row above is flagged in the same group, then drops
   the flagged rows and assigns each row its sign epsilon.
3. It re-sorts by (bond, datetime) and matches each row with the previous row of
   its bond. A pair needs opposite signs and a gap in (0, 5] minutes. Each pair
   gets a midprice and a spread in basis points.
4. It averages the spreads per (bond, day), then per (bond, Monday week start).
5. It left-joins the weekly pair counts onto the weekly rows and orders the weekly
   table by (week start, bond).

The two sorts of the trade table and of the clean table work in place on arrays.
The RPT flagging, the dropping of flagged rows and the pair matching are loops over
those arrays; each loop is proved equal to a function over sequences. The
aggregations are functions over sequences.

Conventions:
- Dates are day numbers counted from 1970-01-01.
- Times are whole seconds since midnight.
- Prices and volumes are `real`.
- Every multi-column `sort_values` is a stable sort. pandas sorts on several
  columns with a lexicographic (stable) sort. The model writes it as an insertion
  sort, `SortBy`, with an in-place twin, `SortInPlace`.

Modules:

| file | module | models |
|---|---|---|
| ordering.dfy | `Ordering` | multi-column sort keys and their lexicographic order |
| sorting.dfy | `Sorting` | the stable sort, as a function and as an in-place array method |
| tables.dfy | `Tables` | NULL-able columns, `WHERE`, groupby keys, sum and mean |
| calendar.dfy | `Calendar` | day numbers, weekday, ISO day of week, week start, timestamps |
| extraction.dfy | `Extraction` | the CTE chain of `get_data` |
| rpt.dfy | `Rpt` | section 1: RPT declaration |
| spread.dfy | `Spread` | section 2: pair matching, midprice and spread |
| weekly.dfy | `Weekly` | sections 2 to 4: daily and weekly means, pair counts, the join, the final order |
| pipeline.dfy | `Pipeline` | the script end to end, and the hand-over from the extractor |
| scenarios.dfy | `Scenarios` | concrete trade sequences run through the RPT rule and the matcher |

## Behaviour of the code worth knowing

The model follows the code in every case below.

- **RPT declaration is not idempotent.** After a B, S, B run of one group, only the
  first B is dropped. The S and the second B that remain are again an adjacent
  offsetting pair, so a second pass drops the S. See `Scenarios.RptIsNotIdempotent`.
- **The RPT rule has no time window.** Only the pair matching has one: the
  comment and mask at notebooks/data_preprocessing/y_declaration.py:97-102 ask for
  a gap of at most 5 minutes. The RPT conditions at lines 36-52 compare neighbouring
  rows only, so a buy and a sell of one group are flagged even when they are nine
  minutes apart. See `Scenarios.NineMinutesApartIsFlagged`.
- **The RPT group ignores the dealer.** The comments at
  notebooks/data_preprocessing/y_declaration.py:28 and :36 speak of the same dealer,
  but `grp` (line 29) groups by bond, date and volume only. Take a buy of bond X1 at
  100 and a sell at 100.5, three minutes apart, with different dealers. When both
  trades have the same size they share a group, the buy is dropped as an RPT leg and
  no pair results (`Scenarios.X1SameSize`). Only when the sizes differ do they give
  a pair, with midprice 100.25 and about 49.88 bps (`Scenarios.X1DifferentSizes`).
- **Adjacency is table adjacency.** "Next" and "previous" are the neighbouring rows
  of the whole sorted table, not of the group. A trade of another size between a
  buy and a sell keeps them from being flagged
  (`Scenarios.InterleavedSizesAreNotFlagged`).
- **`base` does not require a positive price.** It only requires `rptd_pr IS NOT NULL`.
  Positivity comes later, from `step_price` (`rptd_pr >= 10`).
- **The reversal fallback does not skip trades already matched strictly.** It applies
  to every 'T' trade joined to an 'R' report on the six columns
  (`Extraction.StrictReversalIsFallbackCandidate`).
- **The strict pass removes nothing the error reports do not already remove.** A
  trade matched on all eight columns carries the key of its error report, which is
  already in `to_remove` (`Extraction.StrictAddsNoKeys`). So `to_remove` is exactly
  the error reports' keys and the fallback picks' keys (`Extraction.RemovalKeys`).
  The comment above the strict CTE speaks of a 7-key linkage; the join uses eight
  columns.
- **The `fillna(0)` on `n_pairs` never applies.** Every weekly row comes from a day
  with at least one pair, so every weekly row has at least one pair in its week
  (`Weekly.WeeklySpreadTableExact`).
- **No 2014 trade reaches the output.** `valid_days` is fixed to 2015-01-01 ..
  2016-12-31, so this holds although the extraction window starts on 2014-01-01
  (`Extraction.SurvivorsOk`, `Extraction.GetData`).

## Model

| member | source | states |
|---|---|---|
| `Ordering.KeyLtTotal` | notebooks/data_preprocessing/y_declaration.py:25 | any two sort keys are equal or ordered one way or the other, so a multi-column sort is defined for every table |
| `Ordering.KeyLtTransitive` | notebooks/data_preprocessing/y_declaration.py:25 | the column-by-column order of sort keys is transitive |
| `Ordering.KeyLtIrreflexive` | notebooks/data_preprocessing/y_declaration.py:25 | no key sorts strictly before itself |
| `Ordering.KeyLeTransitive` | notebooks/data_preprocessing/y_declaration.py:25 | the non-decreasing order a sorted table keeps between rows is transitive |
| `Ordering.TextLtTotal` | notebooks/data_preprocessing/data_extraction.py:188 | cusip strings are totally ordered by code point, so ORDER BY cusip_id is defined |
| `Sorting.SortByPermutes` | notebooks/data_preprocessing/y_declaration.py:25 | sorting returns the same multiset of rows: none lost, none invented |
| `Sorting.SortBySorted` | notebooks/data_preprocessing/y_declaration.py:25 | after the sort every earlier row's key is not greater than a later row's |
| `Sorting.SortByOfSorted` | notebooks/data_preprocessing/y_declaration.py:88 | a stable sort of a table already in order changes nothing, ties included |
| `Sorting.SortByKeepsDistinct` | notebooks/data_preprocessing/y_declaration.py:141 | a sort neither merges nor duplicates rows, so keys that were distinct stay distinct |
| `Sorting.SortByMembers` | notebooks/data_preprocessing/y_declaration.py:228 | a row is in the sorted table exactly when it is in the input |
| `Sorting.InsertInPlace` | notebooks/data_preprocessing/y_declaration.py:25 | one in-place insertion step: the prefix becomes the stable insertion of the next row into it, and the rest of the array is untouched |
| `Sorting.SortInPlace` | notebooks/data_preprocessing/y_declaration.py:25 | the array ends up as the stable sort of its old contents: sorted and a permutation of them |
| `Tables.Coalesce` | notebooks/data_preprocessing/data_extraction.py:127 | COALESCE is non-null exactly when one argument is, and is the first non-null argument |
| `Tables.Where` | notebooks/data_preprocessing/data_extraction.py:109-113 | a WHERE keeps exactly the input rows that satisfy the condition and never adds rows |
| `Tables.WhereCounts` | notebooks/data_preprocessing/data_extraction.py:109-113 | a WHERE keeps every copy of a passing row and no copy of a failing row |
| `Tables.WhereWhere` | notebooks/data_preprocessing/data_extraction.py:109-172 | two chained filter CTEs equal one filter by the conjunction of their conditions |
| `Tables.WhereThen` | notebooks/data_preprocessing/data_extraction.py:109-172 | a filter CTE over a filter CTE selects what one filter by any equivalent condition selects |
| `Tables.WhereAgree` | notebooks/data_preprocessing/data_extraction.py:109-172 | conditions that agree on every row select the same rows in the same order |
| `Tables.WhereNone` | notebooks/data_preprocessing/y_declaration.py:196-200 | a condition no row meets selects the empty table |
| `Tables.GroupKeys` | notebooks/data_preprocessing/y_declaration.py:122 | the groupby keys: each key of the table exactly once, and no other key |
| `Tables.MeanBounds` | notebooks/data_preprocessing/y_declaration.py:124 | a group mean lies between any lower and upper bound of the group's values |
| `Tables.MeanBelow` | notebooks/data_preprocessing/y_declaration.py:124 | a group mean of values all below a bound is below it |
| `Tables.MeanNonNegative` | notebooks/data_preprocessing/y_declaration.py:124 | a group mean of non-negative values is non-negative |
| `Calendar.DateConstants` | notebooks/data_preprocessing/data_extraction.py:163 | the day numbers used for 2014-01-01, 2015-01-01 and 2016-12-31 are those of the Gregorian calendar, with 1970-01-01 as day 0 |
| `Calendar.Weekday` | notebooks/data_preprocessing/y_declaration.py:170 | the weekday lies in 0..6 |
| `Calendar.WeekdayAnchors` | notebooks/data_preprocessing/y_declaration.py:170 | the numbering matches the calendar: 1970-01-01 is a Thursday (3), 2015-01-05 a Monday (0), 2015-01-04 a Sunday (6) |
| `Calendar.IsoDow` | notebooks/data_preprocessing/data_extraction.py:171 | the ISO day of week lies in 1..7 and is below 6 exactly on Monday to Friday |
| `Calendar.WeekStart` | notebooks/data_preprocessing/y_declaration.py:168-171 | week_start is a Monday, no later than the date and at most 6 days before it |
| `Calendar.WeekStartUnique` | notebooks/data_preprocessing/y_declaration.py:168-171 | any Monday at most 6 days before a date is that date's week_start |
| `Calendar.SameWeek` | notebooks/data_preprocessing/y_declaration.py:168-171 | two dates share a week_start exactly when the second lies in the Monday-to-Sunday week of the first |
| `Calendar.WeekStartIdempotent` | notebooks/data_preprocessing/y_declaration.py:168-171 | the week start of a week start is itself |
| `Calendar.TimestampOrder` | notebooks/data_preprocessing/y_declaration.py:85-87 | datetimes order trades as (date, time) pairs do, and normalising a datetime gives back its date |
| `Extraction.LinkRefinesReversalGroup` | notebooks/data_preprocessing/data_extraction.py:44-51 | rows equal on the eight link columns are equal on the six fallback columns |
| `Extraction.Base` | notebooks/data_preprocessing/data_extraction.py:22-29 | base holds exactly the trace rows in the date window, in the bond list, with a non-null price and a positive volume |
| `Extraction.ErrorReports` | notebooks/data_preprocessing/data_extraction.py:32-37 | a base row is an error report exactly when trc_st is C, W, R, X or Y or asof_cd is 'R' |
| `Extraction.StrictOriginals` | notebooks/data_preprocessing/data_extraction.py:40-53 | the strict originals are exactly the 'T' base rows equal to some error report on all eight link columns |
| `Extraction.StrictAddsNoKeys` | notebooks/data_preprocessing/data_extraction.py:40-90 | every key the strict originals add to to_remove is already an error report's key |
| `Extraction.FallbackOriginals` | notebooks/data_preprocessing/data_extraction.py:56-73 | every fallback pick is a 'T' base row joined to some 'R' report on the six columns |
| `Extraction.FallbackOnePerGroup` | notebooks/data_preprocessing/data_extraction.py:57-60 | DISTINCT ON keeps at most one row per six-column group |
| `Extraction.FallbackIsEarliest` | notebooks/data_preprocessing/data_extraction.py:71-72 | the row kept for a group has the smallest execution time among the group's candidates |
| `Extraction.FallbackCoversGroups` | notebooks/data_preprocessing/data_extraction.py:56-73 | every group with a candidate gives up a row |
| `Extraction.RemovalKeys` | notebooks/data_preprocessing/data_extraction.py:75-90 | to_remove contains the keys of every error report, strict original and fallback original, and no other key: it is exactly the error reports' keys plus the fallback picks' keys |
| `Extraction.Clean` | notebooks/data_preprocessing/data_extraction.py:93-106 | a row is clean exactly when it is a 'T' base row whose link key is not in to_remove |
| `Extraction.CleanAvoidsRemoved` | notebooks/data_preprocessing/data_extraction.py:93-106 | no clean row shares its link key with an error report or a fallback original, and no clean row is an error report |
| `Extraction.CleanExactly` | notebooks/data_preprocessing/data_extraction.py:75-106 | a row is clean exactly when it is a 'T' base row whose eight-column key matches no error report and no fallback pick |
| `Extraction.StrictReversalIsFallbackCandidate` | notebooks/data_preprocessing/data_extraction.py:40-73 | a 'T' trade matched strictly to an 'R' report is also a candidate of the six-column fallback |
| `Extraction.Filtered` | notebooks/data_preprocessing/data_extraction.py:109-172 | the step chain keeps exactly the clean rows that pass every filter, and never adds rows; it is one WHERE of the conjunction of all filters, so the input order is kept |
| `Extraction.FilterChainIsOneWhere` | notebooks/data_preprocessing/data_extraction.py:109-172 | the eight step CTEs applied one after another select the same rows, in the same order, as one WHERE of all eight conditions |
| `Extraction.CapacityRules` | notebooks/data_preprocessing/data_extraction.py:131-155 | after the capacity steps, two present codes are equal and neither present code is 'A' |
| `Extraction.ProjectAll` | notebooks/data_preprocessing/data_extraction.py:174-187 | the projection maps row for row |
| `Extraction.Take` | notebooks/data_preprocessing/data_extraction.py:189 | LIMIT keeps a prefix of exactly min(n, number of rows) rows |
| `Extraction.TakeKeeps` | notebooks/data_preprocessing/data_extraction.py:188-189 | a LIMIT of an ordered table is ordered and holds only rows of it |
| `Extraction.Survivors` | notebooks/data_preprocessing/data_extraction.py:22-172 | every surviving row has a price, a volume and a capacity code to project |
| `Extraction.SurvivorsOk` | notebooks/data_preprocessing/data_extraction.py:109-187 | every projected survivor is a 'T' trade of the window and bond list, on a 2015-2016 trading weekday, within 08:00-17:15, priced at 10 or more, with positive volume, CORP, with an allowed sale condition and a non-agency capacity |
| `Extraction.OrderedSurvivors` | notebooks/data_preprocessing/data_extraction.py:174-188 | the ordered projection has exactly the survivors' rows, sorted by (cusip, date, time, sequence number) |
| `Extraction.GetData` | notebooks/data_preprocessing/data_extraction.py:160-189 | the output is the first min(n, 8,000,000) ordered survivors, sorted, every row meeting all filters (a 2015-2016 trading weekday among them) and projected from a trace row with capacity COALESCE(buy, sell); all survivors when they fit |
| `Rpt.SortTrades` | notebooks/data_preprocessing/y_declaration.py:25 | the trade table is put in (cusip, date, time, sequence number) order in place, as a permutation |
| `Rpt.DeclareRpt` | notebooks/data_preprocessing/y_declaration.py:29-60 | the is_rpt column is, row by row, flagged (offsetting same-group neighbour above or below) and not suppressed, where suppression reads the flags as they were before the pass |
| `Rpt.Epsilon` | notebooks/data_preprocessing/y_declaration.py:64 | epsilon is +1 exactly for 'S', -1 exactly for 'B', 0 for every other side, so always in {-1, 0, 1} |
| `Rpt.RptFlags` | notebooks/data_preprocessing/y_declaration.py:52-60 | the final is_rpt column has one flag per row |
| `Rpt.KeepUnflagged` | notebooks/data_preprocessing/y_declaration.py:63-64 | the clean table is no longer than the input and every row carries the epsilon of its side |
| `Rpt.DropRpt` | notebooks/data_preprocessing/y_declaration.py:63-64 | the copied clean table is the unflagged rows with their signs, in order |
| `Rpt.KeepUnflaggedExactly` | notebooks/data_preprocessing/y_declaration.py:63 | a signed row is in df_rpt_clean exactly when it is the signed form of a row whose flag is clear |
| `Rpt.KeepUnflaggedSorted` | notebooks/data_preprocessing/y_declaration.py:63 | dropping rows keeps the rest in their order, so the sorted table stays sorted |
| `Rpt.FlagNeedsOffsettingNeighbour` | notebooks/data_preprocessing/y_declaration.py:37-52 | a row is flagged exactly when it is B or S and the row above or below is in its group with the other side; rows with another side, or with no same-group neighbour, never end up flagged |
| `Rpt.RunKeepsOnlyItsHead` | notebooks/data_preprocessing/y_declaration.py:55-60 | in a maximal run of consecutive flagged rows of one group, only the first keeps its flag |
| `Rpt.NoAdjacentDrops` | notebooks/data_preprocessing/y_declaration.py:55-60 | two adjacent rows of one group are never both dropped |
| `Rpt.LastRowKept` | notebooks/data_preprocessing/y_declaration.py:37-60 | the last row of the sorted table is never dropped |
| `Rpt.RptCleanEmptyIff` | notebooks/data_preprocessing/y_declaration.py:37-64 | df_rpt_clean is empty exactly when the trade table is |
| `Spread.Pairs` | notebooks/data_preprocessing/y_declaration.py:115-117 | there are no more pairs than rows |
| `Spread.MatchPairs` | notebooks/data_preprocessing/y_declaration.py:91-117 | the one-row-back pass over the re-sorted table yields exactly the pair table |
| `Spread.PairAtMeans` | notebooks/data_preprocessing/y_declaration.py:91-102 | a valid row has a predecessor of the same bond, both rows are B or S with different sides, and the gap is in (0, 300] seconds; a first row of a bond, or a row with epsilon 0, is never valid |
| `Spread.MidpriceBetween` | notebooks/data_preprocessing/y_declaration.py:105-107 | the midprice lies between the two prices |
| `Spread.SpreadBpsRange` | notebooks/data_preprocessing/y_declaration.py:109-112 | for positive prices spread_bps is non-negative, zero exactly when the prices are equal, and below 20000 |
| `Spread.PairsExactly` | notebooks/data_preprocessing/y_declaration.py:98-117 | a pair is in df_spread_pairs exactly when it is the pair of some valid row |
| `Spread.PairsWellFormed` | notebooks/data_preprocessing/y_declaration.py:105-117 | every pair has a spread in [0, 20000), a positive midprice, and a datetime on its trade date |
| `Spread.PrevOfBond` | notebooks/data_preprocessing/y_declaration.py:91-92 | the per-bond shift finds the nearest earlier row of the same bond, or reports that there is none |
| `Spread.BondRowsContiguous` | notebooks/data_preprocessing/y_declaration.py:88 | in a table ordered by bond, the rows of one bond are contiguous |
| `Spread.GroupShiftIsPreviousRow` | notebooks/data_preprocessing/y_declaration.py:88-92 | in the bond-ordered table, the groupby shift is the previous row when it has the same bond, and missing otherwise |
| `Spread.TradeOrderByInstant` | notebooks/data_preprocessing/y_declaration.py:25 | between rows of one bond, an earlier (date, time) sorts first in the trade order |
| `Spread.TradeOrderGivesBondTimeOrder` | notebooks/data_preprocessing/y_declaration.py:25-88 | a table in (cusip, date, time, sequence number) order is already in (cusip, datetime) order |
| `Spread.ResortIsNoOp` | notebooks/data_preprocessing/y_declaration.py:82-88 | the second sort leaves df_rpt_clean exactly as it was |
| `Weekly.DayRowsMembers` | notebooks/data_preprocessing/y_declaration.py:120-127 | before ordering, the groupby yields a row exactly for each (bond, day) with a pair, holding the mean of that day's spreads |
| `Weekly.DailyRowsExact` | notebooks/data_preprocessing/y_declaration.py:120-141 | a daily row exists exactly for a (bond, day) with at least one pair, and its value is the mean of that day's spreads |
| `Weekly.DailyKeysDistinct` | notebooks/data_preprocessing/y_declaration.py:120-141 | no (bond, day) repeats in daily_spread, and its rows are in (date, bond) order |
| `Weekly.WeekRowsMembers` | notebooks/data_preprocessing/y_declaration.py:173-179 | before ordering, the weekly groupby yields a row exactly for each (bond, week start) of the daily table, holding the mean of its daily averages |
| `Weekly.WeeklyRowsExact` | notebooks/data_preprocessing/y_declaration.py:165-180 | a weekly row exists exactly for a (bond, week start) that some daily row has, and its value is the mean of that week's daily averages |
| `Weekly.WeeklyKeysDistinct` | notebooks/data_preprocessing/y_declaration.py:173-179 | no (bond, week start) appears twice among the weekly rows |
| `Weekly.WeeklyCounts` | notebooks/data_preprocessing/y_declaration.py:196-200 | the groupby size table holds at most one row per (bond, week start) |
| `Weekly.CountOfUnique` | notebooks/data_preprocessing/y_declaration.py:202-206 | with one count row per key, the lookup returns the n_pairs of the row carrying the key |
| `Weekly.WeeklyCountsExact` | notebooks/data_preprocessing/y_declaration.py:191-200 | each count row holds the number of pairs whose datetime falls in its week, at least 1, and count rows exist exactly for weeks with a pair |
| `Weekly.CountOf` | notebooks/data_preprocessing/y_declaration.py:202-206 | the join lookup is missing exactly when no count row has the key, and otherwise returns the n_pairs of a row with that key |
| `Weekly.MergeCounts` | notebooks/data_preprocessing/y_declaration.py:202-212 | given a count table with one row per key (which `WeeklyCounts` proves of weekly_counts), the left join keeps every weekly row once, in order, with its bond, week start and average unchanged, n_pairs equal to the count row with its key, and 0 when no count row has it |
| `Weekly.MergedCountIsPairCount` | notebooks/data_preprocessing/y_declaration.py:196-212 | after the join and fillna, n_pairs is the number of pairs in the row's week, whether or not the key was found |
| `Weekly.WeeklySpreadTableExact` | notebooks/data_preprocessing/y_declaration.py:173-228 | the exported table is sorted by (week start, bond), has no repeated key, each row's average is that of a weekly mean row, and n_pairs is the week's pair count and at least 1 |
| `Weekly.WeeklySpreadTableComplete` | notebooks/data_preprocessing/y_declaration.py:194-228 | every weekly mean row reaches the exported table with its key and average: the left join and the sort lose no row |
| `Weekly.WeeklyAverageRange` | notebooks/data_preprocessing/y_declaration.py:105-180 | every weekly average spread lies in [0, 20000) bps |
| `Pipeline.SpreadInputPricesPositive` | notebooks/data_preprocessing/y_declaration.py:25-88 | sorting, dropping RPT rows and re-sorting keep every price positive |
| `Pipeline.SecondSortChangesNothing` | notebooks/data_preprocessing/y_declaration.py:82-117 | the pairs can be read straight off the RPT-clean table of the first sort |
| `Pipeline.DeclareSpreads` | notebooks/data_preprocessing/y_declaration.py:25-232 | running sections 1 to 4 leaves the trades sorted and yields the pairs `SpreadPairs` defines; on an empty trade table it stops with the division by zero of line 129, otherwise it exports the tables `DailySpread` and `WeeklySpreadTable` define |
| `Pipeline.ExtractedTradesFeedSpreads` | notebooks/data_preprocessing/data_extraction.py:114-118 | the extractor's trades all have positive prices, and every weekly row computed from them has an average in [0, 20000) and at least one pair |
| `Scenarios.X1DifferentSizes` | notebooks/data_preprocessing/y_declaration.py:29-117 | a buy at 100 and a sell at 100.5 of different sizes are both kept and give one pair, midprice 100.25, spread 5000/100.25 bps, between 49.87 and 49.88 |
| `Scenarios.X1SameSize` | notebooks/data_preprocessing/y_declaration.py:29-117 | the same buy and sell with equal sizes: the buy is dropped as an RPT leg and no pair results |
| `Scenarios.NineMinutesApartIsFlagged` | notebooks/data_preprocessing/y_declaration.py:37-60 | a same-group buy and sell nine minutes apart are flagged: the buy is dropped |
| `Scenarios.BsbDropsOnlyTheFirstBuy` | notebooks/data_preprocessing/y_declaration.py:52-64 | for B, S, B of one group, only the first B is dropped |
| `Scenarios.RptIsNotIdempotent` | notebooks/data_preprocessing/y_declaration.py:37-64 | a second RPT pass over the B, S, B result flags and drops the S |
| `Scenarios.InterleavedSizesAreNotFlagged` | notebooks/data_preprocessing/y_declaration.py:37-52 | a same-group buy and sell separated by a trade of another size are not flagged |

## Left out

- Database access is not modelled. The extractor's query input is a sequence of
  trade-report rows. The bond list from `get_bonds` (bond_utils.py, not part of
  this model) is a parameter, and so is the trading calendar read from the CRSP
  daily index.
- CSV reads and writes, progress messages, the histogram, and `describe()` are I/O
  and are not modelled.
- The diagnostic count of weeks at the minimum spread
  (notebooks/data_preprocessing/y_declaration.py:243-250) is not modelled. It
  reports a figure, and nothing downstream reads it. When the weekly table is empty
  (trades, but no valid pair), line 250 divides by its size and raises
  ZeroDivisionError after both files are written; that error is not modelled.
- Floating point is not modelled. Prices, volumes, midprices and spreads are exact
  reals, and `astype(int)`/`int8` conversions of small integers are identities.
- `pd.to_numeric(..., errors='coerce')` on volumes is not modelled. Volumes arrive
  as numbers: `base` requires a positive volume, so no NaN can occur. NaN volumes
  are not modelled.
- Columns other than price and volume are not NULL-able in the model, except
  `asof_cd`, `sale_cndtn_cd` and the capacity codes, which are `Option`. A NULL
  cusip, side or dealer id would fail the SQL equality joins; the model does not
  cover that case.
- Ties in `DISTINCT ON ... ORDER BY` are resolved by input order. The SQL leaves
  the choice among rows with equal `trd_exctn_tm` to the database.
- Ties in the final `ORDER BY` keep their input order for the same reason.
- Text is ordered by code point, as Python orders strings. A database collation
  other than byte order is not modelled.
- `Pipeline.DeclareSpreads` requires every trade to have a positive price.
  Otherwise a midprice could be zero and the spread undefined.
  `Pipeline.ExtractedTradesFeedSpreads` shows that the extractor's output always
  meets this requirement (price ≥ 10).
- `Spread.Pairs`: its own contract only bounds the number of pairs. What the pairs
  are is stated by `Spread.PairsExactly` and `Spread.PairsWellFormed`.
- `Rpt.RptFlags`: its own contract gives only the length. The meaning of each flag
  is stated by `Rpt.DeclareRpt` and the lemmas about `IsRpt`.
- `Weekly.MergeCounts`: models the left join only for a count table with one row
  per key, the case in which a left join emits each left row once. A right table
  with repeated keys, for which pandas would repeat the left row, is not modelled;
  weekly_counts never has one (`Weekly.WeeklyCounts`).

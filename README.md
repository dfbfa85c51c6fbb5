# eve-market-stats core, modelled in Dafny

This project models the computational core of eve-market-stats. That repository's scripts read EVE Online market snapshots and turn them into several outputs:

- price-history records;
- station quality statistics;
- restocking suggestions.

A snapshot is an "orderset": a gzip-compressed, tab-separated dump of every open market order. Each order carries a batch id.

The model covers six pieces of the Python code. Each Dafny module corresponds to one Python file.

- `Lib` (`lib.py`):
  - decoding of orderset rows into `Order` records;
  - the inert terminator record appended after the last row;
  - the `OrdersetInfo` accumulator. `read_orderset_filter` feeds it: the batch id is fixed once, and the date is a running maximum. It is a class with an `Observe` method.
- `PriceLib` (`price_lib.py`, duplicated in `market_filler.py`): the two price-history queries of `get_pricing`.
  - Both are pure functions over the rows of the `PriceHistory` table.
  - The first is the exact (TypeID, Date) lookup.
  - The second is the fair price: the average over days of the daily minimum sell price at the three hub stations.
- `TradeLib` (`trade_lib.py`):
  - basket parsing with its `max_items` limit and fatal parse errors;
  - the minimum-order rules file;
  - first-prefix-match rule lookup.
- `MarketFiller` (`market_filler.py`):
  - the `ItemModel` with its three price thresholds (`pick_prices`);
  - the stock aggregation of `process_orderset`: volume below each threshold per item and station, and the lowest sell per item;
  - the minimum-order table;
  - the integer quantity logic and source-station choice of `suggest_stock`, whose notes are appended to the model's list through an alias;
  - the ordering key of the output.
- `CalcMarketQuality` (`calc_market_quality.py`):
  - `weighted_mean`;
  - basket parsing;
  - the station state machine of `get_station_stats`, which flushes per-item efficiencies and yields per-station lists;
  - the coverage and inefficiency arithmetic of `emit_station_stats`.
- `MarketHistory` (`add_orderset_to_market_history.py`): the streaming group-by of `load`.
  - It keeps max buy, min sell and the sell volume with the 1% band.
  - The flush test comes before the station filter.

Two shared modules support them. `Wrappers` holds `Option`, `Result`, `Failure` (the Python exceptions) and `Yielded`, which records what a generator yielded and the exception that ended it. `Tokens` covers the subset of `int()`, `float()` and `str.rstrip('Z')` the code relies on.

The code is modelled in the form it has:

- Loops that update local variables or objects are Dafny methods with loop invariants: `ReadOrdersetFilter`, `ProcessOrderset`, `ScanStations`, `GetStationStats`, `Load`, `GetMostTradedItems` and `GetMinOrderRules`.
- Each such method is proved equal to a tail-first fold (`BatchFrom`/`DateFrom`, `StockOf`/`LowestOf`, `Scan`, `StatsFrom`, `LoadFrom`).
- The properties the code promises are lemmas about those folds.
- Expression-only code becomes functions.

Points of the code's behaviour that the model follows closely:

- The suggestion logic is `suggest_stock`. It has a fixed 1/25 stock fraction and rounds up to a multiple of the minimum order. It has no competitor discount, build cost or order adjustment.
- The orderset columns are those unpacked at `lib.py:98`: Volume in column 4, Price in 7, StationID in 8 and the batch id in 12.
- `get_order_size` takes the first matching prefix in file order, not the longest.
- The fair-price window has no upper bound.
- The lowest-sell station is tried first, with its price compared against quantities. Only then are the stations scanned in stock order.

## Model

| member | source | states |
|---|---|---|
| `Lib.DecodeRow` | lib.py:96-100 | A row decodes exactly when it has 13 columns and each converted cell converts. TypeID, date, IsBuy, Volume, Price, StationID and batch id come from columns 1, 2, 3, 4, 7, 8 and 12. IsBuy is true only for the literal "True". The date is decoded after trailing Z characters are stripped. |
| `Lib.ReadOrdersetShape` | lib.py:93-101 | read_orderset yields one record per row, in row order, each equal to that row decoded. Without a bad row it ends with exactly one terminator (TypeID 0, StationID 0, not a buy, price 0, volume 0, no date, batch 0). Otherwise it stops at the first bad row with a ValueError. |
| `Lib.OrdersetInfo.constructor` | lib.py:13-16 | A fresh accumulator holds neither a batch id nor a date. |
| `Lib.OrdersetInfo.Observe` | lib.py:107-109 | It checks the assertion (no id held, the same id, or id 0). A positive id replaces the one held. The date becomes the later of the two. A failed assertion changes nothing. A held id is never changed, and a held date never decreases. |
| `Lib.FirstConflict` | lib.py:107 | The index of the first record whose batch id fails the assertion, given the ids held before it; every earlier record passes. |
| `Lib.FilterOf` | lib.py:103-109 | read_orderset_filter yields a prefix of read_orderset's orders, terminator included. Every yielded order before the last passed the assertion. A failure of its own is the failed assertion of the last order yielded. Without a failure it yields the whole stream. |
| `Lib.ReadOrdersetFilter` | lib.py:103-109 | The loop yields each order before feeding it to the accumulator. Its output is FilterOf. The accumulator ends with the batch id and date the orders before the first failed assertion leave in it. |
| `Lib.DateFromIsLatest` | lib.py:109 | Starting empty, the date is None exactly when no order has a date. Otherwise it is the latest date of any order, and one order has that date. |
| `Lib.DateUntouchedByUndated` | lib.py:101-109 | An order without a date, such as the terminator, does not change a held date. |
| `Lib.DateFromKeepsSome` | lib.py:109 | Once a date is held it stays held, and it never decreases over a pass. |
| `Lib.BatchFromHoldsPositive` | lib.py:108 | The held id is always positive. Once held, an id stays held. No id is held exactly when none was held at the start and no record carried a positive id. |
| `Lib.NoConflictMeansOneBatch` | lib.py:107-108 | In a pass with no failed assertion, every positive batch id equals the id held at the end. |
| `Tokens.StripTrailingZ` | lib.py:99 | The result is a prefix of the token that does not end in Z, and everything removed was a Z. |
| `Tokens.ParseInt` | lib.py:100 | int() accepts a token exactly when it is an optional sign followed by at least one digit. |
| `Tokens.ParseIntFormatInt` | trade_lib.py:19 | int() reads back the decimal rendering of every integer. |
| `Tokens.ParseDecimalExtendsParseInt` | trade_lib.py:9-12 | float() accepts every token int() accepts, with the same value. |
| `TradeLib.ParseFloat` | trade_lib.py:9-12 | "-" is None. Any other token is float() of it, and float()'s ValueError is an error. |
| `TradeLib.ParseItem` | trade_lib.py:18-21 | A basket row converts exactly when ID, GroupID and CategoryID are ints, Value Traded is a float, and Name and MarketGroup are present. The converted fields are those cells. |
| `TradeLib.YieldLimit` | trade_lib.py:22-23 | With max_items None or 0 every row is read. With a positive limit, at most that many rows are read. With a negative one, the first row ends the generator. |
| `TradeLib.GetMostTradedItems` | trade_lib.py:14-23 | It yields the rows in file order, converted, up to the limit. It fails with a RuntimeError exactly when one of those rows does not convert, and then it has yielded precisely the rows before that one. |
| `TradeLib.ParseRule` | trade_lib.py:32-34 | A rule line converts exactly when it has at least three cells and cells 1 and 2 are ints; further cells are ignored. The rule is (Prefix, NormalMarketSize, MinOrderSize) of those cells. |
| `TradeLib.GetMinOrderRules` | trade_lib.py:25-35 | The rules are the lines in file order, one each. The first line that does not convert is a RuntimeError, and all lines before it converted. |
| `TradeLib.GetOrderSize` | trade_lib.py:37-43 | It returns the first rule in file order whose prefix starts the item's market group, and no earlier rule matches. When none matches it raises a RuntimeError; there is no default. A rule with an empty prefix always matches. |
| `PriceLib.OtherStationsSpec` | price_lib.py:13-18 | other_stations has a key exactly for each station with a row for (type_id, date). Its value is (Sell, SellVolume) of the last such row; Buy is dropped. |
| `PriceLib.GetPricing` | price_lib.py:11-26 | other_stations has a key exactly for each station with a row for the item on the query date. fair_price is NULL exactly when no hub row after the window start has a non-NULL Sell, and otherwise lies between the smallest and the largest daily minimum. |
| `PriceLib.DailyMinSpec` | price_lib.py:20-24 | A day's MIN(Sell) exists exactly when the day has a row for the item at a hub station, after the window start, with a non-NULL Sell. It is the least such Sell, and some row has it. |
| `PriceLib.PricedDaysSpec` | price_lib.py:20-24 | GROUP BY Date lists each day with a priced row once, and no other day. |
| `PriceLib.FairPriceNoneIff` | price_lib.py:19-25 | The fair price is NULL exactly when no row of the window for a hub station has a non-NULL Sell. |
| `PriceLib.FairPriceBetweenDailyMins` | price_lib.py:20-25 | A fair price lies between the smallest and the largest daily minimum. |
| `PriceLib.RepeatedRowCountsOnce` | price_lib.py:20-24 | Each day counts once: repeating a row changes no daily minimum and not the fair price. |
| `PriceLib.LaterRowStillCounts` | price_lib.py:22 | The window has no upper bound. A priced hub row dated after the query date gives a fair price. |
| `MarketFiller.ItemModel.constructor` | market_filler.py:42-48 | A model holds its item and thresholds, and its notes list starts empty. |
| `MarketFiller.PickPrices` | market_filler.py:50-65 | None exactly when there is no fair price f. Otherwise a fresh model with buy = 1.01f, newSell = 1.2f and sell = 1.22f, so buy < newSell < sell when f > 0. |
| `MarketFiller.GuessMinOrder` | market_filler.py:94-102 | The minimum order is 20 for charges of groups 86, 374 and 375, and 2000 for other charges. It is 10 for fighters and 1 otherwise, so always at least 1. |
| `MarketFiller.ItemOrderKeyIsTotalPreorder` | market_filler.py:162-163 | The key that the sort at market_filler.py:198 uses orders any two items, transitively. Items with equal keys share category and group. |
| `MarketFiller.AddAt` | market_filler.py:84-86 | Adding to a station's entry creates it as [0, 0] when missing, adds to both counters, and leaves every other station's entry alone. |
| `MarketFiller.ProcessOrderset` | market_filler.py:73-92 | The loop's result is the stock and lowest-sell folds over read_orderset's orders, terminator included. A row that does not decode aborts with its ValueError. |
| `MarketFiller.SkippedOrderChangesNothing` | market_filler.py:79-81 | An order at an excluded station, of an unmodelled item, or a buy order changes neither map. A kept order above both thresholds leaves the stock map alone. |
| `MarketFiller.StockOfSpec` | market_filler.py:83-86 | stock[t][s] exists exactly when a kept order for (t, s) is priced below either threshold. [0] is the summed volume of those strictly below buy, and [1] of those strictly below sell, so one order can count in both. |
| `MarketFiller.LowestOfSpec` | market_filler.py:76-88 | lowest_sell[t] exists exactly when a kept order for t was seen. Its price is the minimum kept price, capped by the 1e99 default. Below the default, its station is that of the first order at that minimum. |
| `MarketFiller.StockKeysHaveLowest` | market_filler.py:83-88 | Every item in the stock map has a lowest_sell entry, so the lookup at market_filler.py:194 succeeds. |
| `MarketFiller.SortByBuyStockSpec` | market_filler.py:132 | The scan order is sorted by descending buy-side stock. It is a permutation of the entries and stable among equal stocks. |
| `MarketFiller.ExistingStock` | market_filler.py:113 | The destination's [1] stock, or 0 when the destination has no entry. |
| `MarketFiller.StockTarget` | market_filler.py:109-114 | The target is max(0, floor(floor(ValueTraded / buy) / 25) − existing). |
| `MarketFiller.RoundUp` | market_filler.py:123 | The rounded quantity is the least multiple of the minimum order that is at least q. |
| `MarketFiller.MinOf2` | market_filler.py:129 | min of two values, which is one of them and at most both. |
| `MarketFiller.Finish` | market_filler.py:145-148 | The returned row has the value newSell × quantity and the station's name only for a truthy station; otherwise the value is 0 and the name "-". The name lookup of an unknown truthy station raises. |
| `MarketFiller.ScanStations` | market_filler.py:132-142 | The loop over the sorted stations equals Scan. It appends exactly Scan's notes to the model's list and reports the chosen station's name lookup. |
| `MarketFiller.ScanSpec` | market_filler.py:132-142 | The scan picks the first allowed station with enough buy-side stock, capping the quantity at that stock. Every allowed station before it fell short. Without one the quantity is kept. An unnamed station that falls short raises. |
| `MarketFiller.ChooseBelowHalfMinOrder` | market_filler.py:118-119 | Below half a minimum order the quantity is the target, with no station and the "already in stock" note. |
| `MarketFiller.ChooseFromStation` | market_filler.py:123-142 | A chosen station is allowed. Its quantity lies between 0 and the rounded target. Either the lowest-sell station qualifies and is chosen with a quantity at most its price, or the quantity is bounded by the stock of the allowed qualifying station with the most buy-side stock. |
| `MarketFiller.ChooseLowestFirst` | market_filler.py:125-129 | When the lowest-sell station is allowed and its price exceeds the minimum order and half the rounded target, it is chosen, at the smaller of its price and the rounded target, whatever the other stations hold. Only the "some stock" note is added, and nothing fails. |
| `MarketFiller.FirstQualifyingIsLargest` | market_filler.py:132-142 | In the sorted list, the first allowed qualifying station has the most buy-side stock of all allowed qualifying stations. |
| `MarketFiller.ChooseWithoutStation` | market_filler.py:118-142 | Without a station, the quantity is the target when below half a minimum order. Otherwise it is the rounded target, and neither the lowest-sell station nor any allowed station qualified. |
| `MarketFiller.ChooseFailure` | market_filler.py:134-138 | The choice fails only on an allowed station without a name, which the scan reached. |
| `MarketFiller.ChooseFromAllowed` | market_filler.py:126-141 | Any chosen station is in the allowed set. |
| `MarketFiller.SuggestSpec` | market_filler.py:104-148 | suggest_stock raises ZeroDivisionError exactly when buy is 0, before any note. Its only other failure is an allowed station without a name. A row carries the item, its thresholds, the model's notes with the new ones appended, and the chosen quantity and station. The value and name depend on the station being truthy. |
| `MarketFiller.SuggestStock` | market_filler.py:104-148 | The method returns Suggest's result and appends exactly Suggest's notes to the model's own list, even when it then raises. |
| `MarketFiller.BuildRow` | market_filler.py:145-147 | The return statement builds the row Finish describes. |
| `CalcMarketQuality.ParseItem` | calc_market_quality.py:23-33 | A basket row converts exactly when its int and float cells convert and Buy and Sell are "-" or numbers. "-" becomes None. |
| `CalcMarketQuality.GetMostTradedItems` | calc_market_quality.py:28-34 | It yields every row in order, converted. It raises a RuntimeError exactly when a row does not convert, after yielding all rows before it. |
| `CalcMarketQuality.WeightedMean` | calc_market_quality.py:20-21 | sum(w·v)/sum(w). It raises ZeroDivisionError exactly when the weights sum to 0, including the empty list. |
| `CalcMarketQuality.WeightedMeanSolves` | calc_market_quality.py:21 | The mean times the total weight is the weighted sum. |
| `CalcMarketQuality.WeightedMeanOfEqualWeights` | calc_market_quality.py:20-21 | With one common nonzero weight, the weighted mean is the plain mean. |
| `CalcMarketQuality.WeightedMeanWithin` | calc_market_quality.py:20-21 | With positive weights and values in [lo, hi], the mean exists and lies in [lo, hi]. |
| `CalcMarketQuality.WeightedMeanBetween` | calc_market_quality.py:20-21 | With positive weights, the mean lies between the smallest and largest value. |
| `CalcMarketQuality.WeightedMeanExamples` | calc_market_quality_test.py:9-14 | The two unit-test cases give 2 and 2.5. |
| `CalcMarketQuality.Weighted` | calc_market_quality.py:49 | The pairs passed to weighted_mean are (traded value, efficiency) of each entry, in order. |
| `CalcMarketQuality.EmitStationStats` | calc_market_quality.py:36-56 | Coverage is the number of entries over the number of items. Inefficiency is (weighted mean − 1) × 100, or "-" for no entries. The name is "-" for an unknown station. It raises ZeroDivisionError exactly when there are no items or the weights sum to 0. |
| `CalcMarketQuality.InefficiencyBetween` | calc_market_quality.py:48-50 | With positive traded values and efficiencies in [lo, hi], the inefficiency lies in [(lo−1)·100, (hi−1)·100]. |
| `CalcMarketQuality.EmitStationStatsExample` | calc_market_quality_test.py:66-72 | Three of four items at 1.1, 1.3 and 1.2, with weights 5, 1 and 2, give coverage 75% and inefficiency 15%. |
| `CalcMarketQuality.Efficiency` | calc_market_quality.py:68-74 | Efficiency is 1.0 without a market sell price, and otherwise best / market. It raises ZeroDivisionError exactly when the market price is 0. |
| `CalcMarketQuality.Close` | calc_market_quality.py:67-80 | Closing the pending item appends (item, traded value, efficiency) when the efficiency is at most 100, drops it otherwise, and clears the pending item. |
| `CalcMarketQuality.StatsStep` | calc_market_quality.py:67-91 | One order closes the pending item of another TypeID, and raises ZeroDivisionError exactly when that item's market sell price is 0. On a change of station it yields the previous station's list, with the closed item recorded, and starts an empty one. A basket sell order makes its item pending at its own price, or at the held price when the item stays pending and that price is not higher. Any other order leaves the pending item as it is unless it closes it. |
| `CalcMarketQuality.StatsFrom` | calc_market_quality.py:65-91 | The fold over the orders stops at the first ZeroDivisionError. After a pass the current station is the last order's, and a pending item is the last order's TypeID. |
| `CalcMarketQuality.StationStatsBody` | calc_market_quality.py:67-91 | The loop body on the local variables performs exactly one StatsStep. |
| `CalcMarketQuality.StationStatsOutcome` | calc_market_quality.py:59-93 | get_station_stats runs on read_orderset_filter's orders. It ends with a ZeroDivisionError, or as read_orderset_filter ends. |
| `CalcMarketQuality.GetStationStats` | calc_market_quality.py:59-93 | The generator yields StationStatsOutcome. The accumulator ends as the records it observed leave it, since each order is processed before it is observed. |
| `CalcMarketQuality.FailureNeedsZeroPrice` | calc_market_quality.py:74 | A ZeroDivisionError needs a basket item whose market sell price is 0. |
| `CalcMarketQuality.StationsYieldedByRuns` | calc_market_quality.py:82-86 | Each contiguous run of one station is yielded once, in order, when the next run begins. The last run is still current. |
| `CalcMarketQuality.RunHoldsLowest` | calc_market_quality.py:67-91 | After a run of orders of one TypeID that starts a new item, a basket item is pending at the lowest price among the run's sell orders. Nothing is pending when the run has no sell order or its item is not in the basket. |
| `CalcMarketQuality.RunRecordsLowest` | calc_market_quality.py:67-86 | The order after such a run closes it. A ZeroDivisionError is raised exactly when the run held a basket item whose market sell price is 0. Otherwise the entry (item, traded value, lowest sell over market sell) is appended, if at most 100, to the list of the run's last station. That list is yielded when the next order is at another station, and stays current otherwise. |
| `CalcMarketQuality.TerminatorFlushesLastStation` | calc_market_quality.py:92-93 | When item 0 is not in the basket and the last real order is not at station 0, the terminator closes the pending item and yields the last real station's list. The terminator's own station is never yielded. |
| `CalcMarketQuality.EntriesAreSourced` | calc_market_quality.py:67-91 | Every entry comes from a basket item with a sell order in the stream: its efficiency is that order's price over the market's, and its value is the item's. When the item is also closed on a change of station, that order is at the station the entry is listed for. |
| `CalcMarketQuality.StationChangeKeepsPending` | calc_market_quality.py:67 | As written, a station change without a TypeID change keeps the pending item. Station 1 is yielded empty, and station 2 gets an entry priced from station 1's order. |
| `CalcMarketQuality.ClosingPerStationAttributes` | calc_market_quality.py:67-86 | Also closing on a station change gives each station the entry of its own order. |
| `MarketHistory.Update` | add_orderset_to_market_history.py:45-52 | A higher buy replaces the buy. A strictly lower sell replaces the sell and adds its volume. The volume restarts at 0 when there was no sell or the old sell exceeds 1.01× the new one. SellVolume is None exactly when Sell is. |
| `MarketHistory.Step` | add_orderset_to_market_history.py:36-52 | The flush test comes first. A flush yields the current group and clears the prices. An excluded station never changes the group; a kept one becomes the group. |
| `MarketHistory.LoadBody` | add_orderset_to_market_history.py:36-52 | The loop body on the local variables performs exactly one Step. |
| `MarketHistory.Load` | add_orderset_to_market_history.py:28-52 | load yields the fold of Step over read_orderset's orders, terminator included, and ends as read_orderset ends. |
| `MarketHistory.NothingBeforeFirstKeptOrder` | add_orderset_to_market_history.py:29-41 | Before the first order at a summarised station nothing is yielded or held. |
| `MarketHistory.ExcludedStationsStillFlush` | add_orderset_to_market_history.py:36-41 | With a group held, two orders at other excluded stations yield the group and then a record with None prices. The group itself stays. |
| `MarketHistory.MaxBuy` | add_orderset_to_market_history.py:45-47 | The best buy of a group is its highest buy price, or None without buy orders. |
| `MarketHistory.MinSell` | add_orderset_to_market_history.py:49-51 | The best sell of a group is its lowest sell price, or None without sell orders. |
| `MarketHistory.NoSellNoVolume` | add_orderset_to_market_history.py:48-52 | A group without sell orders has no sell volume. |
| `MarketHistory.UpdateSummarises` | add_orderset_to_market_history.py:45-52 | One more order keeps the state a summary of its group: max buy, min sell, and a volume at least the first best-priced order's and at most the group's total. |
| `MarketHistory.GroupIsSummarised` | add_orderset_to_market_history.py:36-52 | Reading a group from its first order yields the previous group, if any, and leaves a summary of this one, with the volume counted as the 1% band prescribes. |
| `MarketHistory.GroupYieldedOnChange` | add_orderset_to_market_history.py:36-52 | A maximal (station, item) group is yielded when the next order differs. The record has the group's max buy and min sell. Its SellVolume is bounded by the group's sell volume and is exactly the summed volume of the orders that set a new lowest price since the last one more than 1% below every earlier sell price. |
| `MarketHistory.UpdateCountsBand` | add_orderset_to_market_history.py:48-52 | One more order keeps the volume exact. A buy, or a sell not strictly below the held price, adds nothing. A new lowest price within 1% of the held one adds its volume. One more than 1% below restarts the count at its volume. |
| `MarketHistory.DeepLowCountsAlone` | add_orderset_to_market_history.py:49-52 | When the order that first offers the lowest price is more than 1% below every earlier sell price, the volume is that order's alone. |
| `MarketHistory.BandExamples` | add_orderset_to_market_history.py:49-52 | Sells at 10.0 (volume 5) then 9.95 (volume 3) hold 8; then 9.0 instead holds 3. |

## Left out

- I/O is left out: gzip, CSV reading and writing, argparse, logging, `main` in every script, and `output`, `emit_item`, `init_db`, `read_filter_file`, `read_industry_items` and the detail dump of `emit_station_stats`. The modelled functions take the decoded rows (`seq<seq<string>>`, or column-to-cell maps for `csv.DictReader`) and return values.
- SQLite is replaced by values. The PriceHistory table is a sequence of rows. `get_station_info` is a map from station id to name, and a missing station is the AttributeError of reading `.Name` from None.
- `datetime.fromisoformat` is a parameter `decodeDate` from token to an ordered timestamp. The "-3 months" date that SQLite computes is the parameter `windowStart`. Dates are compared as integers.
- `int()` and `float()` are modelled only for an optional sign followed by digits, plus an optional fraction for `float()`. Whitespace, underscores, exponents, `inf` and `nan` are not modelled. Prices are exact reals, so float rounding is not modelled.
- In `csv.DictReader`, a short row fills its missing cells with None, and `int(None)` raises TypeError rather than the caught ValueError. A row is a map here, so a missing cell is a missing key: the caught KeyError, which becomes the RuntimeError.
- `_get_min_order_rules` is cached with `@cache`; the cache is not modelled, and the rules are passed to `GetOrderSize`.
- `get_orderset_info` in market_filler.py and the `oinfo` pass in add_orderset_to_market_history.py's `main` are plain runs of `ReadOrdersetFilter`; they are not modelled separately.
- The test against `testdata/orderset2.csv.gz` is not modelled, because that file is not part of this model.
- The sort of suggestions in market_filler.py's `main` is covered only through its key (`ItemOrderKey`, `ItemOrderKeyIsTotalPreorder`). The sort itself is output plumbing.
- `MarketFiller.PickPrices` records no "no fair price available" note. In market_filler.py that note goes onto a model that is discarded when None is returned.
- Two of suggest_stock's own quirks are kept as written rather than left out. `min([lowest_sell[0], stock_quantity])` can make the quantity a price, so quantities are reals. A station id of 0 is falsy, so it gets no value and no name.
- `build_sde.py`, the `esi` client, `industry.py`, `top_market_items.py`, the older `calc-market-quality.py` and the lookup scripts are not part of this model.

## Findings

| source | as written | input that shows it | evidently intended | confidence | as-written member | corrected member |
|---|---|---|---|---|---|---|
| calc_market_quality.py:67 | The pending item is closed only when the TypeID changes. A run of item t at station 1 followed directly by item t at station 2 is never closed for station 1. | Basket item 5 with market sell 10. A sell order for 5 at station 1 priced 10, then one at station 2 priced 20, then the terminator. Station 1 is yielded with no entry, and station 2 gets efficiency 1.0 from station 1's price instead of 2.0. | Close the pending item when the station changes too, so each station's list holds the efficiencies of its own sell orders. | not executed | `CalcMarketQuality.StationChangeKeepsPending` | `CalcMarketQuality.ClosingPerStationAttributes` |

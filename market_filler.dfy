/** market_filler.py: the per-item model with its buy/sell thresholds, the
    stock aggregation over an orderset, and the restocking suggestion. */
module MarketFiller {
  import opened Wrappers
  import opened Lib
  import opened PriceLib
  import opened TradeLib

  /** The threshold-carrying model of one traded item. The thresholds are
      fixed once pick_prices has filled them in; only the notes list grows,
      through the alias suggest_stock takes of it. */
  class ItemModel {
    const trade: ItemSummary
    const buy: real     // the price at which we are willing to buy
    const sell: real    // the price at which we are happy to see this selling
    const newSell: real // the price new sales are listed at
    var notes: seq<Note>

    constructor (trade: ItemSummary, buy: real, sell: real, newSell: real)
      ensures this.trade == trade && this.buy == buy && this.sell == sell && this.newSell == newSell
      ensures notes == []
    {
      this.trade := trade;
      this.buy := buy;
      this.sell := sell;
      this.newSell := newSell;
      notes := [];
    }
  }

  /** The notes suggest_stock appends, with the values it formats into them. */
  datatype Note =
    | AlreadyInStock(volume: int)
    | SomeStock(volume: int)
    | NotAvailableAt(stationName: string, quantity: int)
    | NotInQuantity(stationName: string, want: int, available: int)

  /** pick_prices: None when there is no fair price; otherwise a fresh model
      whose thresholds are 1.01, 1.22 and 1.2 times the fair price. */
  method PickPrices(rows: seq<HistoryRow>, trade: ItemSummary, date: Day, windowStart: Day) returns (m: ItemModel?)
    ensures var fair := GetPricing(rows, trade.id, date, windowStart).fairPrice;
      && (m == null <==> fair.None?)
      && (m != null ==> && fresh(m) && m.trade == trade && m.notes == []
                        && m.buy == fair.value * 1.01 && m.newSell == fair.value * 1.2 && m.sell == fair.value * 1.22
                        && (fair.value > 0.0 ==> m.buy < m.newSell < m.sell))
  {
    var availability := GetPricing(rows, trade.id, date, windowStart);
    if availability.fairPrice.None? {
      return null;
    }
    var f := availability.fairPrice.value;
    m := new ItemModel(trade, f * 1.01, f * 1.22, f * 1.2);
  }

  /** guess_min_order: the order granularity by category and group. */
  function GuessMinOrder(i: ItemSummary): (r: int)
    ensures r >= 1
    ensures i.categoryId == 8 ==> r == if i.groupId in {86, 374, 375} then 20 else 2000
    ensures i.categoryId == 87 ==> r == 10
    ensures i.categoryId != 8 && i.categoryId != 87 ==> r == 1
  {
    if i.categoryId == 8 then
      if i.groupId == 86 || i.groupId == 374 || i.groupId == 375 then 20 else 2000
    else if i.categoryId == 87 then 10
    else 1
  }

  /** item_order_key: suggestions are listed by category, then group. */
  function ItemOrderKey(s: ItemSummary): (int, int)
  {
    (s.categoryId, s.groupId)
  }

  /** Python's ordering of the key tuples. */
  predicate KeyLe(a: (int, int), b: (int, int))
  {
    a.0 < b.0 || (a.0 == b.0 && a.1 <= b.1)
  }

  /** The key orders every pair of items, consistently, so the stable sort
      of the suggestions is well defined. */
  lemma ItemOrderKeyIsTotalPreorder(a: ItemSummary, b: ItemSummary, c: ItemSummary)
    ensures KeyLe(ItemOrderKey(a), ItemOrderKey(b)) || KeyLe(ItemOrderKey(b), ItemOrderKey(a))
    ensures KeyLe(ItemOrderKey(a), ItemOrderKey(b)) && KeyLe(ItemOrderKey(b), ItemOrderKey(c)) ==> KeyLe(ItemOrderKey(a), ItemOrderKey(c))
    ensures KeyLe(ItemOrderKey(a), ItemOrderKey(b)) && KeyLe(ItemOrderKey(b), ItemOrderKey(a)) ==>
              a.categoryId == b.categoryId && a.groupId == b.groupId
  {
  }

  // ---------------------------------------------------------------------
  // process_orderset

  /** One station's entry for an item: the volume on sale below the item's
      buy threshold and below its sell threshold (the `[0]` and `[1]`). */
  datatype StationStock = StationStock(station: int, belowBuy: int, belowSell: int)

  /** An item's lowest sell price seen and the station offering it. */
  datatype Lowest = Lowest(price: real, station: int)

  /** The default of the lowest_sell defaultdict. */
  const NoLowest: Lowest := Lowest(1.0e99, 0)

  /** What process_orderset returns: per item the station entries, in the
      order the stations were first entered, and per item the lowest sell. */
  datatype Aggregate = Aggregate(stock: map<int, seq<StationStock>>, lowest: map<int, Lowest>)

  /** The orders process_orderset does not skip. */
  predicate Kept(o: Order, models: map<int, ItemModel>, stations: set<int>)
  {
    o.stationId in stations && o.typeId in models && !o.isBuy
  }

  /** The entry for a station in an item's list, if there is one. */
  function Lookup(entries: seq<StationStock>, station: int): (r: Option<StationStock>)
    ensures r.Some? ==> r.value.station == station
    ensures r.None? <==> forall i :: 0 <= i < |entries| ==> entries[i].station != station
  {
    if |entries| == 0 then None
    else if entries[0].station == station then Some(entries[0])
    else Lookup(entries[1..], station)
  }

  /** `entries[station][0] += dBuy; entries[station][1] += dSell`, creating the
      entry [0, 0] at the end of the list when the station is new. */
  function AddAt(entries: seq<StationStock>, station: int, dBuy: int, dSell: int): (r: seq<StationStock>)
    ensures Lookup(r, station).Some?
    ensures Lookup(r, station).value.belowBuy == (if Lookup(entries, station).Some? then Lookup(entries, station).value.belowBuy else 0) + dBuy
    ensures Lookup(r, station).value.belowSell == (if Lookup(entries, station).Some? then Lookup(entries, station).value.belowSell else 0) + dSell
    ensures forall s :: s != station ==> Lookup(r, s) == Lookup(entries, s)
  {
    if |entries| == 0 then [StationStock(station, dBuy, dSell)]
    else if entries[0].station == station then
      [StationStock(station, entries[0].belowBuy + dBuy, entries[0].belowSell + dSell)] + entries[1..]
    else
      var rest := AddAt(entries[1..], station, dBuy, dSell);
      assert ([entries[0]] + rest)[1..] == rest;
      [entries[0]] + rest
  }

  /** An item's station list, or the empty list before it has one. */
  function EntriesOf(stock: map<int, seq<StationStock>>, typeId: int): seq<StationStock>
  {
    if typeId in stock then stock[typeId] else []
  }

  /** A kept order enters the stock map when it is priced below either
      threshold. */
  predicate Stocked(o: Order, models: map<int, ItemModel>, stations: set<int>)
  {
    Kept(o, models, stations) && (o.price < models[o.typeId].buy || o.price < models[o.typeId].sell)
  }

  /** The stock map after one more order of the loop. */
  function StepStock(stock: map<int, seq<StationStock>>, o: Order, models: map<int, ItemModel>, stations: set<int>): map<int, seq<StationStock>>
  {
    if !Stocked(o, models, stations) then stock
    else
      var m := models[o.typeId];
      var dBuy := if o.price < m.buy then o.volume else 0;
      var dSell := if o.price < m.sell then o.volume else 0;
      stock[o.typeId := AddAt(EntriesOf(stock, o.typeId), o.stationId, dBuy, dSell)]
  }

  /** The lowest_sell map after one more order of the loop. */
  function StepLowest(lowest: map<int, Lowest>, o: Order, models: map<int, ItemModel>, stations: set<int>): map<int, Lowest>
  {
    if !Kept(o, models, stations) then lowest
    else
      var cur := if o.typeId in lowest then lowest[o.typeId] else NoLowest;
      lowest[o.typeId := if o.price < cur.price then Lowest(o.price, o.stationId) else cur]
  }

  function StockOf(orders: seq<Order>, models: map<int, ItemModel>, stations: set<int>): map<int, seq<StationStock>>
  {
    if |orders| == 0 then map[]
    else StepStock(StockOf(orders[..|orders| - 1], models, stations), orders[|orders| - 1], models, stations)
  }

  function LowestOf(orders: seq<Order>, models: map<int, ItemModel>, stations: set<int>): map<int, Lowest>
  {
    if |orders| == 0 then map[]
    else StepLowest(LowestOf(orders[..|orders| - 1], models, stations), orders[|orders| - 1], models, stations)
  }

  /** process_orderset over the orders read_orderset yields, terminator
      included; a row that does not decode aborts the whole aggregation. */
  method ProcessOrderset(rows: seq<seq<string>>, decodeDate: string -> Option<Timestamp>,
                         models: map<int, ItemModel>, stations: set<int>) returns (r: Result<Aggregate>)
    ensures var stream := ReadOrderset(rows, decodeDate);
      && (r.Err? <==> stream.failure.Some?)
      && (r.Err? ==> r.failure == stream.failure.value)
      && (r.Ok? ==> r.value == Aggregate(StockOf(OrdersOf(stream.items), models, stations),
                                         LowestOf(OrdersOf(stream.items), models, stations)))
  {
    var stream := ReadOrderset(rows, decodeDate);
    var orders := OrdersOf(stream.items);
    var stock: map<int, seq<StationStock>> := map[];
    var lowest: map<int, Lowest> := map[];
    var i := 0;
    while i < |orders|
      invariant 0 <= i <= |orders|
      invariant stock == StockOf(orders[..i], models, stations)
      invariant lowest == LowestOf(orders[..i], models, stations)
    {
      var x := orders[i];
      ghost var before := (stock, lowest);
      if x.stationId in stations && x.typeId in models && !x.isBuy {
        var m := models[x.typeId];
        if x.price < m.buy || x.price < m.sell {
          var dBuy := if x.price < m.buy then x.volume else 0;
          var dSell := if x.price < m.sell then x.volume else 0;
          stock := stock[x.typeId := AddAt(EntriesOf(stock, x.typeId), x.stationId, dBuy, dSell)];
        }
        var cur := if x.typeId in lowest then lowest[x.typeId] else NoLowest;
        if x.price < cur.price {
          cur := Lowest(x.price, x.stationId);
        }
        lowest := lowest[x.typeId := cur];
      }
      assert stock == StepStock(before.0, x, models, stations);
      assert lowest == StepLowest(before.1, x, models, stations);
      assert orders[..i + 1][..i] == orders[..i];
      i := i + 1;
    }
    assert orders[..|orders|] == orders;
    if stream.failure.Some? {
      return Err(stream.failure.value);
    }
    r := Ok(Aggregate(stock, lowest));
  }

  /** The order is kept and belongs to item t at station s. */
  predicate KeptAt(o: Order, t: int, s: int, models: map<int, ItemModel>, stations: set<int>)
  {
    Kept(o, models, stations) && o.typeId == t && o.stationId == s
  }

  /** The summed volume of the kept orders for item t at station s priced
      strictly below the item's buy threshold (belowBuy) or its sell
      threshold (otherwise). */
  function VolumeBelow(orders: seq<Order>, t: int, s: int, belowBuy: bool, models: map<int, ItemModel>, stations: set<int>): int
  {
    if |orders| == 0 then 0
    else
      var o := orders[|orders| - 1];
      var counts := KeptAt(o, t, s, models, stations) &&
                    (if belowBuy then o.price < models[t].buy else o.price < models[t].sell);
      VolumeBelow(orders[..|orders| - 1], t, s, belowBuy, models, stations) + (if counts then o.volume else 0)
  }

  /** An order that is skipped, or priced above both thresholds, leaves the
      stock map as it was; a skipped one leaves lowest_sell as it was too. */
  lemma SkippedOrderChangesNothing(orders: seq<Order>, o: Order, models: map<int, ItemModel>, stations: set<int>)
    requires !Stocked(o, models, stations)
    ensures StockOf(orders + [o], models, stations) == StockOf(orders, models, stations)
    ensures !Kept(o, models, stations) ==> LowestOf(orders + [o], models, stations) == LowestOf(orders, models, stations)
  {
    assert (orders + [o])[..|orders|] == orders;
  }

  /** stock[t][s] exists exactly when some kept order for (t, s) is priced
      below the buy or the sell threshold, and its two numbers are the summed
      volumes below each threshold; one order can count in both. */
  lemma {:induction false} StockOfSpec(orders: seq<Order>, t: int, s: int, models: map<int, ItemModel>, stations: set<int>)
    ensures var e := Lookup(EntriesOf(StockOf(orders, models, stations), t), s);
      && (e.Some? <==> exists i :: 0 <= i < |orders| && KeptAt(orders[i], t, s, models, stations) && Stocked(orders[i], models, stations))
      && (e.Some? ==> e.value.belowBuy == VolumeBelow(orders, t, s, true, models, stations)
                      && e.value.belowSell == VolumeBelow(orders, t, s, false, models, stations))
      && (e.None? ==> VolumeBelow(orders, t, s, true, models, stations) == 0 && VolumeBelow(orders, t, s, false, models, stations) == 0)
  {
    if |orders| > 0 {
      var p := orders[..|orders| - 1];
      var o := orders[|orders| - 1];
      StockOfSpec(p, t, s, models, stations);
      assert forall i :: 0 <= i < |p| ==> p[i] == orders[i];
      if KeptAt(o, t, s, models, stations) && Stocked(o, models, stations) {
        assert KeptAt(orders[|orders| - 1], t, s, models, stations);
      }
    }
  }

  /** The order is kept and belongs to item t. */
  predicate KeptFor(o: Order, t: int, models: map<int, ItemModel>, stations: set<int>)
  {
    Kept(o, models, stations) && o.typeId == t
  }

  /** lowest_sell[t] exists exactly when a kept order for t was seen. Its
      price is the minimum of the kept prices and the 1e99 default; below the
      default, its station is that of the first order reaching the minimum,
      because a tie does not replace the entry. */
  lemma {:induction false} LowestOfSpec(orders: seq<Order>, t: int, models: map<int, ItemModel>, stations: set<int>)
    ensures var lowest := LowestOf(orders, models, stations);
      && (t in lowest <==> exists i :: 0 <= i < |orders| && KeptFor(orders[i], t, models, stations))
      && (t in lowest ==>
            && lowest[t].price <= NoLowest.price
            && (forall i :: 0 <= i < |orders| && KeptFor(orders[i], t, models, stations) ==> lowest[t].price <= orders[i].price)
            && (lowest[t].price == NoLowest.price ==> lowest[t] == NoLowest)
            && (lowest[t].price < NoLowest.price ==>
                  exists k :: && 0 <= k < |orders| && KeptFor(orders[k], t, models, stations)
                              && orders[k].price == lowest[t].price && orders[k].stationId == lowest[t].station
                              && forall j :: 0 <= j < k && KeptFor(orders[j], t, models, stations) ==> orders[j].price > lowest[t].price))
  {
    if |orders| > 0 {
      var p := orders[..|orders| - 1];
      var o := orders[|orders| - 1];
      LowestOfSpec(p, t, models, stations);
      assert forall i :: 0 <= i < |p| ==> p[i] == orders[i];
      var lp := LowestOf(p, models, stations);
      var lowest := LowestOf(orders, models, stations);
      if KeptFor(o, t, models, stations) {
        var cur := if t in lp then lp[t] else NoLowest;
        assert forall i :: 0 <= i < |p| && KeptFor(p[i], t, models, stations) ==> cur.price <= p[i].price;
        if o.price < cur.price {
          assert lowest[t] == Lowest(o.price, o.stationId);
          assert KeptFor(orders[|p|], t, models, stations);
        } else {
          assert lowest[t] == cur;
          if cur.price < NoLowest.price {
            var k :| && 0 <= k < |p| && KeptFor(p[k], t, models, stations)
                     && p[k].price == cur.price && p[k].stationId == cur.station
                     && forall j :: 0 <= j < k && KeptFor(p[j], t, models, stations) ==> p[j].price > cur.price;
            assert orders[k] == p[k];
          }
        }
      }
    }
  }

  /** Every item with station entries also has a lowest_sell entry, so the
      per-item lookup of lowest_sell in main cannot fail. */
  lemma {:induction false} StockKeysHaveLowest(orders: seq<Order>, models: map<int, ItemModel>, stations: set<int>)
    ensures StockOf(orders, models, stations).Keys <= LowestOf(orders, models, stations).Keys
  {
    if |orders| > 0 {
      StockKeysHaveLowest(orders[..|orders| - 1], models, stations);
    }
  }

  // ---------------------------------------------------------------------
  // The station order of the scan: sorted(..., key=[0], reverse=True)

  predicate SortedByBuyStock(s: seq<StationStock>)
  {
    forall i, j :: 0 <= i < j < |s| ==> s[i].belowBuy >= s[j].belowBuy
  }

  /** The entries whose buy-side stock is k, in their order in s. */
  function WithBuyStock(s: seq<StationStock>, k: int): seq<StationStock>
  {
    if |s| == 0 then []
    else WithBuyStock(s[..|s| - 1], k) + (if s[|s| - 1].belowBuy == k then [s[|s| - 1]] else [])
  }

  /** Put x after every entry with at least as much buy-side stock. */
  function InsertByBuyStock(x: StationStock, t: seq<StationStock>): (r: seq<StationStock>)
    ensures |r| == |t| + 1
  {
    if |t| == 0 then [x]
    else if t[0].belowBuy >= x.belowBuy then [t[0]] + InsertByBuyStock(x, t[1..])
    else [x] + t
  }

  /** Python's stable sort, descending by the buy-side stock. */
  function SortByBuyStock(s: seq<StationStock>): (r: seq<StationStock>)
    ensures |r| == |s|
  {
    if |s| == 0 then []
    else InsertByBuyStock(s[|s| - 1], SortByBuyStock(s[..|s| - 1]))
  }

  lemma {:induction false} WithBuyStockAppend(a: seq<StationStock>, b: seq<StationStock>, k: int)
    ensures WithBuyStock(a + b, k) == WithBuyStock(a, k) + WithBuyStock(b, k)
  {
    if |b| > 0 {
      var b' := b[..|b| - 1];
      assert (a + b)[..|a + b| - 1] == a + b';
      WithBuyStockAppend(a, b', k);
    } else {
      assert a + b == a;
    }
  }

  lemma {:induction false} WithBuyStockBelow(t: seq<StationStock>, k: int)
    requires forall i :: 0 <= i < |t| ==> t[i].belowBuy < k
    ensures WithBuyStock(t, k) == []
  {
    if |t| > 0 {
      WithBuyStockBelow(t[..|t| - 1], k);
    }
  }

  lemma {:induction false} InsertByBuyStockPermutes(x: StationStock, t: seq<StationStock>)
    ensures multiset(InsertByBuyStock(x, t)) == multiset(t) + multiset{x}
  {
    if |t| > 0 && t[0].belowBuy >= x.belowBuy {
      InsertByBuyStockPermutes(x, t[1..]);
      assert t == [t[0]] + t[1..];
    }
  }

  lemma {:induction false} InsertByBuyStockSorted(x: StationStock, t: seq<StationStock>)
    requires SortedByBuyStock(t)
    ensures SortedByBuyStock(InsertByBuyStock(x, t))
  {
    if |t| > 0 && t[0].belowBuy >= x.belowBuy {
      var rest := InsertByBuyStock(x, t[1..]);
      InsertByBuyStockSorted(x, t[1..]);
      InsertByBuyStockPermutes(x, t[1..]);
      forall i | 0 <= i < |rest| ensures t[0].belowBuy >= rest[i].belowBuy {
        assert rest[i] in multiset(rest);
        if rest[i] != x {
          assert rest[i] in multiset(t[1..]);
          var j :| 0 <= j < |t[1..]| && t[1..][j] == rest[i];
          assert t[j + 1] == rest[i];
        }
      }
      assert InsertByBuyStock(x, t) == [t[0]] + rest;
    }
  }

  lemma {:induction false} InsertByBuyStockStable(x: StationStock, t: seq<StationStock>, k: int)
    requires SortedByBuyStock(t)
    ensures WithBuyStock(InsertByBuyStock(x, t), k) == WithBuyStock(t, k) + (if x.belowBuy == k then [x] else [])
  {
    var r := InsertByBuyStock(x, t);
    if |t| == 0 {
      assert r[..0] == [];
    } else if t[0].belowBuy >= x.belowBuy {
      var rest := InsertByBuyStock(x, t[1..]);
      InsertByBuyStockStable(x, t[1..], k);
      assert r == [t[0]] + rest;
      assert t == [t[0]] + t[1..];
      WithBuyStockAppend([t[0]], rest, k);
      WithBuyStockAppend([t[0]], t[1..], k);
    } else {
      assert r == [x] + t;
      WithBuyStockAppend([x], t, k);
      assert [x][..0] == [];
      if x.belowBuy == k {
        WithBuyStockBelow(t, k);
      }
    }
  }

  /** sorted(..., reverse=True) is ordered by descending buy-side stock, is a
      permutation of the entries, and is stable: the entries with equal stock
      keep the order they had. */
  lemma {:induction false} SortByBuyStockSpec(s: seq<StationStock>)
    ensures var r := SortByBuyStock(s);
      && SortedByBuyStock(r)
      && multiset(r) == multiset(s)
      && forall k :: WithBuyStock(r, k) == WithBuyStock(s, k)
  {
    if |s| > 0 {
      var p := s[..|s| - 1];
      var x := s[|s| - 1];
      SortByBuyStockSpec(p);
      InsertByBuyStockSorted(x, SortByBuyStock(p));
      InsertByBuyStockPermutes(x, SortByBuyStock(p));
      forall k ensures WithBuyStock(SortByBuyStock(s), k) == WithBuyStock(s, k) {
        InsertByBuyStockStable(x, SortByBuyStock(p), k);
      }
      assert s == p + [x];
    }
  }

  // ---------------------------------------------------------------------
  // suggest_stock

  /** One output row of the suggestion: TypeID, Item Name, Quantity, Max Buy,
      Value, My Sell Price, StationIDs, Station Names, Industry, Notes. */
  datatype Suggestion = Suggestion(typeId: int, name: string, quantity: real, maxBuy: real, value: real,
                                   sellPrice: real, fromStation: Option<int>, stationName: string,
                                   industry: bool, notes: seq<Note>)

  /** What one call produces: its result, and the notes it appended to the
      model's list, which stay appended even when the call then raises. */
  datatype Outcome = Outcome(result: Result<Suggestion>, added: seq<Note>)

  /** Python's truth value of `from_station`: set, and not station 0. */
  predicate Truthy(station: Option<int>)
  {
    station.Some? && station.value != 0
  }

  /** `station_stocks.get(station, [0, 0])[1]`. */
  function ExistingStock(stocks: seq<StationStock>, station: int): (r: int)
    ensures Lookup(stocks, station).Some? ==> r == Lookup(stocks, station).value.belowSell
    ensures Lookup(stocks, station).None? ==> r == 0
  {
    match Lookup(stocks, station)
    case Some(e) => e.belowSell
    case None => 0
  }

  /** The stock to acquire before rounding: a 25th of the units traded at
      the buy price, floored twice, less what is already on sale below the
      sell threshold, and never negative. */
  function StockTarget(valueTraded: real, buy: real, existing: int): (q: int)
    requires buy != 0.0
    ensures q >= 0
    ensures q >= (valueTraded / buy).Floor / 25 - existing
    ensures q == 0 || q == (valueTraded / buy).Floor / 25 - existing
  {
    var marketQuantity := (valueTraded / buy).Floor;
    var stockQuantity := marketQuantity / 25;  // floor division: the divisor is positive
    if stockQuantity - existing > 0 then stockQuantity - existing else 0
  }

  /** `m * math.ceil(q / m)`: q rounded up to a multiple of m. */
  function RoundUp(q: int, m: int): (r: int)
    requires m >= 1
    ensures r % m == 0
    ensures q <= r < q + m
  {
    var c := (-q) / m;
    MultipleOfM(m, -c);
    assert m * -c == q + (-q) % m;
    m * -c
  }

  lemma MultipleOfM(m: int, k: int)
    requires m >= 1
    ensures (m * k) % m == 0
  {
    var d, e := (m * k) / m, (m * k) % m;
    assert m * k == m * d + e && 0 <= e < m;
    assert e == m * (k - d);
    assert k - d == 0 by {
      MultipleBounds(m, k - d);
    }
  }

  /** A non-zero multiple of m is at least m away from 0. */
  lemma MultipleBounds(m: int, q: int)
    requires m >= 1
    ensures q >= 1 ==> m * q >= m
    ensures q <= -1 ==> m * q <= -m
  {
    if q >= 1 {
      assert m * q == m + m * (q - 1);
    } else if q <= -1 {
      assert m * q == -m + m * (q + 1);
    }
  }

  /** `min([a, b])`, which keeps a on a tie. */
  function MinOf2(a: real, b: real): (r: real)
    ensures r <= a && r <= b && (r == a || r == b)
  {
    if b < a then b else a
  }

  /** The scan accepts a station with enough buy-side stock: not none, at
      least one minimum order, and at least half the quantity wanted. */
  predicate Qualifies(st: StationStock, minOrder: int, want: int)
  {
    st.belowBuy != 0 && !(st.belowBuy < minOrder || (st.belowBuy as real) < want as real / 2.0)
  }

  /** What the scan over the sorted stations leaves behind: the quantity,
      the station chosen, the notes it appended, and the AttributeError a
      note about a station with no name raises. */
  datatype Pick = Pick(quantity: real, from: Option<int>, notes: seq<Note>, failure: Option<Failure>)

  /** The loop of suggest_stock over the stations, most buy-side stock
      first: skip a station outside `allowed`, note a station that falls
      short, stop at the first that qualifies. */
  function Scan(order: seq<StationStock>, allowed: set<int>, names: map<int, string>, want: int, minOrder: int): Pick
  {
    if |order| == 0 then Pick(want as real, None, [], None)
    else
      var st := order[0];
      if st.station !in allowed then Scan(order[1..], allowed, names, want, minOrder)
      else if Qualifies(st, minOrder, want) then
        Pick(MinOf2(st.belowBuy as real, want as real), Some(st.station), [], None)
      else if st.station !in names then Pick(want as real, None, [], Some(UnknownStation(st.station)))
      else
        var note := if st.belowBuy == 0 then NotAvailableAt(names[st.station], want)
                    else NotInQuantity(names[st.station], want, st.belowBuy);
        var rest := Scan(order[1..], allowed, names, want, minOrder);
        rest.(notes := [note] + rest.notes)
  }

  /** The return statement: value and station name only for a truthy
      station, whose name lookup raises when the station is unknown. */
  function Finish(trade: ItemSummary, quantity: real, buy: real, newSell: real, from: Option<int>,
                  names: map<int, string>, industry: set<int>, notes: seq<Note>, added: seq<Note>): (o: Outcome)
    ensures o.added == added
    ensures o.result.Err? <==> Truthy(from) && from.value !in names
    ensures o.result.Ok? ==> o.result.value.notes == notes && o.result.value.quantity == quantity && o.result.value.fromStation == from
    ensures o.result.Ok? ==> o.result.value.value == (if Truthy(from) then newSell * quantity else 0.0)
    ensures o.result.Ok? ==> o.result.value.stationName == (if Truthy(from) then names[from.value] else "-")
  {
    var truthy := Truthy(from);
    if truthy && from.value !in names then Outcome(Err(UnknownStation(from.value)), added)
    else
      Outcome(Ok(Suggestion(trade.id, trade.name, quantity, buy, if truthy then newSell * quantity else 0.0, newSell,
                            from, if truthy then names[from.value] else "-", trade.id in industry, notes)), added)
  }

  /** The first branch of the source choice: the lowest-sell station, when
      it is allowed and its price exceeds both the minimum order and half the
      quantity wanted. The price is compared with quantities, as written. */
  predicate LowestQualifies(lowest: Lowest, allowed: set<int>, minOrder: int, want: int)
  {
    lowest.station in allowed && lowest.price > minOrder as real && lowest.price > want as real / 2.0
  }

  /** The quantity logic of suggest_stock after the target q is known: the
      quantity, the source station, the notes appended, and the failure of
      a name lookup. */
  function Choose(q: int, minOrder: int, existing: int, stocks: seq<StationStock>, lowest: Lowest,
                  allowed: set<int>, names: map<int, string>): Pick
    requires minOrder >= 1
  {
    if (q as real) < minOrder as real / 2.0 then Pick(q as real, None, [AlreadyInStock(existing)], None)
    else
      var pre := if existing > 0 then [SomeStock(existing)] else [];
      var want := RoundUp(q, minOrder);
      if LowestQualifies(lowest, allowed, minOrder, want) then
        Pick(MinOf2(lowest.price, want as real), Some(lowest.station), pre, None)
      else
        var p := Scan(SortByBuyStock(stocks), allowed, names, want, minOrder);
        p.(notes := pre + p.notes)
  }

  /** suggest_stock for an item with thresholds buy and newSell whose notes
      list holds `notes`, at destination `station`. */
  function Suggest(station: int, trade: ItemSummary, buy: real, newSell: real, notes: seq<Note>,
                   stocks: seq<StationStock>, lowest: Lowest, allowed: set<int>, industry: set<int>,
                   names: map<int, string>): Outcome
  {
    if buy == 0.0 then Outcome(Err(ZeroDivision), [])
    else
      var existing := ExistingStock(stocks, station);
      var c := Choose(StockTarget(trade.valueTraded, buy, existing), GuessMinOrder(trade), existing, stocks, lowest, allowed, names);
      if c.failure.Some? then Outcome(Err(c.failure.value), c.notes)
      else Finish(trade, c.quantity, buy, newSell, c.from, names, industry, notes + c.notes, c.notes)
  }

  /** The scan loop of suggest_stock, over the stations in sorted order. The
      loop's variable `station` shadows the parameter of that name in the
      Python code; the parameter is not read after the loop, so the
      shadowing changes no result. */
  method ScanStations(item: ItemModel, order: seq<StationStock>, allowed: set<int>, names: map<int, string>,
                      want: int, minOrder: int) returns (quantity: real, from: Option<int>, stationName: Option<string>, failure: Option<Failure>)
    modifies item
    ensures var p := Scan(order, allowed, names, want, minOrder);
      && quantity == p.quantity && from == p.from && failure == p.failure
      && item.notes == old(item.notes) + p.notes
      && (from.Some? ==> stationName == if from.value in names then Some(names[from.value]) else None)
  {
    ghost var scanned: seq<Note> := [];
    quantity, from, stationName, failure := want as real, None, None, None;
    var i := 0;
    while i < |order|
      invariant 0 <= i <= |order|
      invariant item.notes == old(item.notes) + scanned
      invariant from.None? && failure.None? && quantity == want as real
      invariant var p := Scan(order[i..], allowed, names, want, minOrder);
        Scan(order, allowed, names, want, minOrder) == p.(notes := scanned + p.notes)
    {
      var st := order[i];
      assert order[i..][0] == st && order[i..][1..] == order[i + 1..];
      if st.station !in allowed {
        i := i + 1;
        continue;
      }
      stationName := if st.station in names then Some(names[st.station]) else None;
      if st.belowBuy == 0 || st.belowBuy < minOrder || (st.belowBuy as real) < want as real / 2.0 {
        if stationName.None? {
          failure := Some(UnknownStation(st.station));
          return;
        }
        var note := if st.belowBuy == 0 then NotAvailableAt(stationName.value, want)
                    else NotInQuantity(stationName.value, want, st.belowBuy);
        item.notes := item.notes + [note];
        scanned := scanned + [note];
      } else {
        quantity := MinOf2(st.belowBuy as real, want as real);
        from := Some(st.station);
        return;
      }
      i := i + 1;
    }
  }

  /** suggest_stock. It appends its notes to the model's own list (an alias
      in the Python code) and returns the row built from that list. */
  method SuggestStock(station: int, item: ItemModel, stationStocks: seq<StationStock>, lowest: Lowest,
                      allowed: set<int>, industry: set<int>, names: map<int, string>) returns (r: Result<Suggestion>)
    modifies item
    ensures var o := Suggest(station, item.trade, item.buy, item.newSell, old(item.notes), stationStocks, lowest, allowed, industry, names);
      r == o.result && item.notes == old(item.notes) + o.added
  {
    ghost var o := Suggest(station, item.trade, item.buy, item.newSell, item.notes, stationStocks, lowest, allowed, industry, names);
    var minOrder := GuessMinOrder(item.trade);
    if item.buy == 0.0 {
      assert old(item.notes) + [] == item.notes;
      return Err(ZeroDivision);
    }
    var marketQuantity := (item.trade.valueTraded / item.buy).Floor;
    var stockQuantity := marketQuantity / 25;
    var existing := ExistingStock(stationStocks, station);
    stockQuantity := if stockQuantity - existing > 0 then stockQuantity - existing else 0;
    assert stockQuantity == StockTarget(item.trade.valueTraded, item.buy, existing);
    var quantity: real := stockQuantity as real;
    var fromStation: Option<int> := None;
    var stationName: Option<string> := None;  // station_info, None when the lookup failed
    ghost var added: seq<Note>;

    if (stockQuantity as real) < minOrder as real / 2.0 {
      item.notes := item.notes + [AlreadyInStock(existing)];
      added := [AlreadyInStock(existing)];
    } else {
      if existing > 0 {
        item.notes := item.notes + [SomeStock(existing)];
      }
      ghost var pre := if existing > 0 then [SomeStock(existing)] else [];
      assert item.notes == old(item.notes) + pre;
      stockQuantity := minOrder * -((-stockQuantity) / minOrder);
      assert stockQuantity == RoundUp(StockTarget(item.trade.valueTraded, item.buy, existing), minOrder);
      quantity := stockQuantity as real;
      if lowest.station in allowed && lowest.price > minOrder as real && lowest.price > stockQuantity as real / 2.0 {
        fromStation := Some(lowest.station);
        stationName := if lowest.station in names then Some(names[lowest.station]) else None;
        quantity := MinOf2(lowest.price, stockQuantity as real);
        added := pre;
      } else {
        ghost var p := Scan(SortByBuyStock(stationStocks), allowed, names, stockQuantity, minOrder);
        var failure;
        quantity, fromStation, stationName, failure :=
          ScanStations(item, SortByBuyStock(stationStocks), allowed, names, stockQuantity, minOrder);
        assert item.notes == old(item.notes) + (pre + p.notes);
        if failure.Some? {
          return Err(failure.value);
        }
        added := pre + p.notes;
      }
    }
    assert item.notes == old(item.notes) + added;
    assert o == Finish(item.trade, quantity, item.buy, item.newSell, fromStation, names, industry, old(item.notes) + added, added);
    assert fromStation.Some? ==> stationName == if fromStation.value in names then Some(names[fromStation.value]) else None;

    r := BuildRow(item, quantity, fromStation, stationName, names, industry, added);
  }

  /** The scan stops at the first allowed station that qualifies; every
      allowed station before it fell short and got a note. Without one it
      keeps the wanted quantity, and a note about a station with no name
      aborts it. */
  lemma {:induction false} ScanSpec(order: seq<StationStock>, allowed: set<int>, names: map<int, string>, want: int, minOrder: int)
    ensures var p := Scan(order, allowed, names, want, minOrder);
      && (p.failure.None? && p.from.Some? ==>
            exists k :: && 0 <= k < |order| && order[k].station == p.from.value && order[k].station in allowed
                        && Qualifies(order[k], minOrder, want)
                        && p.quantity == MinOf2(order[k].belowBuy as real, want as real)
                        && forall j :: 0 <= j < k && order[j].station in allowed ==> !Qualifies(order[j], minOrder, want))
      && (p.failure.None? && p.from.None? ==>
            && p.quantity == want as real
            && forall j :: 0 <= j < |order| && order[j].station in allowed ==> !Qualifies(order[j], minOrder, want))
      && (p.failure.Some? ==>
            exists k :: && 0 <= k < |order| && order[k].station in allowed && order[k].station !in names
                        && !Qualifies(order[k], minOrder, want) && p.failure == Some(UnknownStation(order[k].station)))
  {
    if |order| > 0 {
      var rest := order[1..];
      ScanSpec(rest, allowed, names, want, minOrder);
      assert forall j :: 0 <= j < |rest| ==> rest[j] == order[j + 1];
      var p := Scan(order, allowed, names, want, minOrder);
      var st := order[0];
      if st.station !in allowed || (!Qualifies(st, minOrder, want) && st.station in names) {
        var pr := Scan(rest, allowed, names, want, minOrder);
        assert p.from == pr.from && p.failure == pr.failure && p.quantity == pr.quantity;
        if pr.failure.None? && pr.from.Some? {
          var k :| && 0 <= k < |rest| && rest[k].station == pr.from.value && rest[k].station in allowed
                   && Qualifies(rest[k], minOrder, want)
                   && pr.quantity == MinOf2(rest[k].belowBuy as real, want as real)
                   && forall j :: 0 <= j < k && rest[j].station in allowed ==> !Qualifies(rest[j], minOrder, want);
          assert forall j :: 0 <= j < k + 1 && order[j].station in allowed ==> !Qualifies(order[j], minOrder, want) by {
            forall j | 0 < j < k + 1 && order[j].station in allowed ensures !Qualifies(order[j], minOrder, want) {
              assert order[j] == rest[j - 1];
            }
          }
        }
        if pr.failure.Some? {
          var k :| && 0 <= k < |rest| && rest[k].station in allowed && rest[k].station !in names
                   && !Qualifies(rest[k], minOrder, want) && pr.failure == Some(UnknownStation(rest[k].station));
          assert order[k + 1] == rest[k];
        }
      }
    }
  }

  /** Below half a minimum order the choice is the target itself, from no
      station, with only the "already in stock" note, which is added even
      when the existing stock is 0. */
  lemma ChooseBelowHalfMinOrder(q: int, minOrder: int, existing: int, stocks: seq<StationStock>, lowest: Lowest,
                                allowed: set<int>, names: map<int, string>)
    requires minOrder >= 1
    requires (q as real) < minOrder as real / 2.0
    ensures Choose(q, minOrder, existing, stocks, lowest, allowed, names) == Pick(q as real, None, [AlreadyInStock(existing)], None)
  {
  }

  /** The lowest-sell station has priority: when it is allowed and its price
      exceeds both the minimum order and half the rounded target, it is the
      source, at the smaller of its price and the rounded target, whatever
      the other stations hold, and no name lookup can fail. */
  lemma ChooseLowestFirst(q: int, minOrder: int, existing: int, stocks: seq<StationStock>, lowest: Lowest,
                          allowed: set<int>, names: map<int, string>)
    requires minOrder >= 1
    requires q as real >= minOrder as real / 2.0 && LowestQualifies(lowest, allowed, minOrder, RoundUp(q, minOrder))
    ensures Choose(q, minOrder, existing, stocks, lowest, allowed, names) ==
      Pick(MinOf2(lowest.price, RoundUp(q, minOrder) as real), Some(lowest.station),
           if existing > 0 then [SomeStock(existing)] else [], None)
  {
  }

  /** With a source station: the station is allowed; the target reached
      half a minimum order and was rounded up to a multiple of it; the
      quantity lies between 0 and that rounded target; and either the
      lowest-sell station qualifies and is the source, with the quantity
      bounded by its price, or the quantity is bounded by the stock of a
      qualifying station that has the most buy-side stock of all allowed
      qualifying stations. Which of the two is taken first is stated by
      ChooseLowestFirst. */
  lemma ChooseFromStation(q: int, minOrder: int, existing: int, stocks: seq<StationStock>, lowest: Lowest,
                          allowed: set<int>, names: map<int, string>)
    requires minOrder >= 1 && q >= 0
    ensures var c := Choose(q, minOrder, existing, stocks, lowest, allowed, names);
      c.failure.None? && c.from.Some? ==>
        var want := RoundUp(q, minOrder);
        && c.from.value in allowed
        && q as real >= minOrder as real / 2.0
        && 0.0 <= c.quantity <= want as real
        && ((LowestQualifies(lowest, allowed, minOrder, want) && c.from.value == lowest.station && c.quantity <= lowest.price)
            || exists i :: && 0 <= i < |stocks| && stocks[i].station == c.from.value && Qualifies(stocks[i], minOrder, want)
                           && c.quantity <= stocks[i].belowBuy as real
                           && forall j :: 0 <= j < |stocks| && stocks[j].station in allowed && Qualifies(stocks[j], minOrder, want) ==>
                                           stocks[j].belowBuy <= stocks[i].belowBuy)
  {
    var c := Choose(q, minOrder, existing, stocks, lowest, allowed, names);
    var want := RoundUp(q, minOrder);
    if c.failure.None? && c.from.Some? && (q as real) >= minOrder as real / 2.0 && !LowestQualifies(lowest, allowed, minOrder, want) {
      var sorted := SortByBuyStock(stocks);
      ScanSpec(sorted, allowed, names, want, minOrder);
      SortByBuyStockSpec(stocks);
      var k :| && 0 <= k < |sorted| && sorted[k].station == c.from.value && sorted[k].station in allowed
               && Qualifies(sorted[k], minOrder, want)
               && c.quantity == MinOf2(sorted[k].belowBuy as real, want as real)
               && forall j :: 0 <= j < k && sorted[j].station in allowed ==> !Qualifies(sorted[j], minOrder, want);
      FirstQualifyingIsLargest(stocks, sorted, k, allowed, minOrder, want);
    }
  }

  /** In the list sorted by buy-side stock, the first allowed station that
      qualifies has at least the stock of every allowed qualifying station
      of the original list. */
  lemma FirstQualifyingIsLargest(stocks: seq<StationStock>, sorted: seq<StationStock>, k: int, allowed: set<int>,
                                 minOrder: int, want: int)
    requires SortedByBuyStock(sorted) && multiset(sorted) == multiset(stocks)
    requires 0 <= k < |sorted| && sorted[k].station in allowed && Qualifies(sorted[k], minOrder, want)
    requires forall j :: 0 <= j < k && sorted[j].station in allowed ==> !Qualifies(sorted[j], minOrder, want)
    ensures exists i :: && 0 <= i < |stocks| && stocks[i] == sorted[k]
                        && forall j :: 0 <= j < |stocks| && stocks[j].station in allowed && Qualifies(stocks[j], minOrder, want) ==>
                                        stocks[j].belowBuy <= stocks[i].belowBuy
  {
    assert sorted[k] in multiset(stocks) by {
      assert sorted[k] in multiset(sorted);
    }
    var i :| 0 <= i < |stocks| && stocks[i] == sorted[k];
    forall j | 0 <= j < |stocks| && stocks[j].station in allowed && Qualifies(stocks[j], minOrder, want)
      ensures stocks[j].belowBuy <= stocks[i].belowBuy
    {
      assert stocks[j] in multiset(sorted) by {
        assert stocks[j] in multiset(stocks);
      }
      var j' :| 0 <= j' < |sorted| && sorted[j'] == stocks[j];
      if j' > k {
        assert sorted[k].belowBuy >= sorted[j'].belowBuy;
      }
    }
  }

  /** Without a source station the quantity is the target when that is
      below half a minimum order; otherwise it is the rounded target, and
      neither the lowest-sell station nor any allowed station in the list
      qualified. */
  lemma ChooseWithoutStation(q: int, minOrder: int, existing: int, stocks: seq<StationStock>, lowest: Lowest,
                             allowed: set<int>, names: map<int, string>)
    requires minOrder >= 1
    ensures var c := Choose(q, minOrder, existing, stocks, lowest, allowed, names);
      c.failure.None? && c.from.None? ==>
        var want := RoundUp(q, minOrder);
        && ((q as real) < minOrder as real / 2.0 ==> c.quantity == q as real)
        && ((q as real) >= minOrder as real / 2.0 ==>
              && c.quantity == want as real
              && !LowestQualifies(lowest, allowed, minOrder, want)
              && forall j :: 0 <= j < |stocks| && stocks[j].station in allowed ==> !Qualifies(stocks[j], minOrder, want))
  {
    var c := Choose(q, minOrder, existing, stocks, lowest, allowed, names);
    var want := RoundUp(q, minOrder);
    if c.failure.None? && c.from.None? && (q as real) >= minOrder as real / 2.0 {
      var sorted := SortByBuyStock(stocks);
      ScanSpec(sorted, allowed, names, want, minOrder);
      SortByBuyStockSpec(stocks);
      forall j | 0 <= j < |stocks| && stocks[j].station in allowed ensures !Qualifies(stocks[j], minOrder, want) {
        assert stocks[j] in multiset(sorted) by {
          assert stocks[j] in multiset(stocks);
        }
        var j' :| 0 <= j' < |sorted| && sorted[j'] == stocks[j];
      }
    }
  }

  /** The choice fails only on an allowed station with no name, which the
      scan reached; it never fails below half a minimum order. */
  lemma ChooseFailure(q: int, minOrder: int, existing: int, stocks: seq<StationStock>, lowest: Lowest,
                      allowed: set<int>, names: map<int, string>)
    requires minOrder >= 1
    ensures var c := Choose(q, minOrder, existing, stocks, lowest, allowed, names);
      c.failure.Some? ==>
        && q as real >= minOrder as real / 2.0
        && !LowestQualifies(lowest, allowed, minOrder, RoundUp(q, minOrder))
        && exists s :: c.failure == Some(UnknownStation(s)) && s in allowed && s !in names
  {
    var c := Choose(q, minOrder, existing, stocks, lowest, allowed, names);
    var want := RoundUp(q, minOrder);
    if c.failure.Some? {
      var sorted := SortByBuyStock(stocks);
      ScanSpec(sorted, allowed, names, want, minOrder);
      var k :| && 0 <= k < |sorted| && sorted[k].station in allowed && sorted[k].station !in names
               && !Qualifies(sorted[k], minOrder, want) && c.failure == Some(UnknownStation(sorted[k].station));
    }
  }

  /** The station chosen is always an allowed one. */
  lemma ChooseFromAllowed(q: int, minOrder: int, existing: int, stocks: seq<StationStock>, lowest: Lowest,
                          allowed: set<int>, names: map<int, string>)
    requires minOrder >= 1 && q >= 0
    ensures var c := Choose(q, minOrder, existing, stocks, lowest, allowed, names);
      c.failure.None? && c.from.Some? ==> c.from.value in allowed
  {
    ChooseFromStation(q, minOrder, existing, stocks, lowest, allowed, names);
  }

  /** suggest_stock fails with ZeroDivisionError exactly when the buy
      threshold is 0, before any note; its only other failure is the
      AttributeError of an allowed station with no name: one the scan
      reached, or the chosen station when it is truthy. A row it returns
      carries the item's identity and thresholds, the model's notes with the
      new ones at the end, the quantity and station of the choice, a value
      of the new sell price times the quantity for a truthy station and 0
      otherwise, and the station's name for a truthy station. */
  lemma SuggestSpec(station: int, trade: ItemSummary, buy: real, newSell: real, notes: seq<Note>,
                    stocks: seq<StationStock>, lowest: Lowest, allowed: set<int>, industry: set<int>, names: map<int, string>)
    ensures var o := Suggest(station, trade, buy, newSell, notes, stocks, lowest, allowed, industry, names);
      && (o.result == Err(ZeroDivision) <==> buy == 0.0)
      && (buy == 0.0 ==> o.added == [])
      && (o.result.Err? && buy != 0.0 ==> exists s :: o.result.failure == UnknownStation(s) && s in allowed && s !in names)
      && (buy != 0.0 ==>
            var existing := ExistingStock(stocks, station);
            var c := Choose(StockTarget(trade.valueTraded, buy, existing), GuessMinOrder(trade), existing, stocks, lowest, allowed, names);
            && o.added == c.notes
            && (o.result.Ok? ==>
                  var r := o.result.value;
                  && r.typeId == trade.id && r.name == trade.name && r.maxBuy == buy && r.sellPrice == newSell
                  && r.industry == (trade.id in industry) && r.notes == notes + o.added
                  && r.quantity == c.quantity && r.fromStation == c.from
                  && r.value == (if Truthy(r.fromStation) then newSell * r.quantity else 0.0)
                  && r.stationName == (if Truthy(r.fromStation) then names[r.fromStation.value] else "-")))
  {
    if buy != 0.0 {
      var existing := ExistingStock(stocks, station);
      var q := StockTarget(trade.valueTraded, buy, existing);
      ChooseFailure(q, GuessMinOrder(trade), existing, stocks, lowest, allowed, names);
      var c := Choose(q, GuessMinOrder(trade), existing, stocks, lowest, allowed, names);
      if c.failure.None? && c.from.Some? {
        ChooseFromAllowed(q, GuessMinOrder(trade), existing, stocks, lowest, allowed, names);
      }
    }
  }

  /** The return statement of suggest_stock: the row for the item from the
      quantity and station chosen, with the station's name looked up only
      when the station is truthy. */
  method BuildRow(item: ItemModel, quantity: real, fromStation: Option<int>, stationName: Option<string>,
                  names: map<int, string>, industry: set<int>, ghost added: seq<Note>) returns (r: Result<Suggestion>)
    requires fromStation.Some? ==> stationName == if fromStation.value in names then Some(names[fromStation.value]) else None
    ensures r == Finish(item.trade, quantity, item.buy, item.newSell, fromStation, names, industry, item.notes, added).result
  {
    var truthy := fromStation.Some? && fromStation.value != 0;
    if truthy && stationName.None? {
      return Err(UnknownStation(fromStation.value));
    }
    r := Ok(Suggestion(item.trade.id, item.trade.name, quantity, item.buy,
                       if truthy then item.newSell * quantity else 0.0, item.newSell, fromStation,
                       if truthy then stationName.value else "-", item.trade.id in industry, item.notes));
  }
}

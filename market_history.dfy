/** add_orderset_to_market_history.py: the streaming summary of an orderset
    into one price-history record per (station, item) group. */
module MarketHistory {
  import opened Wrappers
  import opened Lib

  /** One emitted record: the group's item and station, its best buy and
      best sell price, and the volume counted at the best sell price. */
  datatype ItemMarket = ItemMarket(typeId: int, stationId: int, buy: Option<real>, sell: Option<real>, sellVolume: Option<int>)

  /** The variables of load between two orders: the current group as
      (station, item), and what has been gathered for it since the last
      emission. */
  datatype LoadState = LoadState(group: Option<(int, int)>, buy: Option<real>, sell: Option<real>, sellVolume: Option<int>)

  /** Before the first order: no group, nothing gathered. */
  const Start: LoadState := LoadState(None, None, None, None)

  /** The sell volume is held exactly when a sell price is, and before the
      first group nothing is held at all. */
  predicate Valid(st: LoadState)
  {
    && (st.sell.Some? <==> st.sellVolume.Some?)
    && (st.group.None? ==> st.buy.None? && st.sell.None?)
  }

  /** The record yielded for the current group. */
  function Summary(st: LoadState): ItemMarket
    requires st.group.Some?
  {
    ItemMarket(st.group.value.1, st.group.value.0, st.buy, st.sell, st.sellVolume)
  }

  /** The flush test: a group is held and the order is at another station or
      for another item. (The station and the item are set together, so
      "station set" and "item set" are the same condition.) */
  predicate Flushes(st: LoadState, o: Order)
  {
    st.group.Some? && (o.stationId != st.group.value.0 || o.typeId != st.group.value.1)
  }

  /** The best-price update for an order of the current group: a higher buy
      price replaces the buy; a strictly lower sell price replaces the sell,
      and its volume is added to the held volume, which restarts from 0 when
      there was no sell price or the old one exceeds 1.01 times the new. */
  function Update(st: LoadState, o: Order): (r: LoadState)
    requires st.sell.Some? <==> st.sellVolume.Some?
    ensures r.group == st.group
    ensures r.sell.Some? <==> r.sellVolume.Some?
    ensures r.buy.Some? <==> st.buy.Some? || o.isBuy
    ensures r.sell.Some? <==> st.sell.Some? || !o.isBuy
  {
    if o.isBuy then
      if st.buy.None? || st.buy.value < o.price then st.(buy := Some(o.price)) else st
    else if st.sell.None? || st.sell.value > o.price then
      var base := if st.sell.None? || st.sell.value > o.price * 1.01 then 0 else st.sellVolume.value;
      st.(sell := Some(o.price), sellVolume := Some(base + o.volume))
    else st
  }

  /** One iteration of the loop of load: the flush test first, then the
      station filter, then the update. Gives the new state and what was
      yielded. */
  function Step(st: LoadState, o: Order, stations: set<int>): (r: (LoadState, seq<ItemMarket>))
    requires Valid(st)
    ensures Valid(r.0)
    ensures Flushes(st, o) ==> r.1 == [Summary(st)]
    ensures !Flushes(st, o) ==> r.1 == []
    ensures o.stationId in stations ==> r.0.group == Some((o.stationId, o.typeId))
    ensures o.stationId !in stations ==> r.0.group == st.group
    ensures o.stationId !in stations && Flushes(st, o) ==> r.0 == LoadState(st.group, None, None, None)
    ensures o.stationId !in stations && !Flushes(st, o) ==> r.0 == st
  {
    var flush := Flushes(st, o);
    var kept := if flush then LoadState(st.group, None, None, None) else st;
    var out := if flush then [Summary(st)] else [];
    if o.stationId !in stations then (kept, out)
    else (Update(kept.(group := Some((o.stationId, o.typeId))), o), out)
  }

  /** The state and the records yielded after `orders`, starting from `st`. */
  function LoadFrom(st: LoadState, orders: seq<Order>, stations: set<int>): (r: (LoadState, seq<ItemMarket>))
    requires Valid(st)
    ensures Valid(r.0)
  {
    if |orders| == 0 then (st, [])
    else
      var prev := LoadFrom(st, orders[..|orders| - 1], stations);
      var next := Step(prev.0, orders[|orders| - 1], stations);
      (next.0, prev.1 + next.1)
  }

  /** load: the orders of read_orderset, terminator included, summarised
      group by group; a row that does not decode ends the generator with a
      ValueError after everything before it was yielded. */
  method Load(rows: seq<seq<string>>, decodeDate: string -> Option<Timestamp>, stations: set<int>)
    returns (out: Yielded<ItemMarket>)
    ensures var stream := ReadOrderset(rows, decodeDate);
      out == Yielded(LoadFrom(Start, OrdersOf(stream.items), stations).1, stream.failure)
  {
    var stream := ReadOrderset(rows, decodeDate);
    var orders := OrdersOf(stream.items);
    var currentStation: Option<int> := None;
    var currentItem: Option<int> := None;
    var currentBuy: Option<real> := None;
    var currentSell: Option<real> := None;
    var currentSellVol: Option<int> := None;
    var emitted: seq<ItemMarket> := [];
    var i := 0;
    while i < |orders|
      invariant 0 <= i <= |orders|
      invariant currentStation.Some? <==> currentItem.Some?
      invariant LoadFrom(Start, orders[..i], stations) ==
        (StateOf(currentStation, currentItem, currentBuy, currentSell, currentSellVol), emitted)
    {
      LoadFromSnoc(orders, i, stations);
      var emit;
      currentStation, currentItem, currentBuy, currentSell, currentSellVol, emit :=
        LoadBody(currentStation, currentItem, currentBuy, currentSell, currentSellVol, orders[i], stations);
      emitted := emitted + emit;
      i := i + 1;
    }
    assert orders[..i] == orders;
    out := Yielded(emitted, stream.failure);
  }

  /** The state held in the local variables of load. */
  function StateOf(station: Option<int>, item: Option<int>, buy: Option<real>, sell: Option<real>, sellVolume: Option<int>): LoadState
    requires station.Some? <==> item.Some?
  {
    LoadState(if station.Some? then Some((station.value, item.value)) else None, buy, sell, sellVolume)
  }

  /** The body of the loop of load for one order o, on its local variables;
      `return` is its `continue`. */
  method LoadBody(station: Option<int>, item: Option<int>, buy: Option<real>, sell: Option<real>, sellVolume: Option<int>,
                  o: Order, stations: set<int>)
    returns (station': Option<int>, item': Option<int>, buy': Option<real>, sell': Option<real>, sellVolume': Option<int>,
             emit: seq<ItemMarket>)
    requires station.Some? <==> item.Some?
    requires Valid(StateOf(station, item, buy, sell, sellVolume))
    ensures station'.Some? <==> item'.Some?
    ensures Step(StateOf(station, item, buy, sell, sellVolume), o, stations) == (StateOf(station', item', buy', sell', sellVolume'), emit)
  {
    ghost var before := StateOf(station, item, buy, sell, sellVolume);
    station', item', buy', sell', sellVolume' := station, item, buy, sell, sellVolume;
    emit := [];
    if (station'.Some? && o.stationId != station'.value) || (item'.Some? && o.typeId != item'.value) {
      emit := [ItemMarket(item'.value, station'.value, buy', sell', sellVolume')];
      buy', sell', sellVolume' := None, None, None;
    }
    ghost var kept := StateOf(station', item', buy', sell', sellVolume');
    if o.stationId !in stations {
      StepUnfold(before, o, stations, kept, emit, kept);
      return;
    }
    station', item' := Some(o.stationId), Some(o.typeId);
    if o.isBuy {
      if buy'.None? || buy'.value < o.price {
        buy' := Some(o.price);
      }
    } else if sell'.None? || sell'.value > o.price {
      if sell'.None? || sell'.value > o.price * 1.01 {
        sellVolume' := Some(0);
      }
      sell' := Some(o.price);
      sellVolume' := Some(sellVolume'.value + o.volume);
    }
    StepUnfold(before, o, stations, kept, emit, StateOf(station', item', buy', sell', sellVolume'));
  }

  /** Step taken apart at the point where the loop body of load has done the
      flush test. */
  lemma StepUnfold(st: LoadState, o: Order, stations: set<int>, kept: LoadState, out: seq<ItemMarket>, after: LoadState)
    requires Valid(st)
    requires kept == (if Flushes(st, o) then LoadState(st.group, None, None, None) else st)
    requires out == (if Flushes(st, o) then [Summary(st)] else [])
    requires o.stationId in stations ==> after == Update(kept.(group := Some((o.stationId, o.typeId))), o)
    requires o.stationId !in stations ==> after == kept
    ensures Step(st, o, stations) == (after, out)
  {
  }

  /** One more order extends the fold by one Step. */
  lemma LoadFromSnoc(orders: seq<Order>, i: nat, stations: set<int>)
    requires i < |orders|
    ensures var prev := LoadFrom(Start, orders[..i], stations);
      var step := Step(prev.0, orders[i], stations);
      LoadFrom(Start, orders[..i + 1], stations) == (step.0, prev.1 + step.1)
  {
    assert orders[..i + 1][..i] == orders[..i];
  }

  // ---------------------------------------------------------------------
  // Properties

  /** Nothing is yielded, and nothing is held, until an order from one of the
      summarised stations has been seen: the current station and item start
      out unset. */
  lemma {:induction false} NothingBeforeFirstKeptOrder(orders: seq<Order>, stations: set<int>)
    requires forall i :: 0 <= i < |orders| ==> orders[i].stationId !in stations
    ensures LoadFrom(Start, orders, stations) == (Start, [])
  {
    if |orders| > 0 {
      var p := orders[..|orders| - 1];
      assert forall i :: 0 <= i < |p| ==> p[i] == orders[i];
      NothingBeforeFirstKeptOrder(p, stations);
      var step := Step(Start, orders[|orders| - 1], stations);
      assert step == (Start, []);
      var none: seq<ItemMarket> := [];
      assert none + none == none;
      assert LoadFrom(Start, orders, stations) == (Start, none + none);
    }
  }

  /** The flush test comes before the station filter: once a group is held,
      every order from an excluded station yields the held group again, the
      second time with its prices and volume reset, and the group itself
      never changes. */
  lemma ExcludedStationsStillFlush(st: LoadState, a: Order, b: Order, stations: set<int>)
    requires Valid(st) && st.group.Some?
    requires a.stationId !in stations && b.stationId !in stations
    requires a.stationId != st.group.value.0 && b.stationId != st.group.value.0
    ensures var r := LoadFrom(st, [a, b], stations);
      var (s, t) := st.group.value;
      && r.0 == LoadState(st.group, None, None, None)
      && r.1 == [Summary(st), ItemMarket(t, s, None, None, None)]
  {
    assert [a, b][..1] == [a];
    LoadFromOne(st, a, stations);
    var mid := Step(st, a, stations).0;
    assert LoadFrom(st, [a, b], stations) == (Step(mid, b, stations).0, [Summary(st)] + Step(mid, b, stations).1);
  }

  /** The highest price among the buy orders of g, None when it has none. */
  function MaxBuy(g: seq<Order>): (m: Option<real>)
    ensures m.None? <==> forall i :: 0 <= i < |g| ==> !g[i].isBuy
    ensures m.Some? ==> forall i :: 0 <= i < |g| && g[i].isBuy ==> g[i].price <= m.value
    ensures m.Some? ==> exists i :: 0 <= i < |g| && g[i].isBuy && g[i].price == m.value
  {
    if |g| == 0 then None
    else
      var m := MaxBuy(g[..|g| - 1]);
      var o := g[|g| - 1];
      assert forall i :: 0 <= i < |g| - 1 ==> g[..|g| - 1][i] == g[i];
      if o.isBuy && (m.None? || m.value < o.price) then Some(o.price) else m
  }

  /** The lowest price among the sell orders of g, None when it has none. */
  function MinSell(g: seq<Order>): (m: Option<real>)
    ensures m.None? <==> forall i :: 0 <= i < |g| ==> g[i].isBuy
    ensures m.Some? ==> forall i :: 0 <= i < |g| && !g[i].isBuy ==> m.value <= g[i].price
    ensures m.Some? ==> exists i :: 0 <= i < |g| && !g[i].isBuy && g[i].price == m.value
  {
    if |g| == 0 then None
    else
      var m := MinSell(g[..|g| - 1]);
      var o := g[|g| - 1];
      assert forall i :: 0 <= i < |g| - 1 ==> g[..|g| - 1][i] == g[i];
      if !o.isBuy && (m.None? || m.value > o.price) then Some(o.price) else m
  }

  /** The summed volume of the sell orders of g. */
  function SellVolumeTotal(g: seq<Order>): int
  {
    if |g| == 0 then 0
    else SellVolumeTotal(g[..|g| - 1]) + (if g[|g| - 1].isBuy then 0 else g[|g| - 1].volume)
  }

  /** All of g is one (station, item) group. */
  predicate OneGroup(g: seq<Order>, station: int, item: int)
  {
    forall i :: 0 <= i < |g| ==> g[i].stationId == station && g[i].typeId == item
  }

  /** Order k is the first sell order of g at price `sell`, with volume at
      most `vol`. */
  predicate FirstAtLowest(g: seq<Order>, sell: real, vol: int, k: int)
  {
    && 0 <= k < |g| && !g[k].isBuy && g[k].price == sell && g[k].volume <= vol
    && forall j :: 0 <= j < k && !g[j].isBuy ==> g[j].price > sell
  }

  /** What a group's state says about the group's orders: the best buy is
      their highest buy price, the best sell their lowest sell price, and the
      volume is at least that of the first order offering the lowest price
      and at most the whole sell volume of the group. */
  predicate Summarises(st: LoadState, g: seq<Order>)
  {
    && st.buy == MaxBuy(g)
    && st.sell == MinSell(g)
    && (st.sell.Some? ==>
          && st.sellVolume.Some?
          && 0 <= st.sellVolume.value <= SellVolumeTotal(g)
          && exists k :: 0 <= k < |g| && FirstAtLowest(g, st.sell.value, st.sellVolume.value, k))
  }

  /** Without sell orders there is no sell volume. */
  lemma {:induction false} NoSellNoVolume(g: seq<Order>)
    requires forall i :: 0 <= i < |g| ==> g[i].isBuy
    ensures SellVolumeTotal(g) == 0
  {
    if |g| > 0 {
      NoSellNoVolume(g[..|g| - 1]);
    }
  }

  /** One more order of the group keeps the summary true. */
  lemma UpdateSummarises(st: LoadState, g: seq<Order>, o: Order)
    requires st.sell.Some? <==> st.sellVolume.Some?
    requires Summarises(st, g)
    requires o.volume >= 0
    ensures Summarises(Update(st, o), g + [o])
  {
    var h := g + [o];
    assert h[..|h| - 1] == g;
    assert SellVolumeTotal(h) == SellVolumeTotal(g) + (if o.isBuy then 0 else o.volume);
    if st.sell.None? {
      NoSellNoVolume(g);
    }
    var r := Update(st, o);
    if !o.isBuy && (st.sell.None? || st.sell.value > o.price) {
      NewLowIsFirst(g, o);
      assert FirstAtLowest(h, r.sell.value, r.sellVolume.value, |g|);
    } else if r.sell.Some? {
      var k :| 0 <= k < |g| && FirstAtLowest(g, st.sell.value, st.sellVolume.value, k);
      FirstAtLowestSnoc(g, o, st.sell.value, st.sellVolume.value, k);
    }
  }

  /** A sell order strictly below the lowest earlier sell price is the first
      order at its price. */
  lemma NewLowIsFirst(g: seq<Order>, o: Order)
    requires !o.isBuy && (MinSell(g).None? || MinSell(g).value > o.price)
    ensures forall j :: 0 <= j < |g| && !(g + [o])[j].isBuy ==> (g + [o])[j].price > o.price
  {
    assert forall j :: 0 <= j < |g| ==> (g + [o])[j] == g[j];
  }

  /** Appending an order keeps a first order at the lowest price. */
  lemma FirstAtLowestSnoc(g: seq<Order>, o: Order, sell: real, vol: int, k: int)
    requires FirstAtLowest(g, sell, vol, k)
    ensures FirstAtLowest(g + [o], sell, vol, k)
  {
    assert forall j :: 0 <= j < |g| ==> (g + [o])[j] == g[j];
  }

  // ----- the sell volume within 1% of the lowest price -----

  /** Order k of g is a sell order strictly below every earlier sell order
      of g: it sets a new lowest price. */
  predicate NewLow(g: seq<Order>, k: int)
    requires 0 <= k < |g|
  {
    !g[k].isBuy && forall j :: 0 <= j < k && !g[j].isBuy ==> g[j].price > g[k].price
  }

  /** Order k sets a new lowest price more than 1% below every earlier sell
      price (or is the first sell order), so the volume count restarts. */
  predicate Restarts(g: seq<Order>, k: int)
    requires 0 <= k < |g|
  {
    NewLow(g, k) && forall j :: 0 <= j < k && !g[j].isBuy ==> g[j].price > g[k].price * 1.01
  }

  /** r is the last order of g at which the count restarted. */
  predicate LastRestart(g: seq<Order>, r: int)
  {
    0 <= r < |g| && Restarts(g, r) && forall k :: r < k < |g| ==> !Restarts(g, k)
  }

  /** The summed volume of the orders of g[r..n] that set a new lowest price. */
  function NewLowVolume(g: seq<Order>, r: int, n: int): int
    requires 0 <= n <= |g|
    decreases n
  {
    if n <= r || n == 0 then 0 else NewLowVolume(g, r, n - 1) + (if NewLow(g, n - 1) then g[n - 1].volume else 0)
  }

  /** The held volume is the volume of the orders that set a new lowest
      price since the count last restarted. */
  predicate CountsBand(st: LoadState, g: seq<Order>)
  {
    st.sell.Some? ==> exists r :: 0 <= r < |g| && LastRestart(g, r) && st.sellVolume == Some(NewLowVolume(g, r, |g|))
  }

  /** Appending an order changes nothing about the earlier orders. */
  lemma {:induction false} NewLowVolumeSnoc(g: seq<Order>, o: Order, r: int, n: int)
    requires 0 <= n <= |g|
    ensures NewLowVolume(g + [o], r, n) == NewLowVolume(g, r, n)
    ensures forall k :: 0 <= k < |g| ==> (NewLow(g + [o], k) <==> NewLow(g, k)) && (Restarts(g + [o], k) <==> Restarts(g, k))
    decreases n
  {
    var h := g + [o];
    assert forall j :: 0 <= j < |g| ==> h[j] == g[j];
    if n > r && n > 0 {
      NewLowVolumeSnoc(g, o, r, n - 1);
    }
  }

  /** Whether an appended order sets a new lowest price, and whether it
      restarts the count, in terms of the lowest earlier sell price. */
  lemma AppendedLow(g: seq<Order>, o: Order)
    ensures NewLow(g + [o], |g|) <==> !o.isBuy && (MinSell(g).None? || MinSell(g).value > o.price)
    ensures Restarts(g + [o], |g|) <==>
      !o.isBuy && (MinSell(g).None? || (MinSell(g).value > o.price && MinSell(g).value > o.price * 1.01))
  {
    var h := g + [o];
    assert forall j :: 0 <= j < |g| ==> h[j] == g[j];
    assert h[|g|] == o;
    if MinSell(g).Some? {
      var j :| 0 <= j < |g| && !g[j].isBuy && g[j].price == MinSell(g).value;
      assert h[j] == g[j];
    }
  }

  /** An appended order that does not restart the count keeps the last
      restart, and adds its volume exactly when it sets a new lowest price. */
  lemma AppendedKeepsRestart(g: seq<Order>, o: Order, r: int)
    requires LastRestart(g, r) && !Restarts(g + [o], |g|)
    ensures LastRestart(g + [o], r)
    ensures NewLowVolume(g + [o], r, |g| + 1) == NewLowVolume(g, r, |g|) + (if NewLow(g + [o], |g|) then o.volume else 0)
  {
    NewLowVolumeSnoc(g, o, r, |g|);
  }

  /** An appended order that restarts the count is the last restart, and
      its volume is all that is counted. */
  lemma AppendedRestarts(g: seq<Order>, o: Order)
    requires Restarts(g + [o], |g|)
    ensures LastRestart(g + [o], |g|)
    ensures NewLowVolume(g + [o], |g|, |g| + 1) == o.volume
  {
  }

  /** One more order of the group keeps the volume count exact: a buy order
      or a sell order not below the held price adds nothing, a new lowest
      price within 1% adds its volume, and one further below restarts the
      count at its volume. */
  lemma UpdateCountsBand(st: LoadState, g: seq<Order>, o: Order)
    requires st.sell.Some? <==> st.sellVolume.Some?
    requires st.sell == MinSell(g) && CountsBand(st, g)
    ensures CountsBand(Update(st, o), g + [o])
  {
    AppendedLow(g, o);
    if Restarts(g + [o], |g|) {
      AppendedRestarts(g, o);
      UpdateVolume(st, o, true, true);
    } else if Update(st, o).sell.Some? {
      var r :| 0 <= r < |g| && LastRestart(g, r) && st.sellVolume == Some(NewLowVolume(g, r, |g|));
      AppendedKeepsRestart(g, o, r);
      UpdateVolume(st, o, false, NewLow(g + [o], |g|));
    }
  }

  /** The volume Update leaves, given whether the order restarts the count
      and whether it sets a new lowest price. */
  lemma UpdateVolume(st: LoadState, o: Order, restarts: bool, newLow: bool)
    requires st.sell.Some? <==> st.sellVolume.Some?
    requires newLow <==> !o.isBuy && (st.sell.None? || st.sell.value > o.price)
    requires restarts <==> !o.isBuy && (st.sell.None? || (st.sell.value > o.price && st.sell.value > o.price * 1.01))
    ensures restarts ==> Update(st, o).sellVolume == Some(o.volume)
    ensures !restarts && st.sell.Some? ==> Update(st, o).sellVolume == Some(st.sellVolume.value + (if newLow then o.volume else 0))
  {
  }

  /** When the order that first offers the group's lowest price is more than
      1% below every earlier sell price, the held volume is that order's
      volume alone: later orders at the same price add nothing. */
  lemma DeepLowCountsAlone(st: LoadState, g: seq<Order>, k: int)
    requires st.sell.Some? && CountsBand(st, g)
    requires 0 <= k < |g| && Restarts(g, k) && MinSell(g) == Some(g[k].price)
    ensures st.sellVolume == Some(g[k].volume)
  {
    var r :| 0 <= r < |g| && LastRestart(g, r) && st.sellVolume == Some(NewLowVolume(g, r, |g|));
    assert r == k;
    NothingBelowLowest(g, k, |g|);
  }

  /** After the order that first offers the lowest price, no order sets a
      new lowest price. */
  lemma {:induction false} NothingBelowLowest(g: seq<Order>, k: int, n: int)
    requires 0 <= k < n <= |g| && NewLow(g, k) && MinSell(g) == Some(g[k].price)
    ensures NewLowVolume(g, k, n) == g[k].volume
    decreases n
  {
    if n > k + 1 {
      NothingBelowLowest(g, k, n - 1);
      assert !NewLow(g, n - 1);
    } else {
      assert NewLowVolume(g, k, k) == 0;
    }
  }

  /** The two cases of the 1% band on two sell orders: 9.95 is within 1% of
      10.0, so its volume is added; 9.0 is not, so the count restarts. */
  lemma BandExamples()
    ensures var a := Order(1, 1, false, 10.0, 5, None);
      var st := LoadState(Some((1, 1)), None, None, None);
      && Update(Update(st, a), Order(1, 1, false, 9.95, 3, None)).sellVolume == Some(8)
      && Update(Update(st, a), Order(1, 1, false, 9.0, 3, None)).sellVolume == Some(3)
  {
  }

  /** A group read from its first order on: it yields the previous group
      (if there was one) at its first order and nothing after, and leaves a
      state that holds the group and summarises exactly its orders. */
  lemma {:induction false} GroupIsSummarised(st: LoadState, g: seq<Order>, station: int, item: int, stations: set<int>)
    requires Valid(st) && st.group != Some((station, item))
    requires |g| > 0 && OneGroup(g, station, item) && station in stations
    requires forall i :: 0 <= i < |g| ==> g[i].volume >= 0
    ensures var r := LoadFrom(st, g, stations);
      && r.0.group == Some((station, item))
      && Summarises(r.0, g) && CountsBand(r.0, g)
      && r.1 == (if st.group.Some? then [Summary(st)] else [])
  {
    var p := g[..|g| - 1];
    var o := g[|g| - 1];
    if |p| == 0 {
      var kept := if Flushes(st, o) then LoadState(st.group, None, None, None) else st;
      assert kept.buy.None? && kept.sell.None?;
      var empty: seq<Order> := [];
      assert Summarises(kept, empty) && CountsBand(kept, empty);
      UpdateSummarises(kept.(group := Some((station, item))), empty, o);
      UpdateCountsBand(kept.(group := Some((station, item))), empty, o);
      assert empty + [o] == g;
    } else {
      assert forall i :: 0 <= i < |p| ==> p[i] == g[i];
      GroupIsSummarised(st, p, station, item, stations);
      var prev := LoadFrom(st, p, stations);
      assert !Flushes(prev.0, o);
      UpdateSummarises(prev.0.(group := Some((station, item))), p, o);
      UpdateCountsBand(prev.0.(group := Some((station, item))), p, o);
      assert p + [o] == g;
    }
  }

  /** A single order is a single step. */
  lemma LoadFromOne(st: LoadState, o: Order, stations: set<int>)
    requires Valid(st)
    ensures LoadFrom(st, [o], stations) == Step(st, o, stations)
  {
    assert [o][..0] == [];
    var step := Step(st, o, stations);
    assert [] + step.1 == step.1;
  }

  /** Appending orders continues from the state the first part left. */
  lemma {:induction false} LoadFromAppend(st: LoadState, a: seq<Order>, b: seq<Order>, stations: set<int>)
    requires Valid(st)
    ensures var ra := LoadFrom(st, a, stations);
      var rb := LoadFrom(ra.0, b, stations);
      LoadFrom(st, a + b, stations) == (rb.0, ra.1 + rb.1)
  {
    if |b| > 0 {
      var b' := b[..|b| - 1];
      LoadFromAppend(st, a, b', stations);
      assert (a + b)[..|a + b| - 1] == a + b';
      assert (a + b)[|a + b| - 1] == b[|b| - 1];
      var ra := LoadFrom(st, a, stations);
      var rb' := LoadFrom(ra.0, b', stations);
      var step := Step(rb'.0, b[|b| - 1], stations);
      assert (ra.1 + rb'.1) + step.1 == ra.1 + (rb'.1 + step.1);
    } else {
      assert a + b == a;
      var ra := LoadFrom(st, a, stations);
      assert LoadFrom(ra.0, b, stations) == (ra.0, []);
      assert ra.1 + [] == ra.1;
    }
  }

  /** The group-by: when a maximal group g of a summarised station is
      followed by an order of another group, the records yielded after that
      order are those yielded before g, then the previous group, then one
      record for g with the highest buy and lowest sell price of g and a
      volume between the first lowest-priced order's volume and g's whole
      sell volume. */
  lemma GroupYieldedOnChange(pre: seq<Order>, g: seq<Order>, o: Order, station: int, item: int, stations: set<int>)
    requires LoadFrom(Start, pre, stations).0.group != Some((station, item))
    requires |g| > 0 && OneGroup(g, station, item) && station in stations
    requires forall i :: 0 <= i < |g| ==> g[i].volume >= 0
    requires o.stationId != station || o.typeId != item
    ensures |LoadFrom(Start, pre + g + [o], stations).1| >= 1
    ensures var before := LoadFrom(Start, pre, stations);
      var out := LoadFrom(Start, pre + g + [o], stations).1;
      var last := out[|out| - 1];
      && out[..|out| - 1] == before.1 + (if before.0.group.Some? then [Summary(before.0)] else [])
      && last.typeId == item && last.stationId == station
      && last.buy == MaxBuy(g) && last.sell == MinSell(g)
      && (last.sell.Some? <==> last.sellVolume.Some?)
      && (last.sell.Some? ==>
            && 0 <= last.sellVolume.value <= SellVolumeTotal(g)
            && exists k :: 0 <= k < |g| && !g[k].isBuy && g[k].price == last.sell.value && g[k].volume <= last.sellVolume.value)
      && (last.sell.Some? ==> exists r :: LastRestart(g, r) && last.sellVolume == Some(NewLowVolume(g, r, |g|)))
  {
    var before := LoadFrom(Start, pre, stations);
    GroupIsSummarised(before.0, g, station, item, stations);
    LoadFromAppend(Start, pre, g, stations);
    LoadFromAppend(Start, pre + g, [o], stations);
    var mid := LoadFrom(before.0, g, stations);
    LoadFromOne(mid.0, o, stations);
    var out := LoadFrom(Start, pre + g + [o], stations).1;
    assert out == (before.1 + mid.1) + [Summary(mid.0)];
    assert out[|out| - 1] == Summary(mid.0) && out[..|out| - 1] == before.1 + mid.1;
  }
}

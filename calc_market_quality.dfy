/** calc_market_quality.py: how well each station's sell orders cover the
    traded basket, and how far above the best prices they sit. */
module CalcMarketQuality {
  import opened Wrappers
  import opened Tokens
  import opened Lib
  import PriceLib
  import TradeLib
  import MarketHistory

  /** A basket row of this script: the traded value and the best buy and
      sell prices across the market, "-" in the file being None. */
  datatype ItemSummary = ItemSummary(id: int, name: string, groupId: int, categoryId: int, valueTraded: real,
                                     buy: Option<real>, sell: Option<real>)

  /** A "-"-or-number cell, or None for a missing key or a ValueError. */
  function PriceCell(row: TradeLib.DictRow, key: string): Option<Option<real>>
  {
    if key !in row then None
    else match TradeLib.ParseFloat(row[key])
      case Ok(v) => Some(v)
      case Err(_) => None
  }

  /** The ItemSummary of one row; None is the KeyError/ValueError case. */
  function ParseItem(row: TradeLib.DictRow): (r: Option<ItemSummary>)
    ensures r.Some? <==>
      && TradeLib.IntCell(row, "ID").Some? && "Name" in row && TradeLib.IntCell(row, "GroupID").Some?
      && TradeLib.IntCell(row, "CategoryID").Some? && TradeLib.RealCell(row, "Value Traded").Some?
      && PriceCell(row, "Buy").Some? && PriceCell(row, "Sell").Some?
    ensures r.Some? ==>
      && r.value.id == TradeLib.IntCell(row, "ID").value && r.value.name == row["Name"]
      && r.value.valueTraded == TradeLib.RealCell(row, "Value Traded").value
      && r.value.buy == PriceCell(row, "Buy").value && r.value.sell == PriceCell(row, "Sell").value
      && (row["Sell"] == "-" ==> r.value.sell.None?)
  {
    var id, group, category := TradeLib.IntCell(row, "ID"), TradeLib.IntCell(row, "GroupID"), TradeLib.IntCell(row, "CategoryID");
    var value, buy, sell := TradeLib.RealCell(row, "Value Traded"), PriceCell(row, "Buy"), PriceCell(row, "Sell");
    if id.Some? && "Name" in row && group.Some? && category.Some? && value.Some? && buy.Some? && sell.Some? then
      Some(ItemSummary(id.value, row["Name"], group.value, category.value, value.value, buy.value, sell.value))
    else None
  }

  /** The first |items| rows convert to items, in order. */
  predicate ParsedAs(rows: seq<TradeLib.DictRow>, items: seq<ItemSummary>)
  {
    |items| <= |rows| && forall j :: 0 <= j < |items| ==> ParseItem(rows[j]) == Some(items[j])
  }

  lemma ParsedAsSnoc(rows: seq<TradeLib.DictRow>, items: seq<ItemSummary>, v: ItemSummary)
    requires ParsedAs(rows, items) && |items| < |rows| && ParseItem(rows[|items|]) == Some(v)
    ensures ParsedAs(rows, items + [v])
  {
    var longer := items + [v];
    forall j | 0 <= j < |longer| ensures ParseItem(rows[j]) == Some(longer[j]) {
      if j < |items| {
        assert longer[j] == items[j];
      } else {
        assert j == |items| && longer[j] == v;
      }
    }
  }

  /** get_most_traded_items: every row in file order, converted; the first
      row that does not convert raises RuntimeError after the earlier rows
      were yielded. */
  method GetMostTradedItems(rows: seq<TradeLib.DictRow>) returns (out: Yielded<ItemSummary>)
    ensures |out.items| <= |rows|
    ensures forall i :: 0 <= i < |out.items| ==> ParseItem(rows[i]) == Some(out.items[i])
    ensures out.failure.None? <==> forall i :: 0 <= i < |rows| ==> ParseItem(rows[i]).Some?
    ensures out.failure.None? ==> |out.items| == |rows|
    ensures out.failure.Some? ==>
              |out.items| < |rows| && ParseItem(rows[|out.items|]).None? && out.failure == Some(ParseFailure(|out.items|))
  {
    var items: seq<ItemSummary> := [];
    var i := 0;
    while i < |rows|
      invariant 0 <= i <= |rows| && |items| == i
      invariant ParsedAs(rows, items)
    {
      var item := ParseItem(rows[i]);
      if item.None? {
        return Yielded(items, Some(ParseFailure(i)));
      }
      ParsedAsSnoc(rows, items, item.value);
      items := items + [item.value];
      i := i + 1;
    }
    out := Yielded(items, None);
  }

  // ---------------------------------------------------------------------
  // weighted_mean

  /** The sum of w * v over the (weight, value) pairs. */
  function WeightedSum(d: seq<(real, real)>): real
  {
    if |d| == 0 then 0.0 else WeightedSum(d[..|d| - 1]) + d[|d| - 1].0 * d[|d| - 1].1
  }

  /** The sum of the weights. */
  function TotalWeight(d: seq<(real, real)>): real
  {
    if |d| == 0 then 0.0 else TotalWeight(d[..|d| - 1]) + d[|d| - 1].0
  }

  function ValuesOf(d: seq<(real, real)>): (vs: seq<real>)
    ensures |vs| == |d| && forall i :: 0 <= i < |d| ==> vs[i] == d[i].1
  {
    if |d| == 0 then [] else ValuesOf(d[..|d| - 1]) + [d[|d| - 1].1]
  }

  /** weighted_mean: sum(w * v) / sum(w); a zero total weight, the empty
      list included, is the ZeroDivisionError. */
  function WeightedMean(d: seq<(real, real)>): (r: Result<real>)
    ensures r.Err? <==> TotalWeight(d) == 0.0
    ensures r.Err? ==> r.failure == ZeroDivision
  {
    var total := TotalWeight(d);
    if total == 0.0 then Err(ZeroDivision) else Ok(WeightedSum(d) / total)
  }

  /** The mean is the value that, given every weight, makes up the weighted
      sum. */
  lemma WeightedMeanSolves(d: seq<(real, real)>)
    ensures WeightedMean(d).Ok? ==> WeightedMean(d).value * TotalWeight(d) == WeightedSum(d)
  {
    if TotalWeight(d) != 0.0 {
      var q := WeightedSum(d) / TotalWeight(d);
      assert q * TotalWeight(d) == WeightedSum(d);
    }
  }

  /** The pairs of values that all carry the weight w. */
  function EqualWeights(w: real, vs: seq<real>): (d: seq<(real, real)>)
    ensures |d| == |vs|
  {
    if |vs| == 0 then [] else EqualWeights(w, vs[..|vs| - 1]) + [(w, vs[|vs| - 1])]
  }

  lemma EqualWeightsPrefix(w: real, vs: seq<real>)
    requires |vs| > 0
    ensures var d := EqualWeights(w, vs);
      d[..|d| - 1] == EqualWeights(w, vs[..|vs| - 1]) && d[|d| - 1] == (w, vs[|vs| - 1])
  {
  }

  /** One more value of weight w adds w to the total weight. */
  lemma EqualWeightsTotalStep(w: real, vs: seq<real>)
    requires |vs| > 0
    ensures TotalWeight(EqualWeights(w, vs)) == TotalWeight(EqualWeights(w, vs[..|vs| - 1])) + w
  {
    EqualWeightsPrefix(w, vs);
  }

  /** One more value v of weight w adds w * v to the weighted sum. */
  lemma EqualWeightsSumStep(w: real, vs: seq<real>)
    requires |vs| > 0
    ensures WeightedSum(EqualWeights(w, vs)) == WeightedSum(EqualWeights(w, vs[..|vs| - 1])) + w * vs[|vs| - 1]
  {
    EqualWeightsPrefix(w, vs);
  }

  lemma MulSucc(t: real, tp: real, m: real, n: real, w: real)
    requires tp == m * w && t == tp + w && n == m + 1.0
    ensures t == n * w
  {
  }

  lemma MulAdd(t: real, tp: real, sp: real, s: real, v: real, w: real)
    requires tp == w * sp && t == tp + w * v && s == sp + v
    ensures t == w * s
  {
  }

  /** n values of weight w weigh n * w, n given as a real. */
  lemma {:induction false} EqualWeightTotal(w: real, vs: seq<real>, n: real)
    requires n == |vs| as real
    ensures TotalWeight(EqualWeights(w, vs)) == n * w
  {
    if |vs| > 0 {
      var p := vs[..|vs| - 1];
      var m := n - 1.0;
      var tp := TotalWeight(EqualWeights(w, p));
      var t := TotalWeight(EqualWeights(w, vs));
      assert tp == m * w by {
        EqualWeightTotal(w, p, m);
      }
      assert t == tp + w by {
        EqualWeightsTotalStep(w, vs);
      }
      MulSucc(t, tp, m, n, w);
    }
  }

  /** The weighted sum of values of weight w is w times their sum s. */
  lemma {:induction false} EqualWeightSum(w: real, vs: seq<real>, s: real)
    requires s == PriceLib.Sum(vs)
    ensures WeightedSum(EqualWeights(w, vs)) == w * s
  {
    if |vs| > 0 {
      var p := vs[..|vs| - 1];
      var sp := PriceLib.Sum(p);
      var tp := WeightedSum(EqualWeights(w, p));
      var t := WeightedSum(EqualWeights(w, vs));
      assert tp == w * sp by {
        EqualWeightSum(w, p, sp);
      }
      assert t == tp + w * vs[|vs| - 1] by {
        EqualWeightsSumStep(w, vs);
      }
      MulAdd(t, tp, sp, s, vs[|vs| - 1], w);
    }
  }

  /** With one common nonzero weight the weighted mean is the plain mean. */
  lemma WeightedMeanOfEqualWeights(w: real, vs: seq<real>)
    requires |vs| > 0 && w != 0.0
    ensures WeightedMean(EqualWeights(w, vs)) == Ok(PriceLib.Sum(vs) / |vs| as real)
  {
    var n := |vs| as real;
    var s := PriceLib.Sum(vs);
    var total := TotalWeight(EqualWeights(w, vs));
    var ws := WeightedSum(EqualWeights(w, vs));
    assert total == n * w by {
      EqualWeightTotal(w, vs, n);
    }
    assert ws == w * s by {
      EqualWeightSum(w, vs, s);
    }
    CancelWeight(total, ws, w, s, n);
  }

  lemma CancelWeight(total: real, ws: real, w: real, s: real, n: real)
    requires w != 0.0 && n != 0.0 && total == n * w && ws == w * s
    ensures total != 0.0 && ws / total == s / n
  {
    var q := s / n;
    assert q * n == s;
    assert total * q == ws;
  }

  lemma {:induction false} WeightedSumBetween(d: seq<(real, real)>, lo: real, hi: real)
    requires forall i :: 0 <= i < |d| ==> d[i].0 > 0.0 && lo <= d[i].1 <= hi
    ensures TotalWeight(d) * lo <= WeightedSum(d) <= TotalWeight(d) * hi
    ensures |d| > 0 ==> TotalWeight(d) > 0.0
  {
    if |d| > 0 {
      var p := d[..|d| - 1];
      assert forall i :: 0 <= i < |p| ==> p[i] == d[i];
      WeightedSumBetween(p, lo, hi);
      WeightedStepBetween(TotalWeight(p), WeightedSum(p), d[|d| - 1].0, d[|d| - 1].1, lo, hi);
    }
  }

  lemma WeightedStepBetween(t: real, ws: real, w: real, v: real, lo: real, hi: real)
    requires t * lo <= ws <= t * hi && w > 0.0 && lo <= v <= hi
    ensures (t + w) * lo <= ws + w * v <= (t + w) * hi
  {
    assert w * lo <= w * v <= w * hi;
  }

  /** With positive weights the weighted mean lies between any bounds of
      the values. */
  lemma WeightedMeanWithin(d: seq<(real, real)>, lo: real, hi: real)
    requires |d| > 0
    requires forall i :: 0 <= i < |d| ==> d[i].0 > 0.0 && lo <= d[i].1 <= hi
    ensures WeightedMean(d).Ok? && lo <= WeightedMean(d).value <= hi
  {
    WeightedSumBetween(d, lo, hi);
    PriceLib.ScaleBetween(TotalWeight(d), lo, WeightedSum(d), hi);
  }

  /** With positive weights the weighted mean lies between the smallest and
      the largest value. */
  lemma WeightedMeanBetween(d: seq<(real, real)>)
    requires |d| > 0
    requires forall i :: 0 <= i < |d| ==> d[i].0 > 0.0
    ensures WeightedMean(d).Ok?
    ensures PriceLib.MinOf(ValuesOf(d)) <= WeightedMean(d).value <= PriceLib.MaxOf(ValuesOf(d))
  {
    var vs := ValuesOf(d);
    WeightedMeanWithin(d, PriceLib.MinOf(vs), PriceLib.MaxOf(vs));
  }

  /** The weighted sum and the total weight of three pairs. */
  lemma ThreePairs(a: (real, real), b: (real, real), c: (real, real))
    ensures TotalWeight([a, b, c]) == a.0 + b.0 + c.0
    ensures WeightedSum([a, b, c]) == a.0 * a.1 + b.0 * b.1 + c.0 * c.1
  {
    var none: seq<(real, real)> := [];
    assert [a, b, c][..2] == [a, b] && [a, b][..1] == [a] && [a][..0] == none;
    assert TotalWeight([a]) == a.0 && WeightedSum([a]) == a.0 * a.1;
    assert TotalWeight([a, b]) == a.0 + b.0 && WeightedSum([a, b]) == a.0 * a.1 + b.0 * b.1;
  }

  /** The two cases of the unit test of weighted_mean. */
  lemma WeightedMeanExamples()
    ensures WeightedMean([(1.0, 1.0), (1.0, 2.0), (1.0, 3.0)]) == Ok(2.0)
    ensures WeightedMean([(1.0, 1.0), (2.0, 2.0), (5.0, 3.0)]) == Ok(2.5)
  {
    assert WeightedSum([(1.0, 1.0), (1.0, 2.0), (1.0, 3.0)]) == 6.0
        && TotalWeight([(1.0, 1.0), (1.0, 2.0), (1.0, 3.0)]) == 3.0 by {
      ThreePairs((1.0, 1.0), (1.0, 2.0), (1.0, 3.0));
    }
    assert WeightedSum([(1.0, 1.0), (2.0, 2.0), (5.0, 3.0)]) == 20.0
        && TotalWeight([(1.0, 1.0), (2.0, 2.0), (5.0, 3.0)]) == 8.0 by {
      ThreePairs((1.0, 1.0), (2.0, 2.0), (5.0, 3.0));
    }
  }

  // ---------------------------------------------------------------------
  // emit_station_stats

  /** One recorded item of a station: its TypeID, its traded value and the
      ratio of the station's best sell price to the market's. */
  datatype Entry = Entry(typeId: int, valueTraded: real, efficiency: real)

  /** A row of the station table before formatting: coverage as a ratio and
      inefficiency as a percentage, None being the "-" of an empty list. */
  datatype StationRow = StationRow(station: int, name: string, coverage: real, inefficiency: Option<real>)

  /** The (weight, value) pairs weighted_mean gets: traded value, efficiency. */
  function Weighted(entries: seq<Entry>): (d: seq<(real, real)>)
    ensures |d| == |entries|
    ensures forall i :: 0 <= i < |entries| ==> d[i] == (entries[i].valueTraded, entries[i].efficiency)
  {
    if |entries| == 0 then [] else Weighted(entries[..|entries| - 1]) + [(entries[|entries| - 1].valueTraded, entries[|entries| - 1].efficiency)]
  }

  /** emit_station_stats without the detail dump and CSV formatting: an
      empty basket and a zero total traded value are ZeroDivisionErrors, and
      a station without a name is "-". */
  function EmitStationStats(station: int, entries: seq<Entry>, itemCount: nat, names: map<int, string>): (r: Result<StationRow>)
    ensures r.Err? <==> itemCount == 0 || (|entries| > 0 && TotalWeight(Weighted(entries)) == 0.0)
    ensures r.Ok? ==>
      && r.value.station == station
      && r.value.coverage == |entries| as real / itemCount as real
      && r.value.name == (if station in names then names[station] else "-")
      && (r.value.inefficiency.None? <==> |entries| == 0)
      && (r.value.inefficiency.Some? ==> r.value.inefficiency.value == (WeightedMean(Weighted(entries)).value - 1.0) * 100.0)
  {
    if itemCount == 0 then Err(ZeroDivision)
    else
      var coverage := |entries| as real / itemCount as real;
      var name := if station in names then names[station] else "-";
      if |entries| > 0 then
        match WeightedMean(Weighted(entries))
        case Err(f) => Err(f)
        case Ok(mean) => Ok(StationRow(station, name, coverage, Some((mean - 1.0) * 100.0)))
      else Ok(StationRow(station, name, coverage, None))
  }

  /** With positive traded values, when every efficiency lies in [lo, hi]
      the station's inefficiency lies in [(lo - 1) * 100, (hi - 1) * 100]. */
  lemma InefficiencyBetween(station: int, entries: seq<Entry>, itemCount: nat, names: map<int, string>, lo: real, hi: real)
    requires itemCount > 0 && |entries| > 0
    requires forall i :: 0 <= i < |entries| ==> entries[i].valueTraded > 0.0 && lo <= entries[i].efficiency <= hi
    ensures var r := EmitStationStats(station, entries, itemCount, names);
      && r.Ok? && r.value.inefficiency.Some?
      && (lo - 1.0) * 100.0 <= r.value.inefficiency.value <= (hi - 1.0) * 100.0
  {
    var d := Weighted(entries);
    WeightedMeanWithin(d, lo, hi);
  }

  /** The unit test of emit_station_stats: three of four items covered, at
      15% above the best prices. */
  lemma EmitStationStatsExample()
    ensures EmitStationStats(1, [Entry(11, 5.0, 1.1), Entry(12, 1.0, 1.3), Entry(13, 2.0, 1.2)], 4,
                             map[1 := "Amo - Minmatar Fleet Market"])
         == Ok(StationRow(1, "Amo - Minmatar Fleet Market", 0.75, Some(15.0)))
  {
    var es := [Entry(11, 5.0, 1.1), Entry(12, 1.0, 1.3), Entry(13, 2.0, 1.2)];
    var d := Weighted(es);
    assert d == [(5.0, 1.1), (1.0, 1.3), (2.0, 1.2)];
    assert WeightedSum(d) == 9.2 && TotalWeight(d) == 8.0 by {
      ThreePairs((5.0, 1.1), (1.0, 1.3), (2.0, 1.2));
    }
    assert WeightedMean(d) == Ok(1.15);
  }

  // ---------------------------------------------------------------------
  // get_station_stats

  /** One yielded pair: a station and the entries recorded for it. */
  type StationStats = (int, seq<Entry>)

  /** The variables of get_station_stats between two orders: the current
      station, the pending basket item with the best sell price seen for it,
      and the entries recorded for the station so far. The item and its best
      price are always assigned together, so one Option holds both and the
      separate test of the price for None is always true when an item is
      pending. */
  datatype StatsState = StatsState(station: Option<int>, pending: Option<(int, real)>, effs: seq<Entry>)

  /** Before the first order. */
  const StatsStart: StatsState := StatsState(None, None, [])

  /** The pending item is one of the basket. */
  predicate StatsValid(st: StatsState, items: map<int, ItemSummary>)
  {
    st.pending.Some? ==> st.pending.value.0 in items
  }

  /** A station's best sell price relative to the market's: 1.0 when the
      basket has no sell price for the item, a ZeroDivisionError when that
      price is 0. */
  function Efficiency(best: real, market: Option<real>): (r: Result<real>)
    ensures r.Err? <==> market == Some(0.0)
    ensures market.None? ==> r == Ok(1.0)
    ensures r.Ok? && market.Some? ==> r.value * market.value == best
  {
    if market.None? then Ok(1.0)
    else if market.value == 0.0 then Err(ZeroDivision)
    else Ok(best / market.value)
  }

  /** Whether order x closes the pending item: as the code is written, when
      x is for another item; with `perStation`, also when x is at another
      station. */
  predicate Closes(st: StatsState, x: Order, perStation: bool)
  {
    st.pending.Some? && (st.pending.value.0 != x.typeId || (perStation && st.station != Some(x.stationId)))
  }

  /** Closing the pending item records its efficiency for the station,
      unless it is above 100 (an overpriced item counts as missing). */
  function Close(st: StatsState, items: map<int, ItemSummary>): (r: Result<StatsState>)
    requires StatsValid(st, items) && st.pending.Some?
    ensures r.Err? <==> items[st.pending.value.0].sell == Some(0.0)
    ensures r.Ok? ==> r.value.station == st.station && r.value.pending.None?
    ensures r.Ok? ==>
      var (t, best) := st.pending.value;
      var e := Efficiency(best, items[t].sell).value;
      r.value.effs == st.effs + (if e <= 100.0 then [Entry(t, items[t].valueTraded, e)] else [])
  {
    var (t, best) := st.pending.value;
    match Efficiency(best, items[t].sell)
    case Err(f) => Err(f)
    case Ok(e) =>
      Ok(StatsState(st.station, None, if e <= 100.0 then st.effs + [Entry(t, items[t].valueTraded, e)] else st.effs))
  }

  /** One iteration of the loop of get_station_stats: close the pending item,
      then on a change of station yield the previous station's entries and
      start an empty list, then let a sell order of a basket item become
      (or stay) pending with the lower of the two prices. */
  function StatsStep(st: StatsState, x: Order, items: map<int, ItemSummary>, perStation: bool): (r: Result<(StatsState, seq<StationStats>)>)
    requires StatsValid(st, items)
    ensures r.Err? <==> Closes(st, x, perStation) && items[st.pending.value.0].sell == Some(0.0)
    ensures r.Ok? ==> StatsValid(r.value.0, items) && r.value.0.station == Some(x.stationId)
    ensures r.Ok? ==> |r.value.1| == (if st.station.Some? && st.station != Some(x.stationId) then 1 else 0)
    ensures r.Ok? && |r.value.1| == 1 ==> r.value.1[0].0 == st.station.value && r.value.0.effs == []
    ensures r.Ok? ==> (r.value.0.pending.Some? <==> (x.typeId in items && !x.isBuy) || (st.pending.Some? && !Closes(st, x, perStation)))
    ensures r.Ok? && x.typeId in items && !x.isBuy ==>
      r.value.0.pending == Some((x.typeId, if st.pending.Some? && !Closes(st, x, perStation) && st.pending.value.1 <= x.price
                                           then st.pending.value.1 else x.price))
    ensures r.Ok? && !(x.typeId in items && !x.isBuy) ==> r.value.0.pending == (if Closes(st, x, perStation) then None else st.pending)
    ensures r.Ok? && |r.value.1| == 1 ==> r.value.1[0].1 == (if Closes(st, x, perStation) then Close(st, items).value.effs else st.effs)
  {
    var closed := if Closes(st, x, perStation) then Close(st, items) else Ok(st);
    match closed
    case Err(f) => Err(f)
    case Ok(c) =>
      var moved := c.station.None? || c.station.value != x.stationId;
      var out := if moved && c.station.Some? then [(c.station.value, c.effs)] else [];
      var here := if moved then StatsState(Some(x.stationId), c.pending, []) else c;
      if x.typeId in items && !x.isBuy then
        var best := if here.pending.None? || here.pending.value.1 > x.price then x.price else here.pending.value.1;
        Ok((here.(pending := Some((x.typeId, best))), out))
      else Ok((here, out))
  }

  /** Where a pass over orders ends: the state, what was yielded, and the
      index of the order at which a ZeroDivisionError was raised, if any. */
  datatype StatsRun = StatsRun(st: StatsState, emitted: seq<StationStats>, failedAt: Option<nat>)

  /** get_station_stats over `orders`: a tail-first fold of StatsStep that
      stops at the first error. */
  function StatsFrom(orders: seq<Order>, items: map<int, ItemSummary>, perStation: bool): (r: StatsRun)
    ensures StatsValid(r.st, items)
    ensures r.failedAt.Some? ==> r.failedAt.value < |orders|
    ensures r.failedAt.None? && |orders| > 0 ==> r.st.station == Some(orders[|orders| - 1].stationId)
    ensures r.failedAt.None? && |orders| > 0 && r.st.pending.Some? ==> r.st.pending.value.0 == orders[|orders| - 1].typeId
  {
    if |orders| == 0 then StatsRun(StatsStart, [], None)
    else
      var prev := StatsFrom(orders[..|orders| - 1], items, perStation);
      if prev.failedAt.Some? then prev
      else match StatsStep(prev.st, orders[|orders| - 1], items, perStation)
        case Err(_) => StatsRun(prev.st, prev.emitted, Some(|orders| - 1))
        case Ok((next, out)) => StatsRun(next, prev.emitted + out, None)
  }

  /** The state held in the local variables of get_station_stats. */
  function StateOf(station: Option<int>, curType: Option<int>, best: Option<real>, effs: seq<Entry>): StatsState
    requires curType.Some? <==> best.Some?
  {
    StatsState(station, if curType.Some? then Some((curType.value, best.value)) else None, effs)
  }

  /** The body of the loop of get_station_stats for one order x, on its local
      variables: what it yields, and whether it raised ZeroDivisionError. */
  method StationStatsBody(station: Option<int>, curType: Option<int>, best: Option<real>, effs: seq<Entry>,
                          x: Order, items: map<int, ItemSummary>)
    returns (station': Option<int>, curType': Option<int>, best': Option<real>, effs': seq<Entry>,
             emit: seq<StationStats>, failed: bool)
    requires curType.Some? <==> best.Some?
    requires curType.Some? ==> curType.value in items
    ensures var r := StatsStep(StateOf(station, curType, best, effs), x, items, false);
      && (failed <==> r.Err?)
      && (!failed ==> (curType'.Some? <==> best'.Some?) && r.value == (StateOf(station', curType', best', effs'), emit))
  {
    ghost var before := StateOf(station, curType, best, effs);
    station', curType', best', effs' := station, curType, best, effs;
    emit := [];
    failed := false;
    if curType'.Some? && curType'.value != x.typeId {
      if best'.Some? {
        var market := items[curType'.value].sell;
        var efficiency: real;
        if market.None? {
          efficiency := 1.0;
        } else if market.value == 0.0 {
          failed := true;
          return;
        } else {
          efficiency := best'.value / market.value;
        }
        assert Efficiency(best'.value, market) == Ok(efficiency);
        if efficiency <= 100.0 {
          effs' := effs' + [Entry(curType'.value, items[curType'.value].valueTraded, efficiency)];
        }
      }
      best' := None;
      curType' := None;
      assert Close(before, items) == Ok(StateOf(station', curType', best', effs'));
    }
    ghost var closed := StateOf(station', curType', best', effs');
    if station'.None? || station'.value != x.stationId {
      if station'.Some? {
        emit := [(station'.value, effs')];
      }
      effs' := [];
      station' := Some(x.stationId);
    }
    ghost var here := StatsState(station', closed.pending, effs');
    if x.typeId in items && !x.isBuy {
      curType' := Some(x.typeId);
      if best'.None? || best'.value > x.price {
        best' := Some(x.price);
      }
    }
    StatsStepUnfold(before, x, items, closed, here, StateOf(station', curType', best', effs'), emit);
  }

  /** What get_station_stats yields over the stream of read_orderset when
      the accumulator starts with batch id `held`, and how many records the
      accumulator has observed when it stops. The orders are those of
      read_orderset_filter (see Lib.FilterOf), each processed before the
      accumulator observes it: a ZeroDivisionError at an order stops
      everything before that order is observed; otherwise the stream ends as
      read_orderset_filter's does. */
  function StationStatsOutcome(stream: Yielded<Record>, held: Option<int>, items: map<int, ItemSummary>): (r: (Yielded<StationStats>, nat))
    ensures r.1 <= |stream.items|
    ensures r.0.failure == Some(ZeroDivision) || r.0.failure == FilterOf(held, stream).failure
    ensures r.0.failure.None? ==> r.1 == |stream.items| && stream.failure.None?
  {
    var filtered := FilterOf(held, stream);
    var run := StatsFrom(filtered.items, items, false);
    if run.failedAt.Some? then (Yielded(run.emitted, Some(ZeroDivision)), run.failedAt.value)
    else (Yielded(run.emitted, filtered.failure), FirstConflict(held, stream.items, 0))
  }

  /** get_station_stats, with the accumulator of read_orderset_filter: it
      yields StationStatsOutcome, and the accumulator holds what the records
      it observed leave in it. */
  method GetStationStats(rows: seq<seq<string>>, decodeDate: string -> Option<Timestamp>, items: map<int, ItemSummary>,
                         info: OrdersetInfo)
    returns (out: Yielded<StationStats>)
    modifies info
    ensures var stream := ReadOrderset(rows, decodeDate);
      var (expected, m) := StationStatsOutcome(stream, old(info.orderset), items);
      && out == expected
      && info.orderset == BatchFrom(old(info.orderset), stream.items[..m])
      && info.date == DateFrom(old(info.date), stream.items[..m])
  {
    var stream := ReadOrderset(rows, decodeDate);
    ghost var held, since := info.orderset, info.date;
    var currentStation: Option<int> := None;
    var currentType: Option<int> := None;
    var currentBest: Option<real> := None;
    var efficiencies: seq<Entry> := [];
    var yielded: seq<StationStats> := [];
    var i := 0;
    while i < |stream.items|
      invariant 0 <= i <= |stream.items|
      invariant FirstConflict(held, stream.items, 0) == FirstConflict(held, stream.items, i)
      invariant currentType.Some? <==> currentBest.Some?
      invariant StatsFrom(OrdersOf(stream.items[..i]), items, false) ==
        StatsRun(StateOf(currentStation, currentType, currentBest, efficiencies), yielded, None)
      invariant info.orderset == BatchFrom(held, stream.items[..i])
      invariant info.date == DateFrom(since, stream.items[..i])
    {
      var (x, batch) := stream.items[i];
      ghost var before := StateOf(currentStation, currentType, currentBest, efficiencies);
      var emit, failed;
      currentStation, currentType, currentBest, efficiencies, emit, failed :=
        StationStatsBody(currentStation, currentType, currentBest, efficiencies, x, items);
      if failed {
        StatsFailsAt(stream.items, i, items, before, yielded);
        StatsFailureReached(stream, held, i, items);
        return Yielded(yielded, Some(ZeroDivision));
      }
      StatsAdvance(stream.items, i, items, before, yielded, StateOf(currentStation, currentType, currentBest, efficiencies), emit);
      yielded := yielded + emit;
      var prior := info.orderset;
      var ok := info.Observe(x, batch);
      if !ok {
        StatsBatchMismatchReached(stream, held, i, items);
        return Yielded(yielded, Some(BatchMismatch(prior.value, batch)));
      }
      ObserveAdvances(held, since, stream.items, i);
      i := i + 1;
    }
    StatsStreamEnd(stream, held, items);
    out := Yielded(yielded, stream.failure);
  }

  /** StatsStep taken apart at the points where the loop body of
      get_station_stats has finished closing the pending item, moving to the
      order's station, and updating the pending item. */
  lemma StatsStepUnfold(st: StatsState, x: Order, items: map<int, ItemSummary>, closed: StatsState, here: StatsState,
                        after: StatsState, out: seq<StationStats>)
    requires StatsValid(st, items)
    requires Closes(st, x, false) ==> Close(st, items) == Ok(closed)
    requires !Closes(st, x, false) ==> closed == st
    requires var moved := closed.station.None? || closed.station.value != x.stationId;
      && here == (if moved then StatsState(Some(x.stationId), closed.pending, []) else closed)
      && out == (if moved && closed.station.Some? then [(closed.station.value, closed.effs)] else [])
    requires x.typeId in items && !x.isBuy ==>
      after == here.(pending := Some((x.typeId, if here.pending.None? || here.pending.value.1 > x.price then x.price else here.pending.value.1)))
    requires !(x.typeId in items && !x.isBuy) ==> after == here
    ensures StatsStep(st, x, items, false) == Ok((after, out))
  {
  }

  /** One more record extends the pass by one StatsStep. */
  lemma StatsFromExtend(recs: seq<Record>, i: nat, items: map<int, ItemSummary>, perStation: bool)
    requires i < |recs|
    ensures var prev := StatsFrom(OrdersOf(recs[..i]), items, perStation);
      var r := StatsFrom(OrdersOf(recs[..i + 1]), items, perStation);
      && (prev.failedAt.Some? ==> r == prev)
      && (prev.failedAt.None? ==>
            match StatsStep(prev.st, recs[i].0, items, perStation)
            case Err(_) => r == StatsRun(prev.st, prev.emitted, Some(i))
            case Ok((next, out)) => r == StatsRun(next, prev.emitted + out, None))
  {
    var orders := OrdersOf(recs[..i + 1]);
    assert recs[..i + 1][..i] == recs[..i];
    assert orders[..i] == OrdersOf(recs[..i]) && orders[i] == recs[i].0;
  }

  /** A successful step at record i extends a pass that had not failed. */
  lemma StatsAdvance(recs: seq<Record>, i: nat, items: map<int, ItemSummary>, st: StatsState, emitted: seq<StationStats>,
                     next: StatsState, out: seq<StationStats>)
    requires i < |recs|
    requires StatsFrom(OrdersOf(recs[..i]), items, false) == StatsRun(st, emitted, None)
    requires StatsStep(st, recs[i].0, items, false) == Ok((next, out))
    ensures StatsFrom(OrdersOf(recs[..i + 1]), items, false) == StatsRun(next, emitted + out, None)
  {
    StatsFromExtend(recs, i, items, false);
  }

  /** A failed step at record i stops a pass that had not failed there. */
  lemma StatsFailsAt(recs: seq<Record>, i: nat, items: map<int, ItemSummary>, st: StatsState, emitted: seq<StationStats>)
    requires i < |recs|
    requires StatsFrom(OrdersOf(recs[..i]), items, false) == StatsRun(st, emitted, None)
    requires StatsStep(st, recs[i].0, items, false).Err?
    ensures StatsFrom(OrdersOf(recs[..i + 1]), items, false) == StatsRun(st, emitted, Some(i))
  {
    StatsFromExtend(recs, i, items, false);
  }

  /** Up to the first failed assertion, the filtered orders are the stream's. */
  lemma FilteredPrefix(stream: Yielded<Record>, held: Option<int>, i: nat)
    requires i < |stream.items| && i <= FirstConflict(held, stream.items, 0)
    ensures var filtered := FilterOf(held, stream);
      i < |filtered.items| && filtered.items[..i + 1] == OrdersOf(stream.items[..i + 1])
  {
    var m := |FilterOf(held, stream).items|;
    FilterCovers(held, stream, i);
    OrdersOfCommonPrefix(stream.items[..m], stream.items, i + 1);
  }

  /** The filtered stream reaches every record up to the first failed
      assertion. */
  lemma FilterCovers(held: Option<int>, stream: Yielded<Record>, i: nat)
    requires i < |stream.items| && i <= FirstConflict(held, stream.items, 0)
    ensures i < |FilterOf(held, stream).items|
  {
  }

  /** Two record lists that agree on their first n records have orders
      that agree there too. */
  lemma OrdersOfCommonPrefix(recs: seq<Record>, longer: seq<Record>, n: nat)
    requires n <= |recs| <= |longer| && recs == longer[..|recs|]
    ensures OrdersOf(recs)[..n] == OrdersOf(longer[..n])
  {
    assert recs[..n] == longer[..n];
    OrdersOfPrefix(recs, n);
  }

  /** Once a pass has failed, later orders change nothing. */
  lemma {:induction false} StatsSticky(orders: seq<Order>, n: nat, items: map<int, ItemSummary>, perStation: bool)
    requires n <= |orders|
    requires StatsFrom(orders[..n], items, perStation).failedAt.Some?
    ensures StatsFrom(orders, items, perStation) == StatsFrom(orders[..n], items, perStation)
    decreases |orders|
  {
    if n < |orders| {
      var p := orders[..|orders| - 1];
      assert p[..n] == orders[..n];
      StatsSticky(p, n, items, perStation);
    } else {
      assert orders[..n] == orders;
    }
  }

  /** The ZeroDivisionError at order i is the outcome. */
  lemma StatsFailureReached(stream: Yielded<Record>, held: Option<int>, i: nat, items: map<int, ItemSummary>)
    requires i < |stream.items| && FirstConflict(held, stream.items, 0) == FirstConflict(held, stream.items, i)
    requires StatsFrom(OrdersOf(stream.items[..i + 1]), items, false).failedAt == Some(i)
    ensures StationStatsOutcome(stream, held, items) ==
      (Yielded(StatsFrom(OrdersOf(stream.items[..i + 1]), items, false).emitted, Some(ZeroDivision)), i)
  {
    FilteredPrefix(stream, held, i);
    StatsSticky(FilterOf(held, stream).items, i + 1, items, false);
  }

  /** The failed assertion at order i is the outcome. */
  lemma StatsBatchMismatchReached(stream: Yielded<Record>, held: Option<int>, i: nat, items: map<int, ItemSummary>)
    requires i < |stream.items| && FirstConflict(held, stream.items, 0) == FirstConflict(held, stream.items, i)
    requires !Consistent(BatchFrom(held, stream.items[..i]), stream.items[i].1)
    requires StatsFrom(OrdersOf(stream.items[..i + 1]), items, false).failedAt.None?
    ensures StationStatsOutcome(stream, held, items) ==
      (Yielded(StatsFrom(OrdersOf(stream.items[..i + 1]), items, false).emitted,
               Some(BatchMismatch(BatchFrom(held, stream.items[..i]).value, stream.items[i].1))), i)
  {
    assert FirstConflict(held, stream.items, 0) == i;
    assert FilterOf(held, stream) ==
      Yielded(OrdersOf(stream.items[..i + 1]), Some(BatchMismatch(BatchFrom(held, stream.items[..i]).value, stream.items[i].1)));
  }

  /** The end of the stream is the outcome. */
  lemma StatsStreamEnd(stream: Yielded<Record>, held: Option<int>, items: map<int, ItemSummary>)
    requires FirstConflict(held, stream.items, 0) == FirstConflict(held, stream.items, |stream.items|)
    requires StatsFrom(OrdersOf(stream.items[..|stream.items|]), items, false).failedAt.None?
    ensures StationStatsOutcome(stream, held, items) ==
      (Yielded(StatsFrom(OrdersOf(stream.items[..|stream.items|]), items, false).emitted, stream.failure), |stream.items|)
  {
    assert stream.items[..|stream.items|] == stream.items;
  }

  // ----- what get_station_stats yields -----

  /** A ZeroDivisionError needs a basket item whose market sell price is 0. */
  lemma {:induction false} FailureNeedsZeroPrice(orders: seq<Order>, items: map<int, ItemSummary>, perStation: bool)
    ensures StatsFrom(orders, items, perStation).failedAt.Some? ==> exists t :: t in items && items[t].sell == Some(0.0)
  {
    if |orders| > 0 {
      FailureNeedsZeroPrice(orders[..|orders| - 1], items, perStation);
    }
  }

  /** The station id of every order, in order. */
  function StationIdsOf(orders: seq<Order>): (r: seq<int>)
    ensures |r| == |orders| && forall i :: 0 <= i < |orders| ==> r[i] == orders[i].stationId
  {
    if |orders| == 0 then [] else StationIdsOf(orders[..|orders| - 1]) + [orders[|orders| - 1].stationId]
  }

  /** The stations of the yielded pairs, in order. */
  function StationsOf(out: seq<StationStats>): (r: seq<int>)
    ensures |r| == |out| && forall i :: 0 <= i < |out| ==> r[i] == out[i].0
  {
    if |out| == 0 then [] else StationsOf(out[..|out| - 1]) + [out[|out| - 1].0]
  }

  /** A sequence with every run of equal neighbours collapsed to one element. */
  function Runs(s: seq<int>): (r: seq<int>)
    ensures |r| <= |s| && (|r| == 0 <==> |s| == 0)
    ensures |s| > 0 ==> r[0] == s[0] && r[|r| - 1] == s[|s| - 1]
    ensures forall i :: 0 <= i < |r| - 1 ==> r[i] != r[i + 1]
  {
    if |s| == 0 then []
    else
      var p := Runs(s[..|s| - 1]);
      if |p| > 0 && p[|p| - 1] == s[|s| - 1] then p else p + [s[|s| - 1]]
  }

  lemma RunsExtend(s: seq<int>, v: int)
    ensures Runs(s + [v]) == if |s| > 0 && s[|s| - 1] == v then Runs(s) else Runs(s) + [v]
  {
    assert (s + [v])[..|s|] == s;
  }

  /** The group-by on stations: each run of orders of one station is yielded
      once, in order, when the next run begins, and the run in progress is
      not yielded (with the terminator last, that is the terminator's own). */
  lemma {:induction false} StationsYieldedByRuns(orders: seq<Order>, items: map<int, ItemSummary>, perStation: bool)
    requires |orders| > 0
    ensures var r := StatsFrom(orders, items, perStation);
      r.failedAt.None? ==> StationsOf(r.emitted) + [r.st.station.value] == Runs(StationIdsOf(orders))
  {
    if |orders| > 1 {
      StationsYieldedByRuns(orders[..|orders| - 1], items, perStation);
    }
    RunsStep(orders, items, perStation);
  }

  lemma RunsStep(orders: seq<Order>, items: map<int, ItemSummary>, perStation: bool)
    requires |orders| > 0
    requires var prev := StatsFrom(orders[..|orders| - 1], items, perStation);
      |orders| > 1 && prev.failedAt.None? ==>
        StationsOf(prev.emitted) + [prev.st.station.value] == Runs(StationIdsOf(orders[..|orders| - 1]))
    ensures var r := StatsFrom(orders, items, perStation);
      r.failedAt.None? ==> StationsOf(r.emitted) + [r.st.station.value] == Runs(StationIdsOf(orders))
  {
    var p := orders[..|orders| - 1];
    var x := orders[|orders| - 1];
    var prev := StatsFrom(p, items, perStation);
    assert StationIdsOf(orders) == StationIdsOf(p) + [x.stationId];
    StatsFromSnoc(orders, items, perStation);
    var r := StatsFrom(orders, items, perStation);
    if r.failedAt.None? {
      var step := StatsStep(prev.st, x, items, perStation).value;
      if |p| == 0 {
        assert prev == StatsRun(StatsStart, [], None);
      }
      RunsCombine(StationIdsOf(p), prev.emitted, prev.st.station, step.1, x.stationId);
    }
  }

  /** The sequence part of RunsStep. */
  lemma RunsCombine(ids: seq<int>, emitted: seq<StationStats>, station: Option<int>, out: seq<StationStats>, v: int)
    requires |ids| == 0 ==> emitted == [] && station.None?
    requires |ids| > 0 ==> station == Some(ids[|ids| - 1]) && StationsOf(emitted) + [station.value] == Runs(ids)
    requires |out| == (if station.Some? && station != Some(v) then 1 else 0)
    requires |out| == 1 ==> out[0].0 == station.value
    ensures StationsOf(emitted + out) + [v] == Runs(ids + [v])
  {
    RunsExtend(ids, v);
    StationsOfAppend(emitted, out);
    if |out| == 1 {
      assert StationsOf(out) == [station.value];
    } else {
      assert out == [];
    }
  }

  lemma StationsOfAppend(a: seq<StationStats>, b: seq<StationStats>)
    ensures StationsOf(a + b) == StationsOf(a) + StationsOf(b)
  {
  }

  /** The last order of a pass without failure is one successful step. */
  lemma StatsFromSnoc(orders: seq<Order>, items: map<int, ItemSummary>, perStation: bool)
    requires |orders| > 0
    ensures var prev := StatsFrom(orders[..|orders| - 1], items, perStation);
      var r := StatsFrom(orders, items, perStation);
      r.failedAt.None? ==>
        && prev.failedAt.None?
        && StatsStep(prev.st, orders[|orders| - 1], items, perStation).Ok?
        && r.st == StatsStep(prev.st, orders[|orders| - 1], items, perStation).value.0
        && r.emitted == prev.emitted + StatsStep(prev.st, orders[|orders| - 1], items, perStation).value.1
  {
  }

  /** Where an entry must have come from: nowhere in particular, or the
      given station when entries are attributed per station. */
  function Where(perStation: bool, station: Option<int>): Option<int>
  {
    if perStation then station else None
  }

  /** Entry e was recorded from a sell order of its item among `orders`, at
      station `at` when one is given: its traded value is the basket's, and
      its efficiency is that order's price relative to the market's best
      sell, at most 100. */
  predicate Sourced(e: Entry, orders: seq<Order>, items: map<int, ItemSummary>, at: Option<int>)
  {
    && e.typeId in items && e.valueTraded == items[e.typeId].valueTraded && e.efficiency <= 100.0
    && exists j :: && 0 <= j < |orders| && orders[j].typeId == e.typeId && !orders[j].isBuy
                   && (at.Some? ==> orders[j].stationId == at.value)
                   && Efficiency(orders[j].price, items[e.typeId].sell) == Ok(e.efficiency)
  }

  /** The pending item and its best price are those of a sell order among
      `orders`, at station `at` when one is given. */
  predicate PendingSourced(st: StatsState, orders: seq<Order>, at: Option<int>)
  {
    st.pending.Some? ==>
      exists j :: && 0 <= j < |orders| && orders[j].typeId == st.pending.value.0 && !orders[j].isBuy
                  && orders[j].price == st.pending.value.1 && (at.Some? ==> orders[j].stationId == at.value)
  }

  /** Everything a state holds came from `orders`. */
  predicate StateSourced(st: StatsState, orders: seq<Order>, items: map<int, ItemSummary>, perStation: bool)
  {
    && (forall i :: 0 <= i < |st.effs| ==> Sourced(st.effs[i], orders, items, Where(perStation, st.station)))
    && PendingSourced(st, orders, Where(perStation, st.station))
  }

  /** Every entry of every yielded pair came from `orders`. */
  predicate EmittedSourced(out: seq<StationStats>, orders: seq<Order>, items: map<int, ItemSummary>, perStation: bool)
  {
    forall k, i :: 0 <= k < |out| && 0 <= i < |out[k].1| ==> Sourced(out[k].1[i], orders, items, Where(perStation, Some(out[k].0)))
  }

  lemma SourcedGrows(e: Entry, p: seq<Order>, x: Order, items: map<int, ItemSummary>, at: Option<int>)
    requires Sourced(e, p, items, at)
    ensures Sourced(e, p + [x], items, at)
  {
    var j :| && 0 <= j < |p| && p[j].typeId == e.typeId && !p[j].isBuy && (at.Some? ==> p[j].stationId == at.value)
             && Efficiency(p[j].price, items[e.typeId].sell) == Ok(e.efficiency);
    assert (p + [x])[j] == p[j];
  }

  lemma PendingGrows(st: StatsState, p: seq<Order>, x: Order, at: Option<int>)
    requires PendingSourced(st, p, at)
    ensures PendingSourced(st, p + [x], at)
  {
    if st.pending.Some? {
      var j :| && 0 <= j < |p| && p[j].typeId == st.pending.value.0 && !p[j].isBuy
               && p[j].price == st.pending.value.1 && (at.Some? ==> p[j].stationId == at.value);
      assert (p + [x])[j] == p[j];
    }
  }

  /** Closing a sourced pending item records a sourced entry. */
  lemma CloseSourced(st: StatsState, p: seq<Order>, x: Order, items: map<int, ItemSummary>, perStation: bool)
    requires StatsValid(st, items) && st.pending.Some? && Close(st, items).Ok?
    requires StateSourced(st, p, items, perStation)
    ensures var c := Close(st, items).value;
      forall i :: 0 <= i < |c.effs| ==> Sourced(c.effs[i], p + [x], items, Where(perStation, st.station))
  {
    var c := Close(st, items).value;
    var at := Where(perStation, st.station);
    var (t, best) := st.pending.value;
    var j :| && 0 <= j < |p| && p[j].typeId == t && !p[j].isBuy
             && p[j].price == best && (at.Some? ==> p[j].stationId == at.value);
    assert (p + [x])[j] == p[j];
    forall i | 0 <= i < |c.effs| ensures Sourced(c.effs[i], p + [x], items, at) {
      if i < |st.effs| {
        assert c.effs[i] == st.effs[i];
        SourcedGrows(st.effs[i], p, x, items, at);
      }
    }
  }

  /** One step keeps everything sourced. */
  lemma StepSourced(st: StatsState, p: seq<Order>, x: Order, items: map<int, ItemSummary>, perStation: bool)
    requires StatsValid(st, items) && StatsStep(st, x, items, perStation).Ok?
    requires StateSourced(st, p, items, perStation)
    ensures var r := StatsStep(st, x, items, perStation).value;
      && StateSourced(r.0, p + [x], items, perStation)
      && EmittedSourced(r.1, p + [x], items, perStation)
  {
    var r := StatsStep(st, x, items, perStation).value;
    var closes := Closes(st, x, perStation);
    var c := if closes then Close(st, items).value else st;
    var at := Where(perStation, st.station);
    if closes {
      CloseSourced(st, p, x, items, perStation);
    } else {
      forall i | 0 <= i < |st.effs| ensures Sourced(st.effs[i], p + [x], items, at) {
        SourcedGrows(st.effs[i], p, x, items, at);
      }
      PendingGrows(st, p, x, at);
    }
    assert forall i :: 0 <= i < |c.effs| ==> Sourced(c.effs[i], p + [x], items, at);
    assert PendingSourced(c, p + [x], at);
    var moved := c.station.None? || c.station.value != x.stationId;
    var here := if moved then StatsState(Some(x.stationId), c.pending, []) else c;
    if moved && perStation {
      assert c.pending.None?;
    }
    assert PendingSourced(here, p + [x], Where(perStation, here.station));
    if x.typeId in items && !x.isBuy {
      var n := |p|;
      assert (p + [x])[n] == x;
      if here.pending.Some? && here.pending.value.1 <= x.price {
        assert r.0.pending == here.pending;
      }
    }
  }

  lemma EmittedSourcedAppend(a: seq<StationStats>, b: seq<StationStats>, orders: seq<Order>, items: map<int, ItemSummary>, perStation: bool)
    requires EmittedSourced(a, orders, items, perStation) && EmittedSourced(b, orders, items, perStation)
    ensures EmittedSourced(a + b, orders, items, perStation)
  {
    var all := a + b;
    forall k, i | 0 <= k < |all| && 0 <= i < |all[k].1|
      ensures Sourced(all[k].1[i], orders, items, Where(perStation, Some(all[k].0)))
    {
      if k >= |a| {
        assert all[k] == b[k - |a|];
      }
    }
  }

  /** Provenance: every entry yielded, or held for the current station, was
      recorded from a sell order of a basket item with the basket's traded
      value and an efficiency of at most 100; with entries attributed per
      station, that order is at the station the entry is listed under. */
  lemma {:induction false} EntriesAreSourced(orders: seq<Order>, items: map<int, ItemSummary>, perStation: bool)
    ensures var r := StatsFrom(orders, items, perStation);
      StateSourced(r.st, orders, items, perStation) && EmittedSourced(r.emitted, orders, items, perStation)
  {
    if |orders| > 0 {
      var p := orders[..|orders| - 1];
      var x := orders[|orders| - 1];
      assert p + [x] == orders;
      EntriesAreSourced(p, items, perStation);
      var prev := StatsFrom(p, items, perStation);
      forall k, i | 0 <= k < |prev.emitted| && 0 <= i < |prev.emitted[k].1|
        ensures Sourced(prev.emitted[k].1[i], orders, items, Where(perStation, Some(prev.emitted[k].0)))
      {
        SourcedGrows(prev.emitted[k].1[i], p, x, items, Where(perStation, Some(prev.emitted[k].0)));
      }
      if prev.failedAt.None? {
        match StatsStep(prev.st, x, items, perStation)
        case Err(_) =>
          forall i | 0 <= i < |prev.st.effs|
            ensures Sourced(prev.st.effs[i], orders, items, Where(perStation, prev.st.station))
          {
            SourcedGrows(prev.st.effs[i], p, x, items, Where(perStation, prev.st.station));
          }
          PendingGrows(prev.st, p, x, Where(perStation, prev.st.station));
        case Ok((next, out)) =>
          StepSourced(prev.st, p, x, items, perStation);
          EmittedSourcedAppend(prev.emitted, out, orders, items, perStation);
      } else {
        forall i | 0 <= i < |prev.st.effs|
          ensures Sourced(prev.st.effs[i], orders, items, Where(perStation, prev.st.station))
        {
          SourcedGrows(prev.st.effs[i], p, x, items, Where(perStation, prev.st.station));
        }
        PendingGrows(prev.st, p, x, Where(perStation, prev.st.station));
      }
    }
  }

  /** The terminator closes the last real station: when its item is not in
      the basket and the last order is at another station than the
      terminator's, the pending item is recorded and the last station is
      yielded with it, and nothing is left held. */
  lemma TerminatorFlushesLastStation(orders: seq<Order>, items: map<int, ItemSummary>, perStation: bool)
    requires Terminator.typeId !in items
    requires |orders| > 0 && orders[|orders| - 1].stationId != Terminator.stationId
    ensures var prev := StatsFrom(orders, items, perStation);
      var r := StatsFrom(orders + [Terminator], items, perStation);
      r.failedAt.None? ==>
        && r.st.pending.None? && r.st.effs == []
        && |r.emitted| == |prev.emitted| + 1 && r.emitted[..|prev.emitted|] == prev.emitted
        && r.emitted[|prev.emitted|].0 == orders[|orders| - 1].stationId
        && r.emitted[|prev.emitted|].1 == (if prev.st.pending.Some? then Close(prev.st, items).value.effs else prev.st.effs)
  {
    var all := orders + [Terminator];
    assert all[..|all| - 1] == orders;
    StatsFromSnoc(all, items, perStation);
    var prev := StatsFrom(orders, items, perStation);
    var r := StatsFrom(all, items, perStation);
    if r.failedAt.None? {
      assert prev.failedAt.None?;
      assert (prev.emitted + StatsStep(prev.st, Terminator, items, perStation).value.1)[..|prev.emitted|] == prev.emitted;
    }
  }

  /** A run of orders of one TypeID (and, when entries are attributed per
      station, at one station) that starts a new item. */
  predicate IsRunAfter(p: seq<Order>, g: seq<Order>, perStation: bool)
  {
    && |g| > 0
    && (forall j :: 0 <= j < |g| ==> g[j].typeId == g[0].typeId)
    && (perStation ==> forall j :: 0 <= j < |g| ==> g[j].stationId == g[0].stationId)
    && (|p| == 0 || p[|p| - 1].typeId != g[0].typeId || (perStation && p[|p| - 1].stationId != g[0].stationId))
  }

  /** After a run of a basket item, the item is pending with the lowest
      price among the run's sell orders; with no sell order in the run, or
      for an item outside the basket, nothing is pending. */
  lemma {:induction false} RunHoldsLowest(p: seq<Order>, g: seq<Order>, items: map<int, ItemSummary>, perStation: bool)
    requires IsRunAfter(p, g, perStation)
    ensures var r := StatsFrom(p + g, items, perStation);
      var low := MarketHistory.MinSell(g);
      r.failedAt.None? ==>
        r.st.pending == (if g[0].typeId in items && low.Some? then Some((g[0].typeId, low.value)) else None)
  {
    var all := p + g;
    var x := g[|g| - 1];
    var g' := g[..|g| - 1];
    assert all[..|all| - 1] == p + g' && all[|all| - 1] == x;
    StatsFromSnoc(all, items, perStation);
    if StatsFrom(all, items, perStation).failedAt.None? {
      if |g| > 1 {
        assert IsRunAfter(p, g', perStation);
        RunHoldsLowest(p, g', items, perStation);
      }
      RunBeforeLast(p, g, items, perStation);
      RunStep(StatsFrom(p + g', items, perStation).st, x, items, perStation, MarketHistory.MinSell(g'));
    }
  }

  /** Before the last order of a run, either nothing of the run is held
      yet, or the run so far is pending and the last order keeps it. */
  lemma RunBeforeLast(p: seq<Order>, g: seq<Order>, items: map<int, ItemSummary>, perStation: bool)
    requires IsRunAfter(p, g, perStation)
    requires |g| > 1 ==>
      var r := StatsFrom(p + g[..|g| - 1], items, perStation);
      var low := MarketHistory.MinSell(g[..|g| - 1]);
      r.failedAt.None? ==>
        r.st.pending == (if g[0].typeId in items && low.Some? then Some((g[0].typeId, low.value)) else None)
    ensures var x := g[|g| - 1];
      var r := StatsFrom(p + g[..|g| - 1], items, perStation);
      var low := MarketHistory.MinSell(g[..|g| - 1]);
      r.failedAt.None? ==>
        || (low.None? && (r.st.pending.None? || Closes(r.st, x, perStation)))
        || (!Closes(r.st, x, perStation) && r.st.pending == (if x.typeId in items && low.Some? then Some((x.typeId, low.value)) else None))
    ensures var x := g[|g| - 1];
      var low := MarketHistory.MinSell(g[..|g| - 1]);
      MarketHistory.MinSell(g) == (if !x.isBuy && (low.None? || low.value > x.price) then Some(x.price) else low)
  {
    var g' := g[..|g| - 1];
    if |g| == 1 {
      assert p + g' == p;
    } else {
      assert g'[|g'| - 1] == g[|g| - 2] && (p + g')[|p + g'| - 1] == g'[|g'| - 1];
    }
  }

  /** One order of a run: the pending price becomes the lower of the held
      one and the order's, as MarketHistory.MinSell extends its minimum. */
  lemma RunStep(st: StatsState, x: Order, items: map<int, ItemSummary>, perStation: bool, low: Option<real>)
    requires StatsValid(st, items) && StatsStep(st, x, items, perStation).Ok?
    requires (low.None? && (st.pending.None? || Closes(st, x, perStation)))
          || (!Closes(st, x, perStation) && st.pending == (if x.typeId in items && low.Some? then Some((x.typeId, low.value)) else None))
    ensures var low' := if !x.isBuy && (low.None? || low.value > x.price) then Some(x.price) else low;
      StatsStep(st, x, items, perStation).value.0.pending ==
        (if x.typeId in items && low'.Some? then Some((x.typeId, low'.value)) else None)
  {
  }

  /** The order after a run closes it: when the run held a basket item, its
      entry (the run's lowest sell price relative to the market's, if at
      most 100) is appended to the list of the station of the run's last
      order, and that list is yielded when the next order is at another
      station. A ZeroDivisionError is raised exactly when such an item has
      a market sell price of 0. */
  lemma RunRecordsLowest(p: seq<Order>, g: seq<Order>, o: Order, items: map<int, ItemSummary>, perStation: bool)
    requires IsRunAfter(p, g, perStation)
    requires o.typeId != g[0].typeId || (perStation && o.stationId != g[0].stationId)
    ensures var t := g[0].typeId;
      var low := MarketHistory.MinSell(g);
      var held := StatsFrom(p + g, items, perStation);
      var r := StatsFrom(p + g + [o], items, perStation);
      var recorded := t in items && low.Some?;
      held.failedAt.None? ==>
        && (r.failedAt.None? <==> !(recorded && items[t].sell == Some(0.0)))
        && (r.failedAt.None? ==>
              var list := if recorded then
                            var e := Efficiency(low.value, items[t].sell).value;
                            held.st.effs + (if e <= 100.0 then [Entry(t, items[t].valueTraded, e)] else [])
                          else held.st.effs;
              if o.stationId == g[|g| - 1].stationId then r.st.effs == list && r.emitted == held.emitted
              else r.emitted == held.emitted + [(g[|g| - 1].stationId, list)])
  {
    var all := p + g + [o];
    assert all[..|all| - 1] == p + g && all[|all| - 1] == o;
    StatsFromSnoc(all, items, perStation);
    RunHoldsLowest(p, g, items, perStation);
  }

  /** The items of the counterexample below: one basket item, 5, with a
      market best sell of 10. */
  function CounterexampleItems(): map<int, ItemSummary>
  {
    map[5 := ItemSummary(5, "A", 1, 1, 1000.0, None, Some(10.0))]
  }

  /** Two stations whose only sell orders are for the same item, then the
      terminator. */
  function CounterexampleOrders(): seq<Order>
  {
    [Order(5, 1, false, 10.0, 1, None), Order(5, 2, false, 20.0, 1, None), Terminator]
  }

  /** The first order of the counterexample, alike in both variants. */
  lemma CounterexampleFirstStep(perStation: bool)
    ensures StatsFrom([CounterexampleOrders()[0]], CounterexampleItems(), perStation) ==
      StatsRun(StatsState(Some(1), Some((5, 10.0)), []), [], None)
  {
    var items := CounterexampleItems();
    var os := CounterexampleOrders();
    assert 5 in items;
    assert [os[0]][..0] == [];
    assert StatsStep(StatsStart, os[0], items, perStation) == Ok((StatsState(Some(1), Some((5, 10.0)), []), []));
  }

  /** As written, the pending item is not closed when only the station
      changes: station 1 is yielded without its entry, and the entry listed
      for station 2 carries station 1's price (efficiency 1.0, where
      station 2 sells at 2.0), so no order at station 2 explains it. */
  lemma StationChangeKeepsPending()
    ensures StatsFrom(CounterexampleOrders(), CounterexampleItems(), false).emitted ==
      [(1, []), (2, [Entry(5, 1000.0, 1.0)])]
    ensures !Sourced(Entry(5, 1000.0, 1.0), CounterexampleOrders(), CounterexampleItems(), Some(2))
  {
    var items := CounterexampleItems();
    var os := CounterexampleOrders();
    assert 5 in items && items[5].sell == Some(10.0) && items[5].valueTraded == 1000.0;
    assert os[..2][..1] == [os[0]] && os[..3][..2] == os[..2] && os[..3] == os;
    CounterexampleFirstStep(false);
    var s1 := StatsState(Some(1), Some((5, 10.0)), []);
    var a2 := StatsState(Some(2), Some((5, 10.0)), []);
    assert StatsStep(s1, os[1], items, false) == Ok((a2, [(1, [])]));
    assert StatsFrom(os[..2], items, false) == StatsRun(a2, [(1, [])], None);
    assert Efficiency(10.0, Some(10.0)) == Ok(1.0);
    var none: seq<Entry> := [];
    assert none + [Entry(5, 1000.0, 1.0)] == [Entry(5, 1000.0, 1.0)];
    assert Close(a2, items) == Ok(StatsState(Some(2), None, [Entry(5, 1000.0, 1.0)]));
    assert StatsStep(a2, os[2], items, false) == Ok((StatsState(Some(0), None, []), [(2, [Entry(5, 1000.0, 1.0)])]));
    forall j | 0 <= j < |os| && os[j].typeId == 5 && !os[j].isBuy && os[j].stationId == 2
      ensures Efficiency(os[j].price, items[5].sell) != Ok(1.0)
    {
      assert j == 1;
    }
  }

  /** Closing the pending item on a change of station as well gives each
      station the entry of its own sell order. */
  lemma ClosingPerStationAttributes()
    ensures StatsFrom(CounterexampleOrders(), CounterexampleItems(), true).emitted ==
      [(1, [Entry(5, 1000.0, 1.0)]), (2, [Entry(5, 1000.0, 2.0)])]
  {
    var items := CounterexampleItems();
    var os := CounterexampleOrders();
    assert 5 in items && items[5].sell == Some(10.0) && items[5].valueTraded == 1000.0;
    assert os[..2][..1] == [os[0]] && os[..3][..2] == os[..2] && os[..3] == os;
    CounterexampleFirstStep(true);
    var s1 := StatsState(Some(1), Some((5, 10.0)), []);
    var b2 := StatsState(Some(2), Some((5, 20.0)), []);
    var none: seq<Entry> := [];
    assert none + [Entry(5, 1000.0, 1.0)] == [Entry(5, 1000.0, 1.0)];
    assert none + [Entry(5, 1000.0, 2.0)] == [Entry(5, 1000.0, 2.0)];
    assert Efficiency(10.0, Some(10.0)) == Ok(1.0);
    assert Close(s1, items) == Ok(StatsState(Some(1), None, [Entry(5, 1000.0, 1.0)]));
    assert StatsStep(s1, os[1], items, true) == Ok((b2, [(1, [Entry(5, 1000.0, 1.0)])]));
    assert StatsFrom(os[..2], items, true) == StatsRun(b2, [(1, [Entry(5, 1000.0, 1.0)])], None);
    assert Efficiency(20.0, Some(10.0)) == Ok(2.0);
    assert Close(b2, items) == Ok(StatsState(Some(2), None, [Entry(5, 1000.0, 2.0)]));
    assert StatsStep(b2, os[2], items, true) == Ok((StatsState(Some(0), None, []), [(2, [Entry(5, 1000.0, 2.0)])]));
  }
}

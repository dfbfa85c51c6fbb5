/** price_lib.py: the two price-history queries behind an item's pricing,
    as functions over the rows of the PriceHistory table. */
module PriceLib {
  import opened Wrappers

  /** A calendar day; only its order matters. */
  type Day = int

  /** One PriceHistory row; NULL columns are None. */
  datatype HistoryRow = HistoryRow(typeId: int, date: Day, stationId: int, buy: Option<real>, sell: Option<real>, sellVolume: Option<int>)

  /** The reference hubs of the fair-price query: Jita 4-4, Dodixie FNAP, Amarr EFA. */
  const HubStations: set<int> := {60003760, 60011866, 60008494}

  datatype ItemPricing = ItemPricing(otherStations: map<int, (Option<real>, Option<int>)>, fairPrice: Option<real>)

  // ----- other_stations: the exact (TypeID, Date) query -----

  predicate SameDay(r: HistoryRow, typeId: int, date: Day)
  {
    r.typeId == typeId && r.date == date
  }

  /** The dict comprehension over the rows of the first query, in the order
      the query returns them: a later row for a station overwrites an earlier one. */
  function OtherStations(rows: seq<HistoryRow>, typeId: int, date: Day): map<int, (Option<real>, Option<int>)>
  {
    if |rows| == 0 then map[]
    else
      var m := OtherStations(rows[..|rows| - 1], typeId, date);
      var r := rows[|rows| - 1];
      if SameDay(r, typeId, date) then m[r.stationId := (r.sell, r.sellVolume)] else m
  }

  /** A station is a key exactly when it has a row for (typeId, date), and it
      maps to the Sell and SellVolume of the last such row; Buy is dropped. */
  lemma {:induction false} OtherStationsSpec(rows: seq<HistoryRow>, typeId: int, date: Day, station: int)
    ensures station in OtherStations(rows, typeId, date) <==>
      exists i :: 0 <= i < |rows| && SameDay(rows[i], typeId, date) && rows[i].stationId == station
    ensures station in OtherStations(rows, typeId, date) ==>
      exists i :: && 0 <= i < |rows| && SameDay(rows[i], typeId, date) && rows[i].stationId == station
                  && OtherStations(rows, typeId, date)[station] == (rows[i].sell, rows[i].sellVolume)
                  && forall j :: i < j < |rows| ==> !(SameDay(rows[j], typeId, date) && rows[j].stationId == station)
  {
    if |rows| > 0 {
      var p := rows[..|rows| - 1];
      var r := rows[|rows| - 1];
      OtherStationsSpec(p, typeId, date, station);
      assert forall i :: 0 <= i < |p| ==> p[i] == rows[i];
      if !(SameDay(r, typeId, date) && r.stationId == station) && station in OtherStations(rows, typeId, date) {
        var i :| && 0 <= i < |p| && SameDay(p[i], typeId, date) && p[i].stationId == station
                 && OtherStations(p, typeId, date)[station] == (p[i].sell, p[i].sellVolume)
                 && forall j :: i < j < |p| ==> !(SameDay(p[j], typeId, date) && p[j].stationId == station);
        assert forall j :: i < j < |rows| ==> !(SameDay(rows[j], typeId, date) && rows[j].stationId == station) by {
          forall j | i < j < |rows| ensures !(SameDay(rows[j], typeId, date) && rows[j].stationId == station) {
            if j < |p| { assert rows[j] == p[j]; }
          }
        }
      }
    }
  }

  // ----- fair_price: the trailing-window aggregate -----

  /** A row the fair-price query reads: the item, a hub station, and a Date
      strictly after the window start (there is no upper bound). */
  predicate InWindow(r: HistoryRow, typeId: int, windowStart: Day)
  {
    r.typeId == typeId && r.date > windowStart && r.stationId in HubStations
  }

  /** A row that contributes a price: in the window and with a non-NULL Sell. */
  predicate Priced(r: HistoryRow, typeId: int, windowStart: Day)
  {
    InWindow(r, typeId, windowStart) && r.sell.Some?
  }

  function Min(a: real, b: real): real { if a <= b then a else b }

  /** MIN(Sell) of one Date group (NULLs ignored; None when all are NULL). */
  function DailyMin(rows: seq<HistoryRow>, typeId: int, windowStart: Day, day: Day): Option<real>
  {
    if |rows| == 0 then None
    else
      var m := DailyMin(rows[..|rows| - 1], typeId, windowStart, day);
      var r := rows[|rows| - 1];
      if Priced(r, typeId, windowStart) && r.date == day then
        Some(if m.None? then r.sell.value else Min(m.value, r.sell.value))
      else m
  }

  /** The Date groups whose MIN(Sell) is not NULL, each once, in order of first row. */
  function PricedDays(rows: seq<HistoryRow>, typeId: int, windowStart: Day): seq<Day>
  {
    if |rows| == 0 then []
    else
      var days := PricedDays(rows[..|rows| - 1], typeId, windowStart);
      var r := rows[|rows| - 1];
      if Priced(r, typeId, windowStart) && r.date !in days then days + [r.date] else days
  }

  function Sum(xs: seq<real>): real
  {
    if |xs| == 0 then 0.0 else Sum(xs[..|xs| - 1]) + xs[|xs| - 1]
  }

  /** The daily minima, one per priced day. */
  function DailyMins(rows: seq<HistoryRow>, typeId: int, windowStart: Day): (xs: seq<real>)
    ensures |xs| == |PricedDays(rows, typeId, windowStart)|
  {
    var days := PricedDays(rows, typeId, windowStart);
    seq(|days|, i requires 0 <= i < |days| =>
      PricedDaysSpec(rows, typeId, windowStart, days[i]);
      DailyMinSpec(rows, typeId, windowStart, days[i]);
      DailyMin(rows, typeId, windowStart, days[i]).value)
  }

  /** SELECT AVG(daily_price) FROM (SELECT Date, MIN(Sell) ... GROUP BY Date):
      AVG skips the NULL groups and is NULL when none is left. */
  function FairPrice(rows: seq<HistoryRow>, typeId: int, windowStart: Day): Option<real>
  {
    var xs := DailyMins(rows, typeId, windowStart);
    if |xs| == 0 then None else Some(Sum(xs) / |xs| as real)
  }

  /** get_pricing. The query date fixes the exact-match rows; the window start
      ("three months earlier", computed by the database) is passed in. The
      stations priced are those with a row for the item on that date; the
      fair price is NULL exactly when no hub row of the window has a Sell,
      and otherwise lies between the smallest and the largest daily minimum. */
  function GetPricing(rows: seq<HistoryRow>, typeId: int, date: Day, windowStart: Day): (p: ItemPricing)
    ensures forall s :: s in p.otherStations <==>
      exists i :: 0 <= i < |rows| && SameDay(rows[i], typeId, date) && rows[i].stationId == s
    ensures p.fairPrice.None? <==> forall i :: 0 <= i < |rows| ==> !Priced(rows[i], typeId, windowStart)
    ensures p.fairPrice.Some? ==>
      var xs := DailyMins(rows, typeId, windowStart);
      |xs| > 0 && MinOf(xs) <= p.fairPrice.value <= MaxOf(xs)
  {
    OtherStationsKeys(rows, typeId, date);
    FairPriceNoneIff(rows, typeId, windowStart);
    var fair := FairPrice(rows, typeId, windowStart);
    if fair.Some? then
      FairPriceBetweenDailyMins(rows, typeId, windowStart);
      ItemPricing(OtherStations(rows, typeId, date), fair)
    else ItemPricing(OtherStations(rows, typeId, date), fair)
  }

  /** The keys of other_stations, for every station at once. */
  lemma OtherStationsKeys(rows: seq<HistoryRow>, typeId: int, date: Day)
    ensures forall s :: s in OtherStations(rows, typeId, date) <==>
      exists i :: 0 <= i < |rows| && SameDay(rows[i], typeId, date) && rows[i].stationId == s
  {
    forall s ensures s in OtherStations(rows, typeId, date) <==>
      exists i :: 0 <= i < |rows| && SameDay(rows[i], typeId, date) && rows[i].stationId == s
    {
      OtherStationsSpec(rows, typeId, date, s);
    }
  }

  // ----- properties -----

  predicate HasPricedRowOn(rows: seq<HistoryRow>, typeId: int, windowStart: Day, day: Day)
  {
    exists i :: 0 <= i < |rows| && Priced(rows[i], typeId, windowStart) && rows[i].date == day
  }

  /** A day's minimum exists exactly when the day has a priced row; it is at
      most every priced Sell of that day and equal to one of them. */
  lemma {:induction false} DailyMinSpec(rows: seq<HistoryRow>, typeId: int, windowStart: Day, day: Day)
    ensures DailyMin(rows, typeId, windowStart, day).Some? <==> HasPricedRowOn(rows, typeId, windowStart, day)
    ensures DailyMin(rows, typeId, windowStart, day).Some? ==>
      var m := DailyMin(rows, typeId, windowStart, day).value;
      && (forall i :: 0 <= i < |rows| && Priced(rows[i], typeId, windowStart) && rows[i].date == day ==> m <= rows[i].sell.value)
      && (exists i :: 0 <= i < |rows| && Priced(rows[i], typeId, windowStart) && rows[i].date == day && m == rows[i].sell.value)
  {
    if |rows| > 0 {
      var p := rows[..|rows| - 1];
      var r := rows[|rows| - 1];
      DailyMinSpec(p, typeId, windowStart, day);
      assert forall i :: 0 <= i < |p| ==> p[i] == rows[i];
      if HasPricedRowOn(rows, typeId, windowStart, day) && !(Priced(r, typeId, windowStart) && r.date == day) {
        var i :| 0 <= i < |rows| && Priced(rows[i], typeId, windowStart) && rows[i].date == day;
        assert i < |p|;
      }
      if HasPricedRowOn(p, typeId, windowStart, day) {
        var i :| 0 <= i < |p| && Priced(p[i], typeId, windowStart) && p[i].date == day;
        assert Priced(rows[i], typeId, windowStart) && rows[i].date == day;
      }
      var m := DailyMin(rows, typeId, windowStart, day);
      if m.Some? {
        if Priced(r, typeId, windowStart) && r.date == day && m.value == r.sell.value {
          assert Priced(rows[|rows| - 1], typeId, windowStart);
        } else {
          var i :| 0 <= i < |p| && Priced(p[i], typeId, windowStart) && p[i].date == day
                   && DailyMin(p, typeId, windowStart, day).value == p[i].sell.value;
          assert rows[i] == p[i];
        }
      }
    }
  }

  /** The priced days are distinct and are exactly the days with a priced row. */
  lemma {:induction false} PricedDaysSpec(rows: seq<HistoryRow>, typeId: int, windowStart: Day, day: Day)
    ensures day in PricedDays(rows, typeId, windowStart) <==> HasPricedRowOn(rows, typeId, windowStart, day)
    ensures var days := PricedDays(rows, typeId, windowStart);
      forall i, j :: 0 <= i < j < |days| ==> days[i] != days[j]
  {
    if |rows| > 0 {
      var p := rows[..|rows| - 1];
      var r := rows[|rows| - 1];
      PricedDaysSpec(p, typeId, windowStart, day);
      PricedDaysSpec(p, typeId, windowStart, r.date);
      assert forall i :: 0 <= i < |p| ==> p[i] == rows[i];
      if HasPricedRowOn(rows, typeId, windowStart, day) && !(Priced(r, typeId, windowStart) && r.date == day) {
        var i :| 0 <= i < |rows| && Priced(rows[i], typeId, windowStart) && rows[i].date == day;
        assert i < |p|;
      }
      if HasPricedRowOn(p, typeId, windowStart, day) {
        var i :| 0 <= i < |p| && Priced(p[i], typeId, windowStart) && p[i].date == day;
        assert Priced(rows[i], typeId, windowStart) && rows[i].date == day;
      }
    }
  }

  /** fair_price is NULL exactly when no row of the window has a non-NULL Sell. */
  lemma FairPriceNoneIff(rows: seq<HistoryRow>, typeId: int, windowStart: Day)
    ensures FairPrice(rows, typeId, windowStart).None? <==>
      forall i :: 0 <= i < |rows| ==> !Priced(rows[i], typeId, windowStart)
  {
    var days := PricedDays(rows, typeId, windowStart);
    if |days| > 0 {
      PricedDaysSpec(rows, typeId, windowStart, days[0]);
    }
    forall i | 0 <= i < |rows| && Priced(rows[i], typeId, windowStart)
      ensures |days| > 0
    {
      PricedDaysSpec(rows, typeId, windowStart, rows[i].date);
    }
  }

  function MinOf(xs: seq<real>): (m: real)
    requires |xs| > 0
    ensures forall i :: 0 <= i < |xs| ==> m <= xs[i]
    ensures exists i :: 0 <= i < |xs| && m == xs[i]
  {
    if |xs| == 1 then xs[0] else Min(MinOf(xs[..|xs| - 1]), xs[|xs| - 1])
  }

  function MaxOf(xs: seq<real>): (m: real)
    requires |xs| > 0
    ensures forall i :: 0 <= i < |xs| ==> xs[i] <= m
    ensures exists i :: 0 <= i < |xs| && m == xs[i]
  {
    if |xs| == 1 then xs[0] else if MaxOf(xs[..|xs| - 1]) >= xs[|xs| - 1] then MaxOf(xs[..|xs| - 1]) else xs[|xs| - 1]
  }

  /** n values between lo and hi sum to between n * lo and n * hi; n is
      the length of the list, as a real. */
  lemma {:induction false} SumBetween(xs: seq<real>, lo: real, hi: real, n: real)
    requires forall i :: 0 <= i < |xs| ==> lo <= xs[i] <= hi
    requires n == |xs| as real
    ensures n * lo <= Sum(xs) <= n * hi
  {
    if |xs| > 0 {
      var p := xs[..|xs| - 1];
      assert forall i :: 0 <= i < |p| ==> p[i] == xs[i];
      SumBetween(p, lo, hi, n - 1.0);
      StepBetween(n - 1.0, n, lo, hi, Sum(p), xs[|xs| - 1]);
    }
  }

  lemma StepBetween(m: real, n: real, lo: real, hi: real, s: real, x: real)
    requires m * lo <= s <= m * hi && lo <= x <= hi && n == m + 1.0
    ensures n * lo <= s + x <= n * hi
  {
  }

  /** fair_price lies between the smallest and the largest daily minimum. */
  lemma FairPriceBetweenDailyMins(rows: seq<HistoryRow>, typeId: int, windowStart: Day)
    requires FairPrice(rows, typeId, windowStart).Some?
    ensures var xs := DailyMins(rows, typeId, windowStart);
      |xs| > 0 && MinOf(xs) <= FairPrice(rows, typeId, windowStart).value <= MaxOf(xs)
  {
    MeanBetween(DailyMins(rows, typeId, windowStart));
  }

  /** The mean of a non-empty list lies between its smallest and its
      largest element. */
  lemma MeanBetween(xs: seq<real>)
    requires |xs| > 0
    ensures MinOf(xs) <= Sum(xs) / |xs| as real <= MaxOf(xs)
  {
    var n, lo, s, hi := |xs| as real, MinOf(xs), Sum(xs), MaxOf(xs);
    SumBetween(xs, lo, hi, n);
    ScaleBetween(n, lo, s, hi);
  }

  lemma ScaleBetween(n: real, lo: real, s: real, hi: real)
    requires n > 0.0 && n * lo <= s <= n * hi
    ensures lo <= s / n <= hi
  {
    assert lo == n * lo / n && hi == n * hi / n;
    assert n * lo / n <= s / n <= n * hi / n;
  }

  /** Each day counts once: repeating a row that is already there changes
      neither the priced days nor any daily minimum, so not the fair price. */
  lemma RepeatedRowCountsOnce(rows: seq<HistoryRow>, typeId: int, windowStart: Day, k: nat)
    requires k < |rows|
    ensures PricedDays(rows + [rows[k]], typeId, windowStart) == PricedDays(rows, typeId, windowStart)
    ensures forall d :: DailyMin(rows + [rows[k]], typeId, windowStart, d) == DailyMin(rows, typeId, windowStart, d)
    ensures FairPrice(rows + [rows[k]], typeId, windowStart) == FairPrice(rows, typeId, windowStart)
  {
    var more := rows + [rows[k]];
    assert more[..|rows|] == rows;
    var r := rows[k];
    PricedDaysSpec(rows, typeId, windowStart, r.date);
    DailyMinSpec(rows, typeId, windowStart, r.date);
    forall d ensures DailyMin(more, typeId, windowStart, d) == DailyMin(rows, typeId, windowStart, d) {
      DailyMinSpec(rows, typeId, windowStart, d);
    }
    assert DailyMins(more, typeId, windowStart) == DailyMins(rows, typeId, windowStart);
  }

  /** The window has no upper bound: a priced row dated after the query date
      still counts, so with it a fair price exists. */
  lemma LaterRowStillCounts(rows: seq<HistoryRow>, typeId: int, date: Day, windowStart: Day, r: HistoryRow)
    requires windowStart <= date < r.date
    requires r.typeId == typeId && r.stationId in HubStations && r.sell.Some?
    ensures GetPricing(rows + [r], typeId, date, windowStart).fairPrice.Some?
  {
    FairPriceNoneIff(rows + [r], typeId, windowStart);
    assert Priced((rows + [r])[|rows|], typeId, windowStart);
  }
}

/** lib.py: market orders, the orderset stream and its batch/date accumulator. */
module Lib {
  import opened Wrappers
  import opened Tokens

  /** A point in time; `datetime.fromisoformat` is abstracted to a decoder
      into this ordered type. */
  type Timestamp = int

  datatype Order = Order(typeId: int, stationId: int, isBuy: bool, price: real, volume: int, date: Option<Timestamp>)

  /** An order together with the batch (orderset) id of its row. */
  type Record = (Order, int)

  /** The inert record read_orderset appends after the last row. */
  const Terminator: Order := Order(0, 0, false, 0.0, 0, None)

  /** Columns of one tab-separated orderset row. */
  const RowArity: nat := 13

  /** One row: TypeID in column 1, the date in 2, IsBuy in 3, Volume in 4,
      Price in 7, StationID in 8 and the batch id in 12; any other number of
      columns, or a column that does not convert, is a ValueError (None). */
  function DecodeRow(row: seq<string>, decodeDate: string -> Option<Timestamp>): (r: Option<Record>)
    ensures |row| != RowArity ==> r.None?
    ensures r.Some? <==>
      |row| == RowArity && ParseInt(row[1]).Some? && ParseInt(row[8]).Some? && ParseDecimal(row[7]).Some?
      && ParseInt(row[4]).Some? && decodeDate(StripTrailingZ(row[2])).Some? && ParseInt(row[12]).Some?
    ensures r.Some? ==>
      && r.value.0.typeId == ParseInt(row[1]).value
      && r.value.0.stationId == ParseInt(row[8]).value
      && r.value.0.isBuy == (row[3] == "True")
      && r.value.0.price == ParseDecimal(row[7]).value
      && r.value.0.volume == ParseInt(row[4]).value
      && r.value.0.date == decodeDate(StripTrailingZ(row[2]))
      && r.value.1 == ParseInt(row[12]).value
  {
    if |row| != RowArity then None
    else
      var typeId, stationId, price := ParseInt(row[1]), ParseInt(row[8]), ParseDecimal(row[7]);
      var volume, date, batch := ParseInt(row[4]), decodeDate(StripTrailingZ(row[2])), ParseInt(row[12]);
      if typeId.Some? && stationId.Some? && price.Some? && volume.Some? && date.Some? && batch.Some? then
        Some((Order(typeId.value, stationId.value, row[3] == "True", price.value, volume.value, date), batch.value))
      else None
  }

  /** read_orderset: every row decoded in order, then the terminator with
      batch id 0; a row that does not decode ends the stream with a ValueError. */
  function ReadOrderset(rows: seq<seq<string>>, decodeDate: string -> Option<Timestamp>): Yielded<Record>
  {
    ReadRows(rows, row => DecodeRow(row, decodeDate))
  }

  /** The stream of read_orderset for any row decoder. */
  function ReadRows(rows: seq<seq<string>>, decode: seq<string> -> Option<Record>): Yielded<Record>
    decreases |rows|
  {
    if |rows| == 0 then Yielded([(Terminator, 0)], None)
    else match decode(rows[0])
      case None => Yielded([], Some(ValueError))
      case Some(rec) =>
        var rest := ReadRows(rows[1..], decode);
        Yielded([rec] + rest.items, rest.failure)
  }

  /** Every yielded record is its row decoded, in row order; the stream
      fails exactly when some row does not decode, and it fails at the first
      such row; otherwise the terminator follows the last row. */
  lemma ReadOrdersetShape(rows: seq<seq<string>>, decodeDate: string -> Option<Timestamp>)
    ensures var r := ReadOrderset(rows, decodeDate);
      && (r.failure.None? <==> forall i :: 0 <= i < |rows| ==> DecodeRow(rows[i], decodeDate).Some?)
      && |r.items| <= |rows| + 1
      && (forall i :: 0 <= i < |r.items| && i < |rows| ==> Some(r.items[i]) == DecodeRow(rows[i], decodeDate))
      && (r.failure.None? ==> |r.items| == |rows| + 1 && r.items[|rows|] == (Terminator, 0))
      && (r.failure.Some? ==> r.failure == Some(ValueError) && |r.items| < |rows|
                              && DecodeRow(rows[|r.items|], decodeDate).None?)
  {
    ReadRowsShape(rows, row => DecodeRow(row, decodeDate));
  }

  lemma {:induction false} ReadRowsShape(rows: seq<seq<string>>, decode: seq<string> -> Option<Record>)
    ensures var r := ReadRows(rows, decode);
      && (r.failure.None? <==> forall i :: 0 <= i < |rows| ==> decode(rows[i]).Some?)
      && |r.items| <= |rows| + 1
      && (forall i :: 0 <= i < |r.items| && i < |rows| ==> Some(r.items[i]) == decode(rows[i]))
      && (r.failure.None? ==> |r.items| == |rows| + 1 && r.items[|rows|] == (Terminator, 0))
      && (r.failure.Some? ==> r.failure == Some(ValueError) && |r.items| < |rows| && decode(rows[|r.items|]).None?)
  {
    if |rows| > 0 {
      var rest := ReadRows(rows[1..], decode);
      ReadRowsShape(rows[1..], decode);
      match decode(rows[0])
      case None =>
      case Some(rec) =>
        var r := ReadRows(rows, decode);
        assert r.items == [rec] + rest.items;
        assert forall i :: 1 <= i < |rows| ==> rows[1..][i - 1] == rows[i];
        assert forall i :: 1 <= i < |r.items| ==> r.items[i] == rest.items[i - 1];
    }
  }

  /** The orders of a record stream, without their batch ids. */
  function OrdersOf(recs: seq<Record>): (r: seq<Order>)
    ensures |r| == |recs|
  {
    if |recs| == 0 then [] else OrdersOf(recs[..|recs| - 1]) + [recs[|recs| - 1].0]
  }

  // ----- the OrdersetInfo accumulator -----

  /** The assertion of read_orderset_filter: a record's batch id agrees with
      the one held, or is 0, or none is held yet. */
  predicate Consistent(held: Option<int>, batch: int)
  {
    held.None? || held == Some(batch) || batch == 0
  }

  /** A positive batch id replaces the one held. */
  function NextBatch(held: Option<int>, batch: int): Option<int>
  {
    if batch > 0 then Some(batch) else held
  }

  /** The date is replaced when none is held or the record's date is later. */
  function NextDate(held: Option<Timestamp>, d: Option<Timestamp>): Option<Timestamp>
  {
    if held.None? || (d.Some? && held.value < d.value) then d else held
  }

  /** The batch id held after the records `recs`, starting from `held`. */
  function BatchFrom(held: Option<int>, recs: seq<Record>): Option<int>
  {
    if |recs| == 0 then held else NextBatch(BatchFrom(held, recs[..|recs| - 1]), recs[|recs| - 1].1)
  }

  /** The date held after the orders of `recs`, starting from `held`. */
  function DateFrom(held: Option<Timestamp>, recs: seq<Record>): Option<Timestamp>
  {
    if |recs| == 0 then held else NextDate(DateFrom(held, recs[..|recs| - 1]), recs[|recs| - 1].0.date)
  }

  /** The first index at or after `i` whose record fails the assertion, or |recs|. */
  function FirstConflict(held: Option<int>, recs: seq<Record>, i: nat): (k: nat)
    requires i <= |recs|
    ensures i <= k <= |recs|
    ensures forall j {:trigger recs[j]} :: i <= j < k ==> Consistent(BatchFrom(held, recs[..j]), recs[j].1)
    ensures k < |recs| ==> !Consistent(BatchFrom(held, recs[..k]), recs[k].1)
    decreases |recs| - i
  {
    if i == |recs| then i
    else if !Consistent(BatchFrom(held, recs[..i]), recs[i].1) then i
    else FirstConflict(held, recs, i + 1)
  }

  class OrdersetInfo {
    var orderset: Option<int>
    var date: Option<Timestamp>

    constructor ()
      ensures orderset == None && date == None
    {
      orderset, date := None, None;
    }

    /** One step of read_orderset_filter, after the record was yielded: the
        assertion, then the batch id, then the running maximum of the date. */
    method Observe(order: Order, batch: int) returns (ok: bool)
      modifies this
      ensures ok == Consistent(old(orderset), batch)
      ensures ok ==> orderset == NextBatch(old(orderset), batch) && date == NextDate(old(date), order.date)
      ensures !ok ==> orderset == old(orderset) && date == old(date)
      ensures old(orderset).Some? ==> orderset == old(orderset)
      ensures old(date).Some? ==> date.Some? && old(date).value <= date.value
    {
      ok := orderset.None? || orderset == Some(batch) || batch == 0;
      if !ok {
        return;
      }
      if batch > 0 {
        orderset := Some(batch);
      }
      if date.None? || (order.date.Some? && date.value < order.date.value) {
        date := order.date;
      }
    }
  }

  /** A record that passes the assertion moves the accumulator on by one
      record and does not change where the first failed assertion is. */
  lemma ObserveAdvances(held: Option<int>, since: Option<Timestamp>, recs: seq<Record>, i: nat)
    requires i < |recs| && FirstConflict(held, recs, 0) == FirstConflict(held, recs, i)
    requires Consistent(BatchFrom(held, recs[..i]), recs[i].1)
    ensures FirstConflict(held, recs, 0) == FirstConflict(held, recs, i + 1)
    ensures BatchFrom(held, recs[..i + 1]) == NextBatch(BatchFrom(held, recs[..i]), recs[i].1)
    ensures DateFrom(since, recs[..i + 1]) == NextDate(DateFrom(since, recs[..i]), recs[i].0.date)
  {
    assert recs[..i + 1][..i] == recs[..i];
  }

  /** The orders of a prefix are the prefix of the orders. */
  lemma {:induction false} OrdersOfPrefix(recs: seq<Record>, j: nat)
    requires j <= |recs|
    ensures OrdersOf(recs[..j]) == OrdersOf(recs)[..j]
    decreases |recs|
  {
    if j < |recs| {
      OrdersOfPrefix(recs[..|recs| - 1], j);
      assert recs[..|recs| - 1][..j] == recs[..j];
    } else {
      assert recs[..j] == recs;
    }
  }

  /** What read_orderset_filter yields when its accumulator starts with the
      batch id `held`: the orders of the stream up to and including the first
      one whose batch id fails the assertion, which then ends the stream with
      an AssertionError (BatchMismatch); without such an order, the whole
      stream and its own failure. */
  function FilterOf(held: Option<int>, stream: Yielded<Record>): (r: Yielded<Order>)
    ensures |r.items| <= |stream.items| && r.items == OrdersOf(stream.items[..|r.items|])
    ensures forall j {:trigger stream.items[j]} :: 0 <= j < |r.items| - 1 ==> Consistent(BatchFrom(held, stream.items[..j]), stream.items[j].1)
    ensures r.failure != stream.failure ==>
      && |r.items| > 0
      && !Consistent(BatchFrom(held, stream.items[..|r.items| - 1]), stream.items[|r.items| - 1].1)
      && r.failure == Some(BatchMismatch(BatchFrom(held, stream.items[..|r.items| - 1]).value, stream.items[|r.items| - 1].1))
    ensures r.failure.None? ==>
      && stream.failure.None? && |r.items| == |stream.items|
      && forall j {:trigger stream.items[j]} :: 0 <= j < |stream.items| ==> Consistent(BatchFrom(held, stream.items[..j]), stream.items[j].1)
  {
    var k := FirstConflict(held, stream.items, 0);
    if k < |stream.items| then
      Yielded(OrdersOf(stream.items[..k + 1]), Some(BatchMismatch(BatchFrom(held, stream.items[..k]).value, stream.items[k].1)))
    else
      assert stream.items[..|stream.items|] == stream.items;
      Yielded(OrdersOf(stream.items), stream.failure)
  }

  /** read_orderset_filter: re-yields each order of read_orderset and only
      then feeds it to the accumulator; the failed assertion stops the stream
      right after the offending order was yielded. The accumulator ends as
      the orders before that one left it. */
  method ReadOrdersetFilter(rows: seq<seq<string>>, decodeDate: string -> Option<Timestamp>, info: OrdersetInfo)
    returns (out: Yielded<Order>)
    modifies info
    ensures var stream := ReadOrderset(rows, decodeDate);
      var k := FirstConflict(old(info.orderset), stream.items, 0);
      && out == FilterOf(old(info.orderset), stream)
      && info.orderset == BatchFrom(old(info.orderset), stream.items[..k])
      && info.date == DateFrom(old(info.date), stream.items[..k])
  {
    var stream := ReadOrderset(rows, decodeDate);
    ghost var held, since := info.orderset, info.date;
    var yielded: seq<Order> := [];
    var i := 0;
    while i < |stream.items|
      invariant 0 <= i <= |stream.items|
      invariant FirstConflict(held, stream.items, 0) == FirstConflict(held, stream.items, i)
      invariant yielded == OrdersOf(stream.items[..i])
      invariant info.orderset == BatchFrom(held, stream.items[..i])
      invariant info.date == DateFrom(since, stream.items[..i])
    {
      var (x, batch) := stream.items[i];
      yielded := yielded + [x];
      var prior := info.orderset;
      var ok := info.Observe(x, batch);
      assert stream.items[..i + 1][..i] == stream.items[..i];
      if !ok {
        out := Yielded(yielded, Some(BatchMismatch(prior.value, batch)));
        return;
      }
      ObserveAdvances(held, since, stream.items, i);
      i := i + 1;
    }
    assert stream.items[..i] == stream.items;
    out := Yielded(yielded, stream.failure);
  }

  // ----- what the accumulator ends with -----

  /** Some date is present among the orders of `recs`. */
  predicate HasDate(recs: seq<Record>)
  {
    exists i :: 0 <= i < |recs| && recs[i].0.date.Some?
  }

  /** Started empty, the date is absent exactly when no order has one, and is
      otherwise the latest date of any order, attained by one of them. */
  lemma {:induction false} DateFromIsLatest(recs: seq<Record>)
    ensures DateFrom(None, recs).None? <==> !HasDate(recs)
    ensures DateFrom(None, recs).Some? ==>
      && (forall i :: 0 <= i < |recs| && recs[i].0.date.Some? ==> recs[i].0.date.value <= DateFrom(None, recs).value)
      && (exists i :: 0 <= i < |recs| && recs[i].0.date == DateFrom(None, recs))
  {
    if |recs| > 0 {
      var p := recs[..|recs| - 1];
      var last := recs[|recs| - 1];
      DateFromIsLatest(p);
      assert forall i :: 0 <= i < |p| ==> p[i] == recs[i];
      if HasDate(p) {
        var j :| 0 <= j < |p| && p[j].0.date.Some?;
        assert recs[j].0.date.Some?;
      }
      if HasDate(recs) && !HasDate(p) {
        var j :| 0 <= j < |recs| && recs[j].0.date.Some?;
        assert j == |recs| - 1;
      }
      if DateFrom(None, recs).Some? {
        if DateFrom(None, recs) == last.0.date {
          assert recs[|recs| - 1].0.date == DateFrom(None, recs);
        } else {
          var j :| 0 <= j < |p| && p[j].0.date == DateFrom(None, p);
          assert recs[j].0.date == DateFrom(None, recs);
        }
      }
    }
  }

  /** An order without a date, such as the terminator, leaves the date as it was. */
  lemma DateUntouchedByUndated(held: Option<Timestamp>, recs: seq<Record>, rec: Record)
    requires held.Some? && rec.0.date.None?
    ensures DateFrom(held, recs + [rec]) == DateFrom(held, recs)
  {
    assert (recs + [rec])[..|recs|] == recs;
    DateFromKeepsSome(held, recs);
  }

  lemma {:induction false} DateFromKeepsSome(held: Option<Timestamp>, recs: seq<Record>)
    requires held.Some?
    ensures DateFrom(held, recs).Some? && held.value <= DateFrom(held, recs).value
  {
    if |recs| > 0 {
      DateFromKeepsSome(held, recs[..|recs| - 1]);
    }
  }

  /** Every positive batch id seen so far is the one held; once held it stays. */
  lemma {:induction false} BatchFromHoldsPositive(held: Option<int>, recs: seq<Record>)
    requires held.None? || held.value > 0
    ensures var b := BatchFrom(held, recs);
      && (b.Some? ==> b.value > 0)
      && (held.Some? ==> b.Some?)
      && (b.None? <==> held.None? && forall i :: 0 <= i < |recs| ==> recs[i].1 <= 0)
  {
    if |recs| > 0 {
      BatchFromHoldsPositive(held, recs[..|recs| - 1]);
      assert forall i :: 0 <= i < |recs| - 1 ==> recs[..|recs| - 1][i] == recs[i];
    }
  }

  /** A pass without a failed assertion saw one positive batch id at most:
      every positive id in it equals the one held at the end. */
  lemma {:induction false} NoConflictMeansOneBatch(recs: seq<Record>)
    requires FirstConflict(None, recs, 0) == |recs|
    ensures forall i :: 0 <= i < |recs| && recs[i].1 > 0 ==> BatchFrom(None, recs) == Some(recs[i].1)
  {
    if |recs| > 0 {
      var p := recs[..|recs| - 1];
      var last := recs[|recs| - 1];
      forall j | 0 <= j < |p| ensures p[..j] == recs[..j] && p[j] == recs[j] { }
      assert FirstConflict(None, p, 0) == |p|;
      NoConflictMeansOneBatch(p);
      assert recs[..|recs| - 1] == p;
      assert Consistent(BatchFrom(None, p), last.1);
      BatchFromHoldsPositive(None, p);
      forall i | 0 <= i < |recs| && recs[i].1 > 0
        ensures BatchFrom(None, recs) == Some(recs[i].1)
      {
        if i < |p| {
          assert p[i] == recs[i];
        }
      }
    }
  }
}

/** Saving one day of Tushare `daily` quotes: the API answers with a list of
    field names and a list of rows, each row becomes a record keyed by those
    names, and the records are written 1000 at a time. */
module Tushare {
  import opened Wrappers
  import opened Records
  import opened Chunking
  import opened MinMax

  const BatchSize: nat := 1000

  /** The field layout Tushare documents for the `daily` endpoint. */
  const DailyFields: seq<string> := [
    "ts_code", "trade_date", "open", "high", "low", "close",
    "pre_close", "change", "pct_chg", "vol", "amount"]

  /** One `stockDaily` row; a field the answer does not supply is
      undefined. */
  datatype DailyRecord<V> = DailyRecord(
    tsCode: Option<V>,
    tradeDate: Option<V>,
    open: Option<V>,
    high: Option<V>,
    low: Option<V>,
    close: Option<V>,
    preClose: Option<V>,
    change: Option<V>,
    pctChg: Option<V>,
    vol: Option<V>,
    amount: Option<V>)

  /** The record built from one answer row: every field is the row's cell
      under the last field name that spells it. */
  function ToRecord<V>(fields: seq<string>, item: seq<V>): (r: DailyRecord<V>)
    ensures r.tsCode == Column(fields, item, "ts_code")
    ensures r.tradeDate == Column(fields, item, "trade_date")
    ensures r.open == Column(fields, item, "open")
    ensures r.high == Column(fields, item, "high")
    ensures r.low == Column(fields, item, "low")
    ensures r.close == Column(fields, item, "close")
    ensures r.preClose == Column(fields, item, "pre_close")
    ensures r.change == Column(fields, item, "change")
    ensures r.pctChg == Column(fields, item, "pct_chg")
    ensures r.vol == Column(fields, item, "vol")
    ensures r.amount == Column(fields, item, "amount")
  {
    var row := Zip(fields, item);
    ZipGetIsColumn(fields, item, "ts_code");
    ZipGetIsColumn(fields, item, "trade_date");
    ZipGetIsColumn(fields, item, "open");
    ZipGetIsColumn(fields, item, "high");
    ZipGetIsColumn(fields, item, "low");
    ZipGetIsColumn(fields, item, "close");
    ZipGetIsColumn(fields, item, "pre_close");
    ZipGetIsColumn(fields, item, "change");
    ZipGetIsColumn(fields, item, "pct_chg");
    ZipGetIsColumn(fields, item, "vol");
    ZipGetIsColumn(fields, item, "amount");
    DailyRecord(
      Get(row, "ts_code"), Get(row, "trade_date"),
      Get(row, "open"), Get(row, "high"), Get(row, "low"), Get(row, "close"),
      Get(row, "pre_close"), Get(row, "change"), Get(row, "pct_chg"),
      Get(row, "vol"), Get(row, "amount"))
  }

  /** The documented layout names eleven distinct fields. */
  lemma DailyFieldsDistinct()
    ensures |DailyFields| == 11
    ensures forall j :: 0 <= j < |DailyFields| ==> LastOccurrence(DailyFields, j)
  {
  }

  /** Under the documented layout a full row maps cell by cell onto the
      record, in order. */
  lemma ToRecordDocumentedLayout<V>(item: seq<V>)
    requires |item| == 11
    ensures ToRecord(DailyFields, item) == DailyRecord(
      Some(item[0]), Some(item[1]), Some(item[2]), Some(item[3]),
      Some(item[4]), Some(item[5]), Some(item[6]), Some(item[7]),
      Some(item[8]), Some(item[9]), Some(item[10]))
  {
    DocumentedCells(item);
  }

  /** Each documented field name reads its own cell of a full row. */
  lemma DocumentedCells<V>(item: seq<V>)
    requires |item| == 11
    ensures forall j :: 0 <= j < |DailyFields| ==> Get(Zip(DailyFields, item), DailyFields[j]) == Some(item[j])
  {
    DailyFieldsDistinct();
    forall j | 0 <= j < |DailyFields|
      ensures Get(Zip(DailyFields, item), DailyFields[j]) == Some(item[j])
    {
      ZipLastWins(DailyFields, item, j);
    }
  }

  /** The records of all answer rows, in answer order. */
  function ToRecords<V>(fields: seq<string>, items: seq<seq<V>>): (records: seq<DailyRecord<V>>)
    ensures |records| == |items|
    ensures forall k :: 0 <= k < |items| ==> records[k] == ToRecord(fields, items[k])
  {
    seq(|items|, k requires 0 <= k < |items| => ToRecord(fields, items[k]))
  }

  /** The rows written: the sizes of the batches the database accepted. */
  function AcceptedRows<V>(batches: seq<seq<DailyRecord<V>>>, accepts: seq<DailyRecord<V>> -> bool): nat {
    if |batches| == 0 then 0
    else (if accepts(batches[0]) then |batches[0]| else 0) + AcceptedRows(batches[1..], accepts)
  }

  /** At most every row is counted, and every row exactly when no batch
      is refused. */
  lemma {:induction false} AcceptedRowsBound<V>(batches: seq<seq<DailyRecord<V>>>, accepts: seq<DailyRecord<V>> -> bool)
    ensures AcceptedRows(batches, accepts) <= |Flatten(batches)|
    ensures (forall k :: 0 <= k < |batches| ==> accepts(batches[k])) ==>
              AcceptedRows(batches, accepts) == |Flatten(batches)|
    ensures (forall k :: 0 <= k < |batches| ==> !accepts(batches[k])) ==>
              AcceptedRows(batches, accepts) == 0
  {
    if |batches| > 0 {
      AcceptedRowsBound(batches[1..], accepts);
      assert Flatten(batches) == batches[0] + Flatten(batches[1..]);
      assert forall k :: 0 <= k < |batches[1..]| ==> batches[1..][k] == batches[k + 1];
    }
  }

  /** `saveDailyData(fields, items)`. A missing or empty `items` saves
      nothing. Otherwise the records are written in slices of 1000; a slice
      the database refuses (`accepts` says which) is logged and skipped, and
      the result counts the rows of the slices written. */
  method SaveDailyData<V>(fields: seq<string>, items: Option<seq<seq<V>>>, accepts: seq<DailyRecord<V>> -> bool)
    returns (saved: nat, batches: seq<seq<DailyRecord<V>>>)
    ensures items.None? || |items.value| == 0 ==> saved == 0 && batches == []
    ensures items.Some? ==> batches == Chunks(ToRecords(fields, items.value), BatchSize)
    ensures saved == AcceptedRows(batches, accepts)
  {
    if items.None? || |items.value| == 0 {
      return 0, [];
    }
    var data := ToRecords(fields, items.value);
    saved, batches := 0, [];
    var i: nat := 0;
    while i < |data|
      invariant batches + Chunks(data[Min(i, |data|)..], BatchSize) == Chunks(data, BatchSize)
      invariant saved == AcceptedRows(batches, accepts)
    {
      var chunk := JsSlice(data, i, i + BatchSize);
      SliceLoopStep(data, i, BatchSize, batches);
      AcceptedRowsAppend(batches, chunk, accepts);
      if accepts(chunk) {
        saved := saved + |chunk|;
      }
      batches := batches + [chunk];
      i := i + BatchSize;
    }
    SliceLoopDone(data, i, BatchSize, batches);
  }

  lemma {:induction false} AcceptedRowsAppend<V>(batches: seq<seq<DailyRecord<V>>>, chunk: seq<DailyRecord<V>>,
                                                  accepts: seq<DailyRecord<V>> -> bool)
    ensures AcceptedRows(batches + [chunk], accepts)
            == AcceptedRows(batches, accepts) + (if accepts(chunk) then |chunk| else 0)
    decreases |batches|
  {
    if |batches| == 0 {
      assert batches + [chunk] == [chunk];
      assert [chunk][1..] == [];
    } else {
      assert (batches + [chunk])[1..] == batches[1..] + [chunk];
      AcceptedRowsAppend(batches[1..], chunk, accepts);
    }
  }

  /** The count returned never exceeds the rows received. */
  lemma SavedAtMostReceived<V>(fields: seq<string>, items: seq<seq<V>>, accepts: seq<DailyRecord<V>> -> bool)
    ensures AcceptedRows(Chunks(ToRecords(fields, items), BatchSize), accepts) <= |items|
  {
    var data := ToRecords(fields, items);
    ChunksShape(data, BatchSize);
    AcceptedRowsBound(Chunks(data, BatchSize), accepts);
  }

  /** When the database takes every batch, every row received is counted. */
  lemma SavedAllWhenAccepted<V>(fields: seq<string>, items: seq<seq<V>>, accepts: seq<DailyRecord<V>> -> bool)
    requires forall r :: accepts(r)
    ensures AcceptedRows(Chunks(ToRecords(fields, items), BatchSize), accepts) == |items|
  {
    var data := ToRecords(fields, items);
    var batches := Chunks(data, BatchSize);
    ChunksShape(data, BatchSize);
    forall k | 0 <= k < |batches| ensures accepts(batches[k]) {
      AcceptedEverywhere(accepts, batches[k]);
    }
    AcceptedRowsBound(batches, accepts);
  }

  lemma AcceptedEverywhere<T>(accepts: T -> bool, x: T)
    requires forall r :: accepts(r)
    ensures accepts(x)
  {
  }
}

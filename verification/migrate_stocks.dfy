/** The one-off import of a daily-bar CSV export into the `stockDaily`
    table: the first line names the columns, every later line becomes one
    record, and records are written in batches of 1000. */
module MigrateStocks {
  import opened Wrappers
  import opened Text
  import opened Records
  import opened Chunking

  const BatchSize: nat := 1000

  /** One row of the `stockDaily` table. A price or volume that does not
      parse (JavaScript's NaN) is `None`. */
  datatype StockDaily = StockDaily(
    tsCode: string,
    tradeDate: string,
    open: Option<real>,
    high: Option<real>,
    low: Option<real>,
    close: Option<real>,
    vol: Option<real>,
    amount: Option<real>)

  /** The two-letter exchange prefixes of the export and the Tushare
      suffixes that replace them. */
  function ExchangeSuffix(prefix: string): Option<string> {
    if prefix == "sh" then Some(".SH")
    else if prefix == "sz" then Some(".SZ")
    else if prefix == "bj" then Some(".BJ")
    else None
  }

  /** `sh600070` becomes `600070.SH`; the first matching prefix wins and a
      symbol with none of them is kept as it is. */
  function RewriteSymbol(symbol: string): string {
    if StartsWith(symbol, "sh") then symbol[2..] + ".SH"
    else if StartsWith(symbol, "sz") then symbol[2..] + ".SZ"
    else if StartsWith(symbol, "bj") then symbol[2..] + ".BJ"
    else symbol
  }

  /** A prefixed symbol loses its prefix and gains the matching suffix,
      whatever the code after the prefix looks like. */
  lemma RewriteSymbolPrefixed(prefix: string, code: string)
    requires ExchangeSuffix(prefix).Some?
    ensures RewriteSymbol(prefix + code) == code + ExchangeSuffix(prefix).value
  {
    assert (prefix + code)[..2] == prefix;
    assert (prefix + code)[2..] == code;
  }

  /** A symbol without an exchange prefix passes through unchanged. */
  lemma RewriteSymbolUnprefixed(symbol: string)
    requires |symbol| < 2 || ExchangeSuffix(symbol[..2]).None?
    ensures RewriteSymbol(symbol) == symbol
  {
  }

  /** `2025-01-02` becomes `20250102`: the dashes between the fields go and
      the digits stay in order. */
  lemma {:induction false} StripDateDashes(year: string, month: string, day: string)
    requires '-' !in year && '-' !in month && '-' !in day
    ensures RemoveAll(year + "-" + month + "-" + day, '-') == year + month + day
  {
    var dash := "-";
    assert RemoveAll(dash, '-') == [] by {
      assert dash == ['-'];
      assert RemoveAll(dash[1..], '-') == [];
    }
    RemoveAllAbsent(year, '-');
    RemoveAllAbsent(month, '-');
    RemoveAllAbsent(day, '-');
    var a := year + dash;
    RemoveAllAppend(year, dash, '-');
    assert RemoveAll(a, '-') == year;
    var b := a + month;
    RemoveAllAppend(a, month, '-');
    assert RemoveAll(b, '-') == year + month;
    var c := b + dash;
    RemoveAllAppend(b, dash, '-');
    assert RemoveAll(c, '-') == year + month;
    RemoveAllAppend(c, day, '-');
    assert c + day == year + "-" + month + "-" + day;
  }

  /** `parseFloat(cell)`: a missing cell parses to NaN like any other text
      that is not a number. */
  function ParseCell(parse: string -> Option<real>, cell: Option<string>): Option<real> {
    match cell
    case None => None
    case Some(text) => parse(text)
  }

  /** Turnover in thousands of yuan from turnover in yuan; NaN stays NaN. */
  function ToThousands(yuan: Option<real>): (thousands: Option<real>)
    ensures thousands.Some? <==> yuan.Some?
    ensures thousands.Some? ==> thousands.value * 1000.0 == yuan.value
  {
    match yuan
    case None => None
    case Some(v) => Some(v / 1000.0)
  }

  /** One data line against the header names. A line without a `symbol` or a
      `date` cell aborts the import (the string methods are called on
      undefined); the failure names the missing column. */
  function ParseRow(headers: seq<string>, line: string, parse: string -> Option<real>): Result<StockDaily, string> {
    var row := Zip(headers, Split(line, ','));
    match Get(row, "symbol")
    case None => Failure("symbol")
    case Some(symbol) =>
      match Get(row, "date")
      case None => Failure("date")
      case Some(date) =>
        Success(StockDaily(
          RewriteSymbol(symbol),
          RemoveAll(date, '-'),
          ParseCell(parse, Get(row, "open")),
          ParseCell(parse, Get(row, "high")),
          ParseCell(parse, Get(row, "low")),
          ParseCell(parse, Get(row, "close")),
          ParseCell(parse, Get(row, "volume")),
          ToThousands(ParseCell(parse, Get(row, "amount")))))
  }

  /** A line is imported exactly when the header names both `symbol` and
      `date` and the line has a cell at the last position of each; the
      record then carries those cells rewritten, and the cells of the other
      columns, parsed. */
  lemma ParseRowByColumns(headers: seq<string>, line: string, parse: string -> Option<real>)
    ensures var cells := Split(line, ',');
      var symbol := Column(headers, cells, "symbol");
      var date := Column(headers, cells, "date");
      var r := ParseRow(headers, line, parse);
      && (r.Success? <==> symbol.Some? && date.Some?)
      && (symbol.None? ==> r == Failure("symbol"))
      && (symbol.Some? && date.None? ==> r == Failure("date"))
      && (r.Success? ==>
            && r.value.tsCode == RewriteSymbol(symbol.value)
            && r.value.tradeDate == RemoveAll(date.value, '-')
            && '-' !in r.value.tradeDate
            && r.value.open == ParseCell(parse, Column(headers, cells, "open"))
            && r.value.high == ParseCell(parse, Column(headers, cells, "high"))
            && r.value.low == ParseCell(parse, Column(headers, cells, "low"))
            && r.value.close == ParseCell(parse, Column(headers, cells, "close"))
            && r.value.vol == ParseCell(parse, Column(headers, cells, "volume"))
            && r.value.amount == ToThousands(ParseCell(parse, Column(headers, cells, "amount"))))
  {
    var cells := Split(line, ',');
    ZipGetIsColumn(headers, cells, "symbol");
    ZipGetIsColumn(headers, cells, "date");
    ZipGetIsColumn(headers, cells, "open");
    ZipGetIsColumn(headers, cells, "high");
    ZipGetIsColumn(headers, cells, "low");
    ZipGetIsColumn(headers, cells, "close");
    ZipGetIsColumn(headers, cells, "volume");
    ZipGetIsColumn(headers, cells, "amount");
  }

  /** The records parsed before the first failing line, and that failure. */
  datatype Outcome = Outcome(rows: seq<StockDaily>, failure: Option<string>)

  function Prepend(rows: seq<StockDaily>, o: Outcome): Outcome {
    Outcome(rows + o.rows, o.failure)
  }

  /** The data lines in file order, up to the first one that aborts. */
  function ParseLines(headers: seq<string>, lines: seq<string>, parse: string -> Option<real>): Outcome
    decreases |lines|
  {
    if |lines| == 0 then Outcome([], None)
    else
      match ParseRow(headers, lines[0], parse)
      case Failure(column) => Outcome([], Some(column))
      case Success(record) => Prepend([record], ParseLines(headers, lines[1..], parse))
  }

  /** The parsed rows are the records of the leading lines, one per line;
      parsing stops only at a line that fails, and then reports its
      missing column. */
  lemma {:induction false} ParseLinesPrefix(headers: seq<string>, lines: seq<string>, parse: string -> Option<real>)
    ensures var o := ParseLines(headers, lines, parse);
      && |o.rows| <= |lines|
      && (forall i :: 0 <= i < |o.rows| ==> ParseRow(headers, lines[i], parse) == Success(o.rows[i]))
      && (o.failure.None? <==> |o.rows| == |lines|)
      && (o.failure.Some? ==> ParseRow(headers, lines[|o.rows|], parse) == Failure(o.failure.value))
    decreases |lines|
  {
    if |lines| > 0 {
      ParseLinesPrefix(headers, lines[1..], parse);
      var o := ParseLines(headers, lines, parse);
      match ParseRow(headers, lines[0], parse)
      case Failure(column) =>
      case Success(record) =>
        var rest := ParseLines(headers, lines[1..], parse);
        assert o.rows == [record] + rest.rows;
        forall i | 0 <= i < |o.rows|
          ensures ParseRow(headers, lines[i], parse) == Success(o.rows[i])
        {
          if i > 0 {
            assert lines[i] == lines[1..][i - 1];
          }
        }
    }
  }

  lemma ModOfBatchMultiple(k: nat, b: nat)
    requires b < BatchSize
    ensures (k * BatchSize + b) % BatchSize == b
  {
  }

  /** The whole import. The first line is taken as the header (splitting
      never yields an empty list, so every later line is data). Rows are
      buffered and the buffer is written each time it reaches 1000 rows,
      and once more at the end if anything is left. A failing line ends the
      import at once: the full batches before it have been written, the
      buffered rows are lost. */
  method Migrate(lines: seq<string>, parse: string -> Option<real>)
    returns (batches: seq<seq<StockDaily>>, count: nat, failure: Option<string>)
    ensures |lines| == 0 ==> batches == [] && count == 0 && failure.None?
    ensures |lines| > 0 ==>
      var o := ParseLines(Split(lines[0], ','), lines[1..], parse);
      && failure == o.failure
      && (o.failure.None? ==> batches == Chunks(o.rows, BatchSize) && count == |o.rows| == |lines| - 1)
      && (o.failure.Some? ==>
            && count == |o.rows| - |o.rows| % BatchSize
            && batches == Chunks(o.rows[..count], BatchSize))
  {
    if |lines| == 0 {
      return [], 0, None;
    }
    var headers := Split(lines[0], ',');
    ParseLinesPrefix(headers, lines[1..], parse);
    batches, count, failure := ImportRows(headers, lines[1..], parse);
  }

  /** The batching state after reading `rows`: the full batches written so
      far are the 1000-row chunks of a prefix, and the buffer holds the
      rest, fewer than 1000 rows. */
  ghost predicate Buffered(rows: seq<StockDaily>, batches: seq<seq<StockDaily>>, count: nat, buffer: seq<StockDaily>) {
    && |buffer| < BatchSize
    && count <= |rows| && buffer == rows[count..]
    && count == |batches| * BatchSize
    && batches == Chunks(rows[..count], BatchSize)
  }

  /** The data lines against a fixed header, with the batching above. */
  method ImportRows(headers: seq<string>, data: seq<string>, parse: string -> Option<real>)
    returns (batches: seq<seq<StockDaily>>, count: nat, failure: Option<string>)
    ensures var o := ParseLines(headers, data, parse);
      && failure == o.failure
      && (o.failure.None? ==> batches == Chunks(o.rows, BatchSize) && count == |o.rows|)
      && (o.failure.Some? ==>
            && count == |o.rows| - |o.rows| % BatchSize
            && batches == Chunks(o.rows[..count], BatchSize))
  {
    var buffer: seq<StockDaily> := [];
    batches, count, failure := [], 0, None;
    ghost var rows: seq<StockDaily> := [];
    var i := 0;
    while i < |data|
      invariant 0 <= i <= |data|
      invariant ParseLines(headers, data, parse) == Prepend(rows, ParseLines(headers, data[i..], parse))
      invariant Buffered(rows, batches, count, buffer)
    {
      var parsed := ParseRow(headers, data[i], parse);
      match parsed
      case Failure(column) =>
        StopAtFailure(headers, data, i, parse, rows, column);
        StoppedEarly(rows, batches, count, buffer);
        failure := Some(column);
        return;
      case Success(record) =>
        AdvancePastRecord(headers, data, i, parse, rows, record);
        BufferRecord(rows, batches, count, buffer, record);
        buffer := buffer + [record];
        rows := rows + [record];
        if |buffer| >= BatchSize {
          batches := batches + [buffer];
          count := count + |buffer|;
          buffer := [];
        }
      i := i + 1;
    }
    StopAtEnd(headers, data, parse, rows);
    FinalFlush(rows, batches, count, buffer);
    if |buffer| > 0 {
      batches := batches + [buffer];
      count := count + |buffer|;
    }
  }

  /** Buffering one more row, and writing the buffer once it is full, keeps
      the batching state. */
  lemma BufferRecord(rows: seq<StockDaily>, batches: seq<seq<StockDaily>>, count: nat, buffer: seq<StockDaily>,
                     record: StockDaily)
    requires Buffered(rows, batches, count, buffer)
    ensures var rows', buffer' := rows + [record], buffer + [record];
      if |buffer'| >= BatchSize then Buffered(rows', batches + [buffer'], count + |buffer'|, [])
      else Buffered(rows', batches, count, buffer')
  {
    var rows', buffer' := rows + [record], buffer + [record];
    assert rows'[..count] == rows[..count];
    assert rows'[count..] == buffer';
    if |buffer'| >= BatchSize {
      FlushBatch(rows', count, |batches|, buffer');
      assert rows'[count + |buffer'|..] == [];
    }
  }

  /** At a failing line the written batches are the chunks of the rows up to
      the last multiple of 1000. */
  lemma StoppedEarly(rows: seq<StockDaily>, batches: seq<seq<StockDaily>>, count: nat, buffer: seq<StockDaily>)
    requires Buffered(rows, batches, count, buffer)
    ensures count == |rows| - |rows| % BatchSize
    ensures batches == Chunks(rows[..count], BatchSize)
  {
    ModOfBatchMultiple(|batches|, |buffer|);
  }

  /** At the end of the input, writing a non-empty buffer completes the
      chunking of all rows. */
  lemma FinalFlush(rows: seq<StockDaily>, batches: seq<seq<StockDaily>>, count: nat, buffer: seq<StockDaily>)
    requires Buffered(rows, batches, count, buffer)
    ensures |buffer| > 0 ==> batches + [buffer] == Chunks(rows, BatchSize) && count + |buffer| == |rows|
    ensures |buffer| == 0 ==> batches == Chunks(rows, BatchSize) && count == |rows|
  {
    if |buffer| > 0 {
      FlushBatch(rows, count, |batches|, buffer);
    }
    assert rows[..count + |buffer|] == rows;
  }

  /** Writing the buffer extends the written batches by exactly one chunk of
      the rows read so far. */
  lemma FlushBatch(rows: seq<StockDaily>, count: nat, k: nat, buffer: seq<StockDaily>)
    requires count == k * BatchSize && count <= |rows| && buffer == rows[count..]
    requires 0 < |buffer| <= BatchSize
    ensures Chunks(rows[..count], BatchSize) + [buffer] == Chunks(rows[..count + |buffer|], BatchSize)
  {
    assert rows[..count + |buffer|] == rows[..count] + buffer;
    ChunksAppend(rows[..count], buffer, BatchSize, k);
  }

  lemma AdvancePastRecord(headers: seq<string>, data: seq<string>, i: nat, parse: string -> Option<real>,
                          rows: seq<StockDaily>, record: StockDaily)
    requires i < |data|
    requires ParseLines(headers, data, parse) == Prepend(rows, ParseLines(headers, data[i..], parse))
    requires ParseRow(headers, data[i], parse) == Success(record)
    ensures ParseLines(headers, data, parse) == Prepend(rows + [record], ParseLines(headers, data[i + 1..], parse))
  {
    assert data[i..][1..] == data[i + 1..];
    var rest := ParseLines(headers, data[i + 1..], parse);
    assert ParseLines(headers, data[i..], parse) == Prepend([record], rest);
    assert rows + ([record] + rest.rows) == (rows + [record]) + rest.rows;
  }

  lemma StopAtFailure(headers: seq<string>, data: seq<string>, i: nat, parse: string -> Option<real>,
                      rows: seq<StockDaily>, column: string)
    requires i < |data|
    requires ParseLines(headers, data, parse) == Prepend(rows, ParseLines(headers, data[i..], parse))
    requires ParseRow(headers, data[i], parse) == Failure(column)
    ensures ParseLines(headers, data, parse) == Outcome(rows, Some(column))
  {
    assert ParseLines(headers, data[i..], parse) == Outcome([], Some(column));
    assert rows + [] == rows;
  }

  lemma StopAtEnd(headers: seq<string>, data: seq<string>, parse: string -> Option<real>, rows: seq<StockDaily>)
    requires ParseLines(headers, data, parse) == Prepend(rows, ParseLines(headers, data[|data|..], parse))
    ensures ParseLines(headers, data, parse) == Outcome(rows, None)
  {
    assert ParseLines(headers, data[|data|..], parse) == Outcome([], None);
    assert rows + [] == rows;
  }
}

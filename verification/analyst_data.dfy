/** The daily bars and indicator series that `calculateIndicators` in
    src/ai/analyst.js works on, and its `getVal` alignment helper. */
module AnalystData {
  import opened Wrappers
  import opened MinMax

  /** One daily bar of src/ai/analyst.js's history, with the fields the
      screener reads. `pctChg` is absent when the stored row has none. */
  datatype Bar = Bar(tradeDate: string, close: real, pctChg: Option<real>, vol: real, amount: real)

  /** A JavaScript number produced by the percentage computation: a finite
      value, or the infinities and NaN that a zero previous close yields. */
  datatype Pct = Finite(value: real) | PlusInfinity | MinusInfinity | NotANumber

  /** `p > bound` on JavaScript numbers (false for NaN). */
  predicate Exceeds(p: Pct, bound: real) {
    p.PlusInfinity? || (p.Finite? && p.value > bound)
  }

  /** `p < bound` on JavaScript numbers (false for NaN). */
  predicate Undercuts(p: Pct, bound: real) {
    p.MinusInfinity? || (p.Finite? && p.value < bound)
  }

  /** One output of the MACD indicator; any component may be undefined. */
  datatype MacdPoint = MacdPoint(macd: Option<real>, signal: Option<real>, histogram: Option<real>)

  /** The `technicalindicators` outputs, taken as given: each series is
      shorter than the history by its warm-up (SMA(5) by 4, SMA(20) by 19,
      SMA(60) by 59, RSI(14) by 14, MACD(12, 26, 9) by 25). `hv` holds the
      annualised 20-day volatilities, one per log return from the 20th on. */
  datatype Indicators = Indicators(
    ma5: seq<real>, ma20: seq<real>, ma60: seq<real>,
    rsi: seq<real>, macd: seq<MacdPoint>, hv: seq<real>)

  const Ma5Offset: int := 4
  const Ma20Offset: int := 19
  const Ma60Offset: int := 59
  const RsiOffset: int := 14
  const MacdOffset: int := 25

  /** `getVal(arr, idx, offset)`: the indicator value for bar `idx`, or null
      when the bar falls outside the series. */
  function GetVal<T>(arr: seq<T>, idx: int, offset: int): (r: Option<T>)
    ensures r.Some? <==> 0 <= idx - offset < |arr|
    ensures r.Some? ==> r.value == arr[idx - offset]
  {
    var arrIdx := idx - offset;
    if 0 <= arrIdx < |arr| then Some(arr[arrIdx]) else None
  }

  /** For a series as long as the library makes it (empty when the history
      is shorter than the warm-up), `getVal` yields a value for exactly the
      bars after the warm-up. */
  lemma GetValAligned<T>(arr: seq<T>, len: nat, offset: nat, idx: nat)
    requires |arr| == Max(0, len - offset)
    requires idx < len
    ensures GetVal(arr, idx, offset).Some? <==> idx >= offset
    ensures idx >= offset ==> GetVal(arr, idx, offset) == Some(arr[idx - offset])
  {
  }
}

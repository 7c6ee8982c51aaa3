/** `calculateIndicators` and the ticker completion of `analyzeStock` in
    src/ai/analyst.js: the latest snapshot, the screened events and the
    120-bar chart series. */
module Analyst {
  import opened Wrappers
  import opened MinMax
  import opened Text
  import opened StableSort
  import opened AnalystData
  import opened EventScreen

  /** Bars in the chart series. */
  const ChartLength: nat := 120
  /** Log returns in one volatility window. */
  const VolatilityWindow: nat := 20

  datatype Latest = Latest(
    date: string, close: real,
    ma5: Option<real>, ma20: Option<real>, ma60: Option<real>,
    rsi: Option<real>, macd: Option<real>, volatility: Option<real>,
    pctChg: Option<real>)

  datatype ChartPoint = ChartPoint(
    date: string, close: real, vol: real, amount: real,
    ma5: Option<real>, ma20: Option<real>, ma60: Option<real>)

  datatype Analysis = Analysis(latest: Latest, events: seq<Event>, chart: seq<ChartPoint>)

  /** Element `idx` of the `volatility` array, which holds one entry per log
      return (`len - 1` of them): null for the first 19, then the values of
      `hv` in order. Outside the array it is undefined. */
  function VolatilityAt(len: nat, hv: seq<real>, idx: int): (r: Option<real>)
    ensures r.Some? ==> VolatilityWindow <= idx + 1 < len
  {
    if 0 <= idx < len - 1 && idx >= VolatilityWindow - 1 then At(hv, idx - (VolatilityWindow - 1))
    else None
  }

  /** The chart entry for bar `i`. */
  function PointAt(data: seq<Bar>, ind: Indicators, i: nat): ChartPoint
    requires i < |data|
  {
    ChartPoint(data[i].tradeDate, data[i].close, data[i].vol, data[i].amount,
               GetVal(ind.ma5, i, Ma5Offset), GetVal(ind.ma20, i, Ma20Offset), GetVal(ind.ma60, i, Ma60Offset))
  }

  /** The series lengths `technicalindicators` and the volatility loop
      produce for a history of `len` bars: each is shorter by its warm-up,
      and empty when the history is shorter than that. */
  ghost predicate LibraryLengths(len: nat, ind: Indicators) {
    && |ind.ma5| == Max(0, len - Ma5Offset)
    && |ind.ma20| == Max(0, len - Ma20Offset)
    && |ind.ma60| == Max(0, len - Ma60Offset)
    && |ind.rsi| == Max(0, len - RsiOffset)
    && |ind.macd| == Max(0, len - MacdOffset)
    && |ind.hv| == Max(0, len - VolatilityWindow)
  }

  /** With the volatility loop's series length, return index `idx` has a
      volatility exactly when 19 returns precede it, and it is the value of
      the window ending there. */
  lemma VolatilityAligned(len: nat, hv: seq<real>, idx: int)
    requires |hv| == Max(0, len - VolatilityWindow)
    ensures VolatilityAt(len, hv, idx).Some? <==> VolatilityWindow - 1 <= idx < len - 1
    ensures VolatilityWindow - 1 <= idx < len - 1 ==>
              VolatilityAt(len, hv, idx) == Some(hv[idx - (VolatilityWindow - 1)])
  {
  }

  /** The `latest` record for a non-empty history: the last bar's fields,
      and each indicator read at the last bar. */
  function LatestOf(data: seq<Bar>, ind: Indicators): (l: Latest)
    requires |data| > 0
    ensures l.date == data[|data| - 1].tradeDate && l.close == data[|data| - 1].close
    ensures l.pctChg == data[|data| - 1].pctChg
    ensures l.ma5 == GetVal(ind.ma5, |data| - 1, Ma5Offset)
    ensures l.ma20 == GetVal(ind.ma20, |data| - 1, Ma20Offset)
    ensures l.ma60 == GetVal(ind.ma60, |data| - 1, Ma60Offset)
    ensures l.rsi == GetVal(ind.rsi, |data| - 1, RsiOffset)
    ensures l.macd == (var m := GetVal(ind.macd, |data| - 1, MacdOffset); if m.Some? then m.value.macd else None)
    ensures l.volatility == VolatilityAt(|data|, ind.hv, |data| - 2)
    ensures l.volatility.Some? ==> |data| >= VolatilityWindow + 1
    ensures l.ma5.Some? ==> |data| - 1 >= Ma5Offset
    ensures l.ma20.Some? ==> |data| - 1 >= Ma20Offset
    ensures l.ma60.Some? ==> |data| - 1 >= Ma60Offset
    ensures l.rsi.Some? ==> |data| - 1 >= RsiOffset
    ensures l.macd.Some? ==> |data| - 1 >= MacdOffset
  {
    var lastIdx := |data| - 1;
    var macd := GetVal(ind.macd, lastIdx, MacdOffset);
    Latest(data[lastIdx].tradeDate, data[lastIdx].close,
           GetVal(ind.ma5, lastIdx, Ma5Offset), GetVal(ind.ma20, lastIdx, Ma20Offset),
           GetVal(ind.ma60, lastIdx, Ma60Offset), GetVal(ind.rsi, lastIdx, RsiOffset),
           if macd.Some? then macd.value.macd else None,
           VolatilityAt(|data|, ind.hv, lastIdx - 1),
           data[lastIdx].pctChg)
  }

  /** With the library's series lengths, the snapshot holds each indicator
      exactly once the history covers its warm-up, and then it is the last
      value of that series; the volatility needs 21 bars (20 returns). */
  lemma LatestAligned(data: seq<Bar>, ind: Indicators)
    requires |data| > 0 && LibraryLengths(|data|, ind)
    ensures var l := LatestOf(data, ind);
      && (l.ma5.Some? <==> |data| > Ma5Offset)
      && (l.ma20.Some? <==> |data| > Ma20Offset)
      && (l.ma60.Some? <==> |data| > Ma60Offset)
      && (l.rsi.Some? <==> |data| > RsiOffset)
      && (l.volatility.Some? <==> |data| > VolatilityWindow)
      && (l.ma5.Some? ==> l.ma5.value == ind.ma5[|ind.ma5| - 1])
      && (l.ma20.Some? ==> l.ma20.value == ind.ma20[|ind.ma20| - 1])
      && (l.ma60.Some? ==> l.ma60.value == ind.ma60[|ind.ma60| - 1])
      && (l.rsi.Some? ==> l.rsi.value == ind.rsi[|ind.rsi| - 1])
      && (|data| > MacdOffset ==> l.macd == ind.macd[|ind.macd| - 1].macd)
      && (l.volatility.Some? ==> l.volatility.value == ind.hv[|ind.hv| - 1])
  {
    VolatilityAligned(|data|, ind.hv, |data| - 2);
  }

  /** The chart loop: bars `max(0, len - 120)` to `len - 1`. */
  method ChartLoop(data: seq<Bar>, ind: Indicators) returns (chart: seq<ChartPoint>)
    ensures |chart| == Min(ChartLength, |data|)
    ensures forall k :: 0 <= k < |chart| ==> chart[k] == PointAt(data, ind, |data| - |chart| + k)
  {
    chart := [];
    var startIdx := Max(0, |data| - ChartLength);
    var i := startIdx;
    while i < |data|
      invariant startIdx <= i <= |data|
      invariant |chart| == i - startIdx
      invariant forall k :: 0 <= k < |chart| ==> chart[k] == PointAt(data, ind, startIdx + k)
    {
      chart := chart + [PointAt(data, ind, i)];
      i := i + 1;
    }
  }

  /** `calculateIndicators(data)`. On an empty history the source throws
      (it reads `data[-1].trade_date`), modelled as `None`. */
  method CalculateIndicators(data: seq<Bar>, ind: Indicators) returns (result: Option<Analysis>)
    ensures result.None? <==> |data| == 0
    ensures result.Some? ==> result.value.events == RecentEvents(Screen(data, ind.rsi))
    ensures result.Some? ==> result.value.latest == LatestOf(data, ind)
    ensures result.Some? ==> |result.value.chart| == Min(ChartLength, |data|)
    ensures result.Some? ==> forall k :: 0 <= k < |result.value.chart| ==>
              result.value.chart[k] == PointAt(data, ind, |data| - |result.value.chart| + k)
  {
    var events := ScreenLoop(data, ind.rsi);
    if |data| == 0 {
      return None;
    }
    var recent := RecentEvents(events);
    var latest := LatestOf(data, ind);
    var chart := ChartLoop(data, ind);
    return Some(Analysis(latest, recent, chart));
  }

  /** The chart ends with the latest bar, and agrees with the `latest`
      record on everything both carry. */
  lemma ChartEndsWithLatest(data: seq<Bar>, ind: Indicators, chart: seq<ChartPoint>)
    requires |data| > 0
    requires |chart| == Min(ChartLength, |data|)
    requires forall k :: 0 <= k < |chart| ==> chart[k] == PointAt(data, ind, |data| - |chart| + k)
    ensures |chart| > 0
    ensures var last := chart[|chart| - 1]; var l := LatestOf(data, ind);
      last.date == l.date && last.close == l.close && last.ma5 == l.ma5 && last.ma20 == l.ma20 && last.ma60 == l.ma60
  {
  }

  /** With series of the lengths the library produces, the chart's moving
      averages are present exactly after their warm-up. */
  lemma ChartAveragesAligned(data: seq<Bar>, ind: Indicators, i: nat)
    requires LibraryLengths(|data|, ind)
    requires i < |data|
    ensures PointAt(data, ind, i).ma5.Some? <==> i >= Ma5Offset
    ensures PointAt(data, ind, i).ma20.Some? <==> i >= Ma20Offset
    ensures PointAt(data, ind, i).ma60.Some? <==> i >= Ma60Offset
  {
  }

  predicate IsDigit(c: char) {
    '0' <= c <= '9'
  }

  /** `/^\d{6}$/.test(code)`. */
  predicate IsSixDigits(code: string) {
    |code| == 6 && forall k :: 0 <= k < |code| ==> IsDigit(code[k])
  }

  /** The exchange guessed from a six-digit code's first digit, if any. */
  function SuffixForCode(code: string): Option<string>
    requires |code| > 0
  {
    if code[0] == '6' then Some(".SH")
    else if code[0] == '0' || code[0] == '3' then Some(".SZ")
    else if code[0] == '8' || code[0] == '4' then Some(".BJ")
    else None
  }

  /** The ticker `analyzeStock` queries: a six-digit code is completed from
      the first stored ticker that starts with it (`dbMatch`) or else from
      its first digit; anything else is used as typed. */
  function ResolveTicker(code: string, dbMatch: Option<string>): (tsCode: string)
    ensures !IsSixDigits(code) ==> tsCode == code
    ensures IsSixDigits(code) && dbMatch.Some? ==> tsCode == dbMatch.value
    ensures IsSixDigits(code) && dbMatch.None? ==>
              && (code[0] == '6' ==> tsCode == code + ".SH")
              && (code[0] in "03" ==> tsCode == code + ".SZ")
              && (code[0] in "84" ==> tsCode == code + ".BJ")
              && (code[0] !in "60384" ==> tsCode == code)
  {
    if IsSixDigits(code) then
      if dbMatch.Some? then dbMatch.value
      else
        match SuffixForCode(code)
        case Some(suffix) => code + suffix
        case None => code
    else code
  }

  /** When the stored ticker honours the prefix query, the resolved ticker
      of a six-digit code always begins with the code, followed by nothing
      or by an exchange suffix when no ticker was stored. */
  lemma ResolvedTickerExtendsCode(code: string, dbMatch: Option<string>)
    requires IsSixDigits(code)
    requires dbMatch.Some? ==> StartsWith(dbMatch.value, code)
    ensures StartsWith(ResolveTicker(code, dbMatch), code)
    ensures dbMatch.None? ==> ResolveTicker(code, dbMatch)[6..] in {"", ".SH", ".SZ", ".BJ"}
  {
    if dbMatch.None? {
      var t := ResolveTicker(code, dbMatch);
      match SuffixForCode(code)
      case Some(suffix) =>
        assert t == code + suffix;
        assert t[..6] == code && t[6..] == suffix;
      case None =>
        assert t == code && t[6..] == "";
    }
  }
}

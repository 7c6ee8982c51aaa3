/** The key-event screening loop of `calculateIndicators`
    (src/ai/analyst.js): big moves (大涨 / 大跌) and volume spikes (巨量) over
    the last 30 bars, then the 10 latest by date. */
module EventScreen {
  import opened Wrappers
  import opened MinMax
  import opened Text
  import opened StableSort
  import opened AnalystData

  /** 大涨, 大跌 and 巨量. */
  datatype Reason = Surge | Plunge | VolumeSpike

  datatype Event = Event(date: string, reason: Reason, pctChg: Pct, close: real, rsi: Option<real>)

  /** Bars scanned, counted back from the newest. */
  const Lookback: nat := 30
  /** Events kept. */
  const MaxEvents: nat := 10
  /** A move beyond this many percentage points is a big move. */
  const MoveThreshold: real := 5.0
  /** A volume beyond this multiple of the prior 5-day mean is a spike. */
  const SpikeFactor: real := 3.0

  /** The first bar index the loop visits: `Math.max(0, len - 30)`. */
  function ScanStart(len: nat): nat {
    Max(0, len - Lookback)
  }

  /** `(close - prevClose) / prevClose * 100` as JavaScript evaluates it. */
  function ChangePercent(close: real, prevClose: real): (p: Pct)
    ensures prevClose != 0.0 ==> p.Finite? && close == prevClose * (1.0 + p.value / 100.0)
    ensures prevClose == 0.0 ==> !p.Finite?
    ensures prevClose == 0.0 ==> (p.PlusInfinity? <==> close > 0.0) && (p.MinusInfinity? <==> close < 0.0)
  {
    if prevClose != 0.0 then
      var q := (close - prevClose) / prevClose;
      assert q * prevClose == close - prevClose;
      Finite(q * 100.0)
    else if close > 0.0 then PlusInfinity
    else if close < 0.0 then MinusInfinity
    else NotANumber
  }

  /** The percentage change used for bar `i`: the stored `pct_chg`, or the
      change from the previous close when it is missing. */
  function PctAt(data: seq<Bar>, i: nat): (p: Pct)
    requires 1 <= i < |data|
    ensures data[i].pctChg.Some? ==> p == Finite(data[i].pctChg.value)
    ensures data[i].pctChg.None? ==> p == ChangePercent(data[i].close, data[i - 1].close)
  {
    match data[i].pctChg
    case Some(v) => Finite(v)
    case None => ChangePercent(data[i].close, data[i - 1].close)
  }

  function SumVolumes(bars: seq<Bar>): real {
    if |bars| == 0 then 0.0 else bars[0].vol + SumVolumes(bars[1..])
  }

  /** The mean volume of the five bars strictly before `i`, or 0 when there
      are fewer than five. */
  function Prev5Average(data: seq<Bar>, i: nat): real
    requires i < |data|
  {
    if i >= 5 then SumVolumes(data[i - 5..i]) / 5.0 else 0.0
  }

  /** `prev5VolAvg > 0 && row.vol > 3 * prev5VolAvg`. */
  predicate VolumeSpikeAt(data: seq<Bar>, i: nat)
    requires i < |data|
  {
    var avg := Prev5Average(data, i);
    avg > 0.0 && data[i].vol > SpikeFactor * avg
  }

  /** The event record pushed for bar `i`. */
  function MakeEvent(data: seq<Bar>, rsi: seq<real>, i: nat, reason: Reason): Event
    requires 1 <= i < |data|
  {
    Event(data[i].tradeDate, reason, PctAt(data, i), data[i].close, GetVal(rsi, i, RsiOffset))
  }

  /** `events.find(e => e.date === date)` finds something. */
  predicate HasDate(events: seq<Event>, date: string) {
    exists k | 0 <= k < |events| :: events[k].date == date
  }

  /** One turn of the loop body for bar `i`, appending to the events found
      so far. */
  function ScanBar(data: seq<Bar>, rsi: seq<real>, i: nat, acc: seq<Event>): (r: seq<Event>)
    requires 1 <= i < |data|
    ensures acc <= r && |r| <= |acc| + 1
    ensures forall k :: |acc| <= k < |r| ==> r[k].date == data[i].tradeDate
  {
    var pct := PctAt(data, i);
    var withMove :=
      if Exceeds(pct, MoveThreshold) then acc + [MakeEvent(data, rsi, i, Surge)]
      else if Undercuts(pct, -MoveThreshold) then acc + [MakeEvent(data, rsi, i, Plunge)]
      else acc;
    // A big-move event already carries the bar's date, so no spike follows it.
    assert withMove != acc ==> HasDate(withMove, data[i].tradeDate) by {
      if withMove != acc {
        assert withMove[|acc|].date == data[i].tradeDate;
      }
    }
    if VolumeSpikeAt(data, i) && !HasDate(withMove, data[i].tradeDate) then
      withMove + [MakeEvent(data, rsi, i, VolumeSpike)]
    else
      withMove
  }

  /** The events found after the loop has visited bars |data|-1 down to
      `i`; bar 0 has no previous bar and is skipped. */
  function Detected(data: seq<Bar>, rsi: seq<real>, i: nat): seq<Event>
    decreases |data| - i
  {
    if i >= |data| then []
    else
      var acc := Detected(data, rsi, i + 1);
      if i >= 1 then ScanBar(data, rsi, i, acc) else acc
  }

  /** All events the loop finds, in the order it finds them. */
  function Screen(data: seq<Bar>, rsi: seq<real>): (events: seq<Event>)
    ensures |events| <= Lookback
    ensures |events| < |data| || |data| == 0
  {
    DetectedCount(data, rsi, ScanStart(|data|));
    Detected(data, rsi, ScanStart(|data|))
  }

  /** The loop of `calculateIndicators`, from the newest bar back. */
  method ScreenLoop(data: seq<Bar>, rsi: seq<real>) returns (events: seq<Event>)
    ensures events == Screen(data, rsi)
  {
    events := [];
    var i := |data| - 1;
    while i >= ScanStart(|data|)
      invariant -1 <= i < |data|
      invariant i + 1 >= ScanStart(|data|)
      invariant events == Detected(data, rsi, i + 1)
    {
      if i >= 1 {
        var row := data[i];
        var pctChg := PctAt(data, i);
        if Exceeds(pctChg, MoveThreshold) {
          events := events + [MakeEvent(data, rsi, i, Surge)];
        } else if Undercuts(pctChg, -MoveThreshold) {
          events := events + [MakeEvent(data, rsi, i, Plunge)];
        }
        var prev5VolAvg := 0.0;
        if i >= 5 {
          prev5VolAvg := SumVolumes(data[i - 5..i]) / 5.0;
        }
        if prev5VolAvg > 0.0 && row.vol > SpikeFactor * prev5VolAvg {
          if !HasDate(events, row.tradeDate) {
            events := events + [MakeEvent(data, rsi, i, VolumeSpike)];
          }
        }
      }
      i := i - 1;
    }
  }

  /** What an event says about the bar it came from: the bar's date, close,
      percentage change and RSI, and a reason whose condition holds there.
      A volume spike is only reported on a bar without a big move. */
  ghost predicate EventOfBar(data: seq<Bar>, rsi: seq<real>, i: nat, e: Event)
    requires 1 <= i < |data|
  {
    && e == MakeEvent(data, rsi, i, e.reason)
    && (e.reason == Surge ==> Exceeds(PctAt(data, i), MoveThreshold))
    && (e.reason == Plunge ==> Undercuts(PctAt(data, i), -MoveThreshold))
    && (e.reason == VolumeSpike ==>
          && !Exceeds(PctAt(data, i), MoveThreshold)
          && !Undercuts(PctAt(data, i), -MoveThreshold)
          && i >= 5 && VolumeSpikeAt(data, i))
  }

  /** A bar adds at most one event to what was found before it. */
  lemma ScanBarAddsAtMostOne(data: seq<Bar>, rsi: seq<real>, i: nat, acc: seq<Event>)
    requires 1 <= i < |data|
    ensures var r := ScanBar(data, rsi, i, acc);
      r == acc || (|r| == |acc| + 1 && r[..|acc|] == acc && EventOfBar(data, rsi, i, r[|acc|]))
  {
    var pct := PctAt(data, i);
    var r := ScanBar(data, rsi, i, acc);
    if Exceeds(pct, MoveThreshold) || Undercuts(pct, -MoveThreshold) {
      var withMove := acc + [r[|acc|]];
      assert withMove[|withMove| - 1].date == data[i].tradeDate;
      assert HasDate(withMove, data[i].tradeDate);
    }
  }

  /** Only bars from `max(1, len - 30)` to `len - 1` produce events; bar 0,
      which has no previous bar, never does. Each event describes its bar. */
  lemma {:induction false} DetectedProvenance(data: seq<Bar>, rsi: seq<real>, i: nat)
    ensures forall e :: e in Detected(data, rsi, i) ==>
              exists j :: Max(1, i) <= j < |data| && EventOfBar(data, rsi, j, e)
    decreases |data| - i
  {
    if i < |data| {
      DetectedProvenance(data, rsi, i + 1);
      if i >= 1 {
        ScanBarAddsAtMostOne(data, rsi, i, Detected(data, rsi, i + 1));
      }
    }
  }

  /** The loop produces at most one event per bar it visits. */
  lemma {:induction false} DetectedCount(data: seq<Bar>, rsi: seq<real>, i: nat)
    ensures |Detected(data, rsi, i)| <= Max(0, |data| - Max(1, i))
    decreases |data| - i
  {
    if i < |data| {
      DetectedCount(data, rsi, i + 1);
      if i >= 1 {
        ScanBarAddsAtMostOne(data, rsi, i, Detected(data, rsi, i + 1));
      }
    }
  }

  /** Later loop turns only append. */
  lemma {:induction false} DetectedGrows(data: seq<Bar>, rsi: seq<real>, i: nat, j: nat)
    requires i <= j
    ensures Detected(data, rsi, j) <= Detected(data, rsi, i)
    decreases j - i
  {
    if i < j && i < |data| {
      DetectedGrows(data, rsi, i + 1, j);
      if i >= 1 {
        ScanBarAddsAtMostOne(data, rsi, i, Detected(data, rsi, i + 1));
      }
    }
  }

  /** Trading dates are unique within a history. */
  ghost predicate DistinctDates(data: seq<Bar>) {
    forall a, b :: 0 <= a < b < |data| ==> data[a].tradeDate != data[b].tradeDate
  }

  /** With distinct trading dates, no two events share a date. */
  lemma {:induction false} OneEventPerDate(data: seq<Bar>, rsi: seq<real>, i: nat)
    requires DistinctDates(data)
    ensures forall a, b :: 0 <= a < b < |Detected(data, rsi, i)| ==>
              Detected(data, rsi, i)[a].date != Detected(data, rsi, i)[b].date
    decreases |data| - i
  {
    if 1 <= i < |data| {
      OneEventPerDate(data, rsi, i + 1);
      var acc := Detected(data, rsi, i + 1);
      ScanBarAddsAtMostOne(data, rsi, i, acc);
      DetectedProvenance(data, rsi, i + 1);
      var r := Detected(data, rsi, i);
      if r != acc {
        forall a | 0 <= a < |acc|
          ensures acc[a].date != data[i].tradeDate
        {
          assert acc[a] in acc;
          var j :| i + 1 <= j < |data| && EventOfBar(data, rsi, j, acc[a]);
        }
      }
    } else if i == 0 && |data| > 0 {
      OneEventPerDate(data, rsi, 1);
    }
  }

  /** The turn for bar `j` appends its big-move event, and its volume-spike
      event when no earlier event carries its date. */
  lemma ScanBarReports(data: seq<Bar>, rsi: seq<real>, j: nat, acc: seq<Event>)
    requires 1 <= j < |data|
    ensures Exceeds(PctAt(data, j), MoveThreshold) ==> MakeEvent(data, rsi, j, Surge) in ScanBar(data, rsi, j, acc)
    ensures Undercuts(PctAt(data, j), -MoveThreshold) ==> MakeEvent(data, rsi, j, Plunge) in ScanBar(data, rsi, j, acc)
    ensures (!Exceeds(PctAt(data, j), MoveThreshold) && !Undercuts(PctAt(data, j), -MoveThreshold)
             && VolumeSpikeAt(data, j) && !HasDate(acc, data[j].tradeDate))
            ==> MakeEvent(data, rsi, j, VolumeSpike) in ScanBar(data, rsi, j, acc)
  {
    var r := ScanBar(data, rsi, j, acc);
    if Exceeds(PctAt(data, j), MoveThreshold) || Undercuts(PctAt(data, j), -MoveThreshold)
       || (VolumeSpikeAt(data, j) && !HasDate(acc, data[j].tradeDate)) {
      assert r[|acc|] in r;
    }
  }

  /** Events found before bar `j` was visited come from later bars, so with
      distinct dates none carries bar `j`'s date. */
  lemma NoEarlierEventOnDate(data: seq<Bar>, rsi: seq<real>, j: nat)
    requires DistinctDates(data)
    requires j < |data|
    ensures !HasDate(Detected(data, rsi, j + 1), data[j].tradeDate)
  {
    var acc := Detected(data, rsi, j + 1);
    DetectedProvenance(data, rsi, j + 1);
    forall a | 0 <= a < |acc|
      ensures acc[a].date != data[j].tradeDate
    {
      assert acc[a] in acc;
      var k :| j + 1 <= k < |data| && EventOfBar(data, rsi, k, acc[a]);
    }
  }

  /** Conversely, every big move in the window is reported, and so is every
      volume spike on a day without one (dates being distinct). */
  lemma DetectedComplete(data: seq<Bar>, rsi: seq<real>, j: nat)
    requires DistinctDates(data)
    requires Max(1, ScanStart(|data|)) <= j < |data|
    ensures Exceeds(PctAt(data, j), MoveThreshold) ==> MakeEvent(data, rsi, j, Surge) in Screen(data, rsi)
    ensures Undercuts(PctAt(data, j), -MoveThreshold) ==> MakeEvent(data, rsi, j, Plunge) in Screen(data, rsi)
    ensures (!Exceeds(PctAt(data, j), MoveThreshold) && !Undercuts(PctAt(data, j), -MoveThreshold)
             && VolumeSpikeAt(data, j)) ==> MakeEvent(data, rsi, j, VolumeSpike) in Screen(data, rsi)
  {
    var acc := Detected(data, rsi, j + 1);
    var here := Detected(data, rsi, j);
    assert here == ScanBar(data, rsi, j, acc);
    NoEarlierEventOnDate(data, rsi, j);
    ScanBarReports(data, rsi, j, acc);
    DetectedGrows(data, rsi, ScanStart(|data|), j);
    var all := Screen(data, rsi);
    assert forall e :: e in here ==> e in all by {
      forall e | e in here ensures e in all {
        var a :| 0 <= a < |here| && here[a] == e;
        assert all[a] == e;
      }
    }
  }

  /** The sort comparator `(a, b) => a.date.localeCompare(b.date)`; for the
      YYYYMMDD dates stored, locale order is code-unit order. */
  function ByDate(): (Event, Event) -> bool {
    (a: Event, b: Event) => LexLe(a.date, b.date)
  }

  lemma ByDateIsTotalPreorder()
    ensures TotalPreorder(ByDate())
  {
    forall a: Event, b: Event
      ensures ByDate()(a, b) || ByDate()(b, a)
    {
      LexLeTotal(a.date, b.date);
    }
    forall a: Event, b: Event, c: Event | ByDate()(a, b) && ByDate()(b, c)
      ensures ByDate()(a, c)
    {
      LexLeTransitive(a.date, b.date, c.date);
    }
  }

  /** `events.sort(byDate).slice(-10)`. */
  function RecentEvents(events: seq<Event>): seq<Event> {
    var sorted := Sort(events, ByDate());
    sorted[|sorted| - Min(MaxEvents, |sorted|)..]
  }

  /** The kept events are the last min(10, n) of the events sorted by
      date: in ascending date order, and none of the dropped ones is dated
      after any kept one. */
  lemma RecentEventsAreLatest(events: seq<Event>)
    ensures var sorted := Sort(events, ByDate());
      && |RecentEvents(events)| == Min(MaxEvents, |events|)
      && RecentEvents(events) == sorted[|sorted| - |RecentEvents(events)|..]
      && Sorted(RecentEvents(events), ByDate())
      && forall a, b :: 0 <= a < |sorted| - |RecentEvents(events)| <= b < |sorted| ==>
           LexLe(sorted[a].date, sorted[b].date)
  {
    ByDateIsTotalPreorder();
    SortSorted(events, ByDate());
    var sorted := Sort(events, ByDate());
    assert |sorted| == |events| by {
      assert |multiset(sorted)| == |multiset(events)|;
    }
  }

  /** The kept events are among those detected. */
  lemma RecentEventsAreDetected(events: seq<Event>)
    ensures multiset(RecentEvents(events)) <= multiset(events)
  {
    var sorted := Sort(events, ByDate());
    var start := |sorted| - Min(MaxEvents, |sorted|);
    assert sorted == sorted[..start] + sorted[start..];
    assert multiset(sorted) == multiset(sorted[..start]) + multiset(sorted[start..]);
  }
}

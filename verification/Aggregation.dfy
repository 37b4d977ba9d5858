/** The aggregation engine: windows of events become smoothed, normalised snapshots. */
module Aggregation {
  import opened Prelude
  import opened Events
  import opened Metrics
  import opened Smoothing
  import opened Window

  const SNAPSHOT_CAPACITY: nat := 256
  const DB_SNAPSHOT_CAPACITY: nat := 512
  const STALE_AFTER: nat := 5

  /** What the engine carries from one window to the next. */
  datatype Filter = Filter(emas: MetricMap, emptyWindows: nat)

  const ZERO_METRICS := MetricMap(0.0, 0.0, 0.0, 0.0, 0.0, 0.0)
  const INITIAL_FILTER := Filter(ZERO_METRICS, 0)

  function Smooth(raw: MetricMap, previous: MetricMap): MetricMap {
    MetricMap(
      ComputeEma(raw.cpuSchedLatencyP95, previous.cpuSchedLatencyP95, 0.3),
      ComputeEma(raw.cpuSchedContextRate, previous.cpuSchedContextRate, 0.3),
      ComputeEma(raw.memReclaimPressure, previous.memReclaimPressure, 0.3),
      ComputeEma(raw.netTxBytesNorm, previous.netTxBytesNorm, 0.3),
      ComputeEma(raw.netRxBytesNorm, previous.netRxBytesNorm, 0.3),
      ComputeEma(raw.procExecRate, previous.procExecRate, 0.3))
  }

  function RangeMin(k: Metric): real {
    if k == LatencyP95 then 1000.0 else 0.0
  }

  function RangeMax(k: Metric): (max: real)
    ensures RangeMin(k) < max
  {
    match k
    case LatencyP95 => 20000.0
    case ContextRate => 80.0
    case ReclaimPressure => 500.0
    case NetTx => 30000.0
    case NetRx => 30000.0
    case ExecRate => 3.0
  }

  function Normalized(emas: MetricMap, k: Metric): real {
    NormalizeMinMax(emas.At(k), RangeMin(k), RangeMax(k))
  }

  function Normalize(emas: MetricMap): MetricMap {
    MetricMap(Normalized(emas, LatencyP95), Normalized(emas, ContextRate), Normalized(emas, ReclaimPressure),
              Normalized(emas, NetTx), Normalized(emas, NetRx), Normalized(emas, ExecRate))
  }

  /** Closing a window of events. */
  function Close(f: Filter, window: seq<RawEvent>): Filter {
    Filter(Smooth(RawMetrics(window), f.emas), if window == [] then f.emptyWindows + 1 else 0)
  }

  function SnapshotOf(f: Filter, nowUs: nat, windowMs: nat, lost: nat): StateSnapshot {
    StateSnapshot(nowUs, windowMs, f.emptyWindows >= STALE_AFTER, lost, Normalize(f.emas))
  }

  /** Overwriting the shared snapshot; a poisoned lock leaves it out. */
  function Shown(shared: Option<StateSnapshot>, snapshot: StateSnapshot): Option<StateSnapshot> {
    if shared.Some? then Some(snapshot) else None
  }

  /** The database tap: a full queue drops the snapshot. */
  function Tapped(queue: seq<StateSnapshot>, snapshot: StateSnapshot): seq<StateSnapshot> {
    Offered(queue, DB_SNAPSHOT_CAPACITY, snapshot)
  }

  /** What the tick branch reads and writes. */
  datatype TickView = TickView(
    filter: Filter,
    window: seq<RawEvent>,
    lost: nat,
    timestampUs: nat,
    shared: Option<StateSnapshot>,
    tx: seq<StateSnapshot>,
    dbTx: Option<seq<StateSnapshot>>)

  /** Publishing a snapshot: to the shared state, to the mapper and to the database tap; the window is cleared. */
  function Published(v: TickView, snapshot: StateSnapshot): TickView {
    v.(window := [], shared := Shown(v.shared, snapshot), tx := Offered(v.tx, SNAPSHOT_CAPACITY, snapshot),
       dbTx := match v.dbTx case None => None case Some(q) => Some(Tapped(q, snapshot)))
  }

  /** The tick branch as one step. */
  function Ticked(v: TickView, windowMs: nat, nowUs: nat): TickView {
    var filter := Close(v.filter, v.window);
    Published(v.(filter := filter, lost := 0, timestampUs := nowUs), SnapshotOf(filter, nowUs, windowMs, v.lost))
  }

  // ---------- The engine ----------

  class Aggregator {
    const windowMs: nat
    var currentWindowEvents: seq<RawEvent>
    var emaCpuLatency: real
    var emaCpuRate: real
    var emaMemPressure: real
    var emaNetTx: real
    var emaNetRx: real
    var emaProcExec: real
    var consecutiveEmptyWindows: nat
    var cumulativeLostEvents: nat
    var snapshotTimestampUs: nat
    var sharedState: Option<StateSnapshot>  // None: the lock is poisoned
    var tx: seq<StateSnapshot>
    var dbTx: Option<seq<StateSnapshot>>

    function State(): Filter
      reads this
    {
      Filter(MetricMap(emaCpuLatency, emaCpuRate, emaMemPressure, emaNetTx, emaNetRx, emaProcExec), consecutiveEmptyWindows)
    }

    function View(): TickView
      reads this
    {
      TickView(State(), currentWindowEvents, cumulativeLostEvents, snapshotTimestampUs, sharedState, tx, dbTx)
    }

    constructor (requestedWindowMs: nat, shared: Option<StateSnapshot>, dbTx: Option<seq<StateSnapshot>>)
      ensures requestedWindowMs < 10 ==> windowMs == 10
      ensures requestedWindowMs > 500 ==> windowMs == 500
      ensures 10 <= requestedWindowMs <= 500 ==> windowMs == requestedWindowMs
      ensures State() == INITIAL_FILTER && currentWindowEvents == [] && cumulativeLostEvents == 0
      ensures sharedState == shared && snapshotTimestampUs == 0 && tx == [] && this.dbTx == dbTx
    {
      windowMs := if requestedWindowMs < 10 then 10 else if requestedWindowMs > 500 then 500 else requestedWindowMs;
      currentWindowEvents := [];
      emaCpuLatency, emaCpuRate, emaMemPressure := 0.0, 0.0, 0.0;
      emaNetTx, emaNetRx, emaProcExec := 0.0, 0.0, 0.0;
      consecutiveEmptyWindows, cumulativeLostEvents, snapshotTimestampUs := 0, 0, 0;
      sharedState := shared;
      tx := [];
      this.dbTx := dbTx;
    }

    method Receive(event: RawEvent)
      modifies `currentWindowEvents
      ensures currentWindowEvents == old(currentWindowEvents) + [event]
    {
      currentWindowEvents := currentWindowEvents + [event];
    }

    /** One pass over the window, as the match in the tick branch. */
    method Tally() returns (cpuLatencies: seq<nat>, contextSwitches: nat, pages: nat, bytesTx: nat, bytesRx: nat, execs: nat)
      ensures cpuLatencies == Latencies(currentWindowEvents)
      ensures contextSwitches == Sum(currentWindowEvents, Switches) && pages == Sum(currentWindowEvents, Pages)
      ensures bytesTx == Sum(currentWindowEvents, BytesTx) && bytesRx == Sum(currentWindowEvents, BytesRx)
      ensures execs == Sum(currentWindowEvents, Execs)
    {
      cpuLatencies, contextSwitches, pages, bytesTx, bytesRx, execs := [], 0, 0, 0, 0, 0;
      var events := currentWindowEvents;
      for i := 0 to |events|
        invariant cpuLatencies == Latencies(events[..i])
        invariant contextSwitches == Sum(events[..i], Switches) && pages == Sum(events[..i], Pages)
        invariant bytesTx == Sum(events[..i], BytesTx) && bytesRx == Sum(events[..i], BytesRx)
        invariant execs == Sum(events[..i], Execs)
      {
        assert events[..i + 1][..i] == events[..i];
        match events[i].payload
        case CpuSchedEvent(_, _, latency, _) =>
          cpuLatencies := cpuLatencies + [latency];
          contextSwitches := contextSwitches + 1;
        case MemPressureEvent(reclaimed, _) =>
          pages := pages + reclaimed;
        case NetIoEvent(sent, received, _) =>
          bytesTx := bytesTx + sent;
          bytesRx := bytesRx + received;
        case ProcLifecycleEvent(_, _) =>
          execs := execs + 1;
      }
      assert events[..|events|] == events;
    }

    /** Smoothing of the six metrics of the current window. */
    method UpdateEmas()
      modifies `emaCpuLatency, `emaCpuRate, `emaMemPressure, `emaNetTx, `emaNetRx, `emaProcExec
      ensures State().emas == Smooth(RawMetrics(currentWindowEvents), old(State().emas))
    {
      var cpuLatencies, contextSwitches, pages, bytesTx, bytesRx, execs := Tally();
      var rawP95Latency := 0.0;
      if cpuLatencies != [] {
        var sorted := SortedCopy(cpuLatencies);
        var idx := 19 * |cpuLatencies| / 20;
        var idxClamped := if idx < |cpuLatencies| - 1 then idx else |cpuLatencies| - 1;
        rawP95Latency := sorted[idxClamped] as real;
      }
      emaCpuLatency := ComputeEma(rawP95Latency, emaCpuLatency, 0.3);
      emaCpuRate := ComputeEma(contextSwitches as real, emaCpuRate, 0.3);
      emaMemPressure := ComputeEma(pages as real, emaMemPressure, 0.3);
      emaNetTx := ComputeEma(bytesTx as real, emaNetTx, 0.3);
      emaNetRx := ComputeEma(bytesRx as real, emaNetRx, 0.3);
      emaProcExec := ComputeEma(execs as real, emaProcExec, 0.3);
    }

    method CurrentMetrics() returns (metrics: MetricMap)
      ensures metrics == Normalize(State().emas)
    {
      metrics := MetricMap(
        NormalizeMinMax(emaCpuLatency, 1000.0, 20000.0),
        NormalizeMinMax(emaCpuRate, 0.0, 80.0),
        NormalizeMinMax(emaMemPressure, 0.0, 500.0),
        NormalizeMinMax(emaNetTx, 0.0, 30000.0),
        NormalizeMinMax(emaNetRx, 0.0, 30000.0),
        NormalizeMinMax(emaProcExec, 0.0, 3.0));
    }

    /** Publishing a snapshot: to the shared state, to the mapper, and to the database tap; full channels drop it. */
    method Publish(snapshot: StateSnapshot)
      modifies `sharedState, `tx, `dbTx, `currentWindowEvents
      ensures View() == Published(old(View()), snapshot)
    {
      if sharedState.Some? {
        sharedState := Some(snapshot);
      }
      if |tx| < SNAPSHOT_CAPACITY {
        tx := tx + [snapshot];
      }
      if dbTx.Some? && |dbTx.value| < DB_SNAPSHOT_CAPACITY {
        dbTx := Some(dbTx.value + [snapshot]);
      }
      currentWindowEvents := [];
    }

    /** From the window and the lost-event delta to the snapshot. */
    method BuildSnapshot(nowUs: nat, lostEventsDelta: nat) returns (snapshot: StateSnapshot)
      modifies `emaCpuLatency, `emaCpuRate, `emaMemPressure, `emaNetTx, `emaNetRx, `emaProcExec, `consecutiveEmptyWindows
      ensures View() == old(View()).(filter := Close(old(State()), currentWindowEvents))
      ensures snapshot == SnapshotOf(State(), nowUs, windowMs, lostEventsDelta)
    {
      if currentWindowEvents == [] {
        consecutiveEmptyWindows := consecutiveEmptyWindows + 1;
      } else {
        consecutiveEmptyWindows := 0;
      }
      var stale := consecutiveEmptyWindows >= STALE_AFTER;
      UpdateEmas();
      assert State() == Close(old(State()), currentWindowEvents);
      var metrics := CurrentMetrics();
      snapshot := StateSnapshot(nowUs, windowMs, stale, lostEventsDelta, metrics);
    }

    /** The tick branch from the clock reading to the cleared window, with no other task in between. */
    method Tick(nowUs: nat)
      modifies this
      ensures View() == Ticked(old(View()), windowMs, nowUs)
    {
      snapshotTimestampUs := nowUs;
      var lostEventsDelta := cumulativeLostEvents;
      cumulativeLostEvents := 0;
      var snapshot := BuildSnapshot(nowUs, lostEventsDelta);
      Publish(snapshot);
    }

    /** The arrivals of one window and its tick. */
    method RunWindow(arrivals: seq<RawEvent>, nowUs: nat)
      modifies this
      ensures View() == Ticked(old(View()).(window := old(currentWindowEvents) + arrivals), windowMs, nowUs)
    {
      for k := 0 to |arrivals|
        invariant View() == old(View()).(window := old(currentWindowEvents) + arrivals[..k])
      {
        Receive(arrivals[k]);
      }
      assert arrivals[..|arrivals|] == arrivals;
      Tick(nowUs);
    }

    /** The engine's loop over whole windows: the arrivals of each, then its tick at the given time. */
    method RunWindows(windows: Windows, clockUs: seq<nat>)
      requires |clockUs| == |windows|
      requires State() == INITIAL_FILTER && currentWindowEvents == []
      modifies this
      ensures State() == FilterAfter(windows) && currentWindowEvents == []
      ensures windows != [] && old(sharedState).Some? ==>
        sharedState == Some(SnapshotOf(FilterAfter(windows), clockUs[|windows| - 1], windowMs,
                                       if |windows| == 1 then old(cumulativeLostEvents) else 0))
    {
      for i := 0 to |windows|
        invariant State() == FilterAfter(windows[..i]) && currentWindowEvents == []
        invariant cumulativeLostEvents == if i == 0 then old(cumulativeLostEvents) else 0
        invariant sharedState.Some? == old(sharedState).Some?
        invariant i > 0 && sharedState.Some? ==>
          sharedState.value == SnapshotOf(State(), clockUs[i - 1], windowMs,
                                          if i == 1 then old(cumulativeLostEvents) else 0)
      {
        assert windows[..i + 1][..i] == windows[..i];
        ghost var before := View();
        RunWindow(windows[i], clockUs[i]);
        assert [] + windows[i] == windows[i];
        assert View() == Ticked(before.(window := windows[i]), windowMs, clockUs[i]);
      }
      assert windows[..|windows|] == windows;
    }
  }

  // ---------- Runs of windows ----------

  type Windows = seq<seq<RawEvent>>

  /** One smoothed metric after a run of windows. */
  function SmoothedMetric(windows: Windows, k: Metric): real {
    FilterAfter(windows).emas.At(k)
  }

  /** One metric of the snapshot built at the end of a run of windows. */
  function NormalizedMetric(windows: Windows, k: Metric): real {
    NormalizeMinMax(SmoothedMetric(windows, k), RangeMin(k), RangeMax(k))
  }

  /** The state of the engine after a run of windows. */
  function FilterAfter(windows: Windows): Filter {
    if windows == [] then INITIAL_FILTER else Close(FilterAfter(windows[..|windows| - 1]), windows[|windows| - 1])
  }

  function Mapped<T>(xs: seq<T>, f: T -> real): (s: seq<real>)
    ensures |s| == |xs| && forall i :: 0 <= i < |xs| ==> s[i] == f(xs[i])
  {
    seq(|xs|, i requires 0 <= i < |xs| => f(xs[i]))
  }

  function RawValue(k: Metric): seq<RawEvent> -> real {
    window => RawMetrics(window).At(k)
  }

  /** The raw values of one metric over a run of windows. */
  function Series(windows: Windows, k: Metric): (s: seq<real>) {
    Mapped(windows, RawValue(k))
  }

  /** Each smoothed metric is the smoothed series of that metric alone. */
  lemma {:induction false} MetricsAreSmoothed(windows: Windows, k: Metric)
    ensures SmoothedMetric(windows, k) == Ema(Series(windows, k))
  {
    if windows == [] {
    } else {
      var n := |windows| - 1;
      MetricsAreSmoothed(windows[..n], k);
      assert Series(windows, k)[..n] == Series(windows[..n], k);
    }
  }

  /** Hence every smoothed metric is the explicitly weighted sum of the raw metrics of all windows so far. */
  lemma MetricsAreWeightedSums(windows: Windows, k: Metric)
    ensures SmoothedMetric(windows, k) == WeightedSum(Series(windows, k), |windows|, |windows|)
  {
    MetricsAreSmoothed(windows, k);
    EmaClosedForm(Series(windows, k));
  }

  function Silence(k: nat): (w: Windows)
    ensures |w| == k && forall i :: 0 <= i < k ==> w[i] == []
  {
    seq(k, _ => [])
  }

  lemma MappedRepeats<T>(xs: seq<T>, ys: seq<T>, x: T, f: T -> real)
    requires f(x) == 0.0 && forall i :: 0 <= i < |ys| ==> ys[i] == x
    ensures Mapped(xs + ys, f) == Mapped(xs, f) + Zeros(|ys|)
  {
  }

  lemma MappedExchanged<T>(xs: seq<T>, i: nat, x: T, f: T -> real, d: real)
    requires i < |xs| && d == f(x) - f(xs[i])
    ensures Mapped(xs[i := x], f) == Mapped(xs, f)[i := Mapped(xs, f)[i] + d]
  {
  }

  lemma MappedInfluence<T>(xs: seq<T>, i: nat, x: T, f: T -> real, d: real)
    requires i < |xs| && d == f(x) - f(xs[i])
    ensures Ema(Mapped(xs[i := x], f)) == Ema(Mapped(xs, f)) + Influence(|xs|, i, d)
  {
    MappedExchanged(xs, i, x, f, d);
    EmaSensitivity(Mapped(xs, f), Mapped(xs[i := x], f), i, d);
  }

  lemma RawOfNothing(k: Metric)
    ensures RawValue(k)([]) == 0.0
  {
    assert RawMetrics([]) == ZERO_METRICS;
  }

  /** k windows without events scale every smoothed metric by exactly 0.7^k. */
  lemma SilenceDecays(windows: Windows, k: nat, m: Metric)
    ensures SmoothedMetric(windows + Silence(k), m) == Decayed(k, SmoothedMetric(windows, m))
  {
    var all := windows + Silence(k);
    calc {
      SmoothedMetric(all, m);
      { MetricsAreSmoothed(all, m); }
      Ema(Series(all, m));
      { RawOfNothing(m); MappedRepeats(windows, Silence(k), [], RawValue(m)); }
      Ema(Series(windows, m) + Zeros(k));
      { EmaOfSilence(Series(windows, m), k); }
      Decayed(k, Ema(Series(windows, m)));
      { MetricsAreSmoothed(windows, m); }
      Decayed(k, SmoothedMetric(windows, m));
    }
  }

  /** The empty-window counter counts the empty windows at the end of the run. */
  lemma {:induction false} EmptyWindowsCounted(windows: Windows)
    ensures var c := FilterAfter(windows).emptyWindows;
      && c <= |windows|
      && (forall i :: |windows| - c <= i < |windows| ==> windows[i] == [])
      && (c < |windows| ==> windows[|windows| - 1 - c] != [])
  {
    if windows == [] {
    } else {
      EmptyWindowsCounted(windows[..|windows| - 1]);
    }
  }

  /** A snapshot is stale exactly if the last five windows existed and were all empty. */
  lemma StaleAfterFiveEmptyWindows(windows: Windows, nowUs: nat, windowMs: nat, lost: nat)
    ensures SnapshotOf(FilterAfter(windows), nowUs, windowMs, lost).stale
      <==> |windows| >= 5 && forall i :: |windows| - 5 <= i < |windows| ==> windows[i] == []
  {
    EmptyWindowsCounted(windows);
  }

  /** Two runs whose windows hold the same events, each window in any order. */
  ghost predicate Rearranged(a: Windows, b: Windows) {
    |a| == |b| && forall i :: 0 <= i < |a| ==> multiset(a[i]) == multiset(b[i])
  }

  /** Reordering the arrivals within windows changes nothing in any snapshot of the run. */
  lemma {:induction false} ArrivalOrderIrrelevant(a: Windows, b: Windows)
    requires Rearranged(a, b)
    ensures FilterAfter(a) == FilterAfter(b)
  {
    if a == [] {
    } else {
      var n := |a| - 1;
      ArrivalOrderIrrelevant(a[..n], b[..n]);
      RawMetricsOfRearranged(a[n], b[n]);
      assert a[n] == [] <==> |multiset(a[n])| == 0;
      assert b[n] == [] <==> |multiset(b[n])| == 0;
    }
  }

  /** Every metric of every snapshot lies in the unit interval. */
  lemma MetricsInUnitInterval(f: Filter, k: Metric)
    ensures 0.0 <= Normalize(f.emas).At(k) <= 1.0
  {
    NormalizeMonotone(f.emas.At(k), f.emas.At(k), RangeMin(k), RangeMax(k));
  }

  /** Where each metric of a snapshot starts and ends: p95 at 1000 and 20000 ns, the others at 0 and at 80 switches, 500
      pages, 30000 bytes either way and 3 executions per window. */
  lemma MetricScales(emas: MetricMap)
    ensures var m := Normalize(emas);
      && (m.cpuSchedLatencyP95 == 0.0 <==> emas.cpuSchedLatencyP95 <= 1000.0)
      && (m.cpuSchedLatencyP95 == 1.0 <==> emas.cpuSchedLatencyP95 >= 20000.0)
      && (m.cpuSchedContextRate == 0.0 <==> emas.cpuSchedContextRate <= 0.0)
      && (m.cpuSchedContextRate == 1.0 <==> emas.cpuSchedContextRate >= 80.0)
      && (m.memReclaimPressure == 0.0 <==> emas.memReclaimPressure <= 0.0)
      && (m.memReclaimPressure == 1.0 <==> emas.memReclaimPressure >= 500.0)
      && (m.netTxBytesNorm == 0.0 <==> emas.netTxBytesNorm <= 0.0)
      && (m.netTxBytesNorm == 1.0 <==> emas.netTxBytesNorm >= 30000.0)
      && (m.netRxBytesNorm == 0.0 <==> emas.netRxBytesNorm <= 0.0)
      && (m.netRxBytesNorm == 1.0 <==> emas.netRxBytesNorm >= 30000.0)
      && (m.procExecRate == 0.0 <==> emas.procExecRate <= 0.0)
      && (m.procExecRate == 1.0 <==> emas.procExecRate >= 3.0)
  {
    EndsOfScale(emas.cpuSchedLatencyP95, 1000.0, 20000.0);
    EndsOfScale(emas.cpuSchedContextRate, 0.0, 80.0);
    EndsOfScale(emas.memReclaimPressure, 0.0, 500.0);
    EndsOfScale(emas.netTxBytesNorm, 0.0, 30000.0);
    EndsOfScale(emas.netRxBytesNorm, 0.0, 30000.0);
    EndsOfScale(emas.procExecRate, 0.0, 3.0);
  }

  /** How far one window reaches: exchanging window i, so that its raw metric changes by d, moves the smoothed metric
      after n windows by exactly 0.3 * 0.7^(n-1-i) * d. */
  lemma WindowInfluence(windows: Windows, i: nat, other: seq<RawEvent>, k: Metric, d: real)
    requires i < |windows|
    requires d == RawValue(k)(other) - RawValue(k)(windows[i])
    ensures SmoothedMetric(windows[i := other], k) == SmoothedMetric(windows, k) + Influence(|windows|, i, d)
  {
    MetricsAreSmoothed(windows, k);
    MetricsAreSmoothed(windows[i := other], k);
    MappedInfluence(windows, i, other, RawValue(k), d);
  }

  /** The metric of the snapshot moves by at most that over the normalisation range. */
  lemma WindowInfluenceOnSnapshot(windows: Windows, i: nat, other: seq<RawEvent>, k: Metric, d: real)
    requires i < |windows|
    requires d == RawValue(k)(other) - RawValue(k)(windows[i])
    ensures Abs(NormalizedMetric(windows[i := other], k) - NormalizedMetric(windows, k))
         <= Abs(Influence(|windows|, i, d)) / (RangeMax(k) - RangeMin(k))
  {
    WindowInfluence(windows, i, other, k, d);
    var x, y := SmoothedMetric(windows[i := other], k), SmoothedMetric(windows, k);
    assert x - y == Influence(|windows|, i, d);
    NormalizeLipschitz(x, y, RangeMin(k), RangeMax(k));
  }
}

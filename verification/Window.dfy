/** Raw metrics of one window of events: totals per probe and the 95th percentile of the scheduling latencies. */
module Window {
  import opened Prelude
  import opened Events
  import opened Metrics
  import opened Rounding

  // ---------- Totals ----------

  function Switches(e: RawEvent): nat {
    if e.payload.CpuSchedEvent? then 1 else 0
  }

  function Pages(e: RawEvent): nat {
    if e.payload.MemPressureEvent? then e.payload.pagesReclaimed else 0
  }

  function BytesTx(e: RawEvent): nat {
    if e.payload.NetIoEvent? then e.payload.bytesTx else 0
  }

  function BytesRx(e: RawEvent): nat {
    if e.payload.NetIoEvent? then e.payload.bytesRx else 0
  }

  function Execs(e: RawEvent): nat {
    if e.payload.ProcLifecycleEvent? then 1 else 0
  }

  /** Latencies of the scheduling events, in arrival order. */
  function Latencies(events: seq<RawEvent>): (l: seq<nat>)
    ensures |l| == Sum(events, Switches)
  {
    if events == [] then []
    else
      var n := |events| - 1;
      Latencies(events[..n])
      + if events[n].payload.CpuSchedEvent? then [events[n].payload.latencyNs] else []
  }

  // ---------- Sorting ----------

  ghost predicate Sorted(s: seq<nat>) {
    forall i, j :: 0 <= i < j < |s| ==> s[i] <= s[j]
  }

  function Insert(x: nat, s: seq<nat>): (r: seq<nat>)
    ensures |r| == |s| + 1
  {
    if s == [] || x <= s[0] then [x] + s else [s[0]] + Insert(x, s[1..])
  }

  /** The sorted rearrangement of xs. Any sorting routine returns it: see SortIsUnique. */
  function SortedCopy(xs: seq<nat>): (s: seq<nat>)
    ensures |s| == |xs|
  {
    if xs == [] then [] else Insert(xs[0], SortedCopy(xs[1..]))
  }

  lemma {:induction false} InsertAdds(x: nat, s: seq<nat>)
    ensures multiset(Insert(x, s)) == multiset{x} + multiset(s)
  {
    if s == [] || x <= s[0] {
    } else {
      InsertAdds(x, s[1..]);
      assert s == [s[0]] + s[1..];
    }
  }

  lemma SortedWithLeast(x: nat, s: seq<nat>)
    requires Sorted(s) && forall j :: 0 <= j < |s| ==> x <= s[j]
    ensures Sorted([x] + s)
  {
  }

  lemma {:induction false} InsertSorts(x: nat, s: seq<nat>)
    requires Sorted(s)
    ensures Sorted(Insert(x, s))
  {
    if s == [] || x <= s[0] {
      SortedWithLeast(x, s);
    } else {
      InsertSorts(x, s[1..]);
      InsertAdds(x, s[1..]);
      var r := Insert(x, s[1..]);
      forall j | 0 <= j < |r| ensures s[0] <= r[j] {
        assert r[j] in multiset(r);
      }
      SortedWithLeast(s[0], r);
    }
  }

  lemma {:induction false} SortedCopySorts(xs: seq<nat>)
    ensures Sorted(SortedCopy(xs))
    ensures multiset(SortedCopy(xs)) == multiset(xs)
  {
    if xs == [] {
    } else {
      SortedCopySorts(xs[1..]);
      InsertSorts(xs[0], SortedCopy(xs[1..]));
      InsertAdds(xs[0], SortedCopy(xs[1..]));
      assert xs == [xs[0]] + xs[1..];
    }
  }

  lemma TailContents(s: seq<nat>)
    requires s != []
    ensures multiset(s[1..]) == multiset(s) - multiset{s[0]}
  {
    assert s == [s[0]] + s[1..];
  }

  lemma FirstIsLeast(s: seq<nat>, x: nat)
    requires Sorted(s) && x in multiset(s)
    ensures s[0] <= x
  {
    var i :| 0 <= i < |s| && s[i] == x;
  }

  lemma TailSorted(s: seq<nat>)
    requires Sorted(s) && s != []
    ensures Sorted(s[1..])
  {
  }

  lemma SameFirst(s: seq<nat>, t: seq<nat>)
    requires Sorted(s) && Sorted(t) && multiset(s) == multiset(t) && s != [] && t != []
    ensures s[0] == t[0]
    ensures multiset(s[1..]) == multiset(t[1..])
  {
    assert s[0] in multiset(s) && t[0] in multiset(t);
    FirstIsLeast(s, t[0]);
    FirstIsLeast(t, s[0]);
    TailContents(s);
    TailContents(t);
  }

  /** A sorted sequence is determined by the multiset of its elements. */
  lemma {:induction false} SortIsUnique(s: seq<nat>, t: seq<nat>)
    requires Sorted(s) && Sorted(t) && multiset(s) == multiset(t)
    ensures s == t
    decreases |s|
  {
    assert |s| == |multiset(s)| == |t|;
    if s == [] {
    } else {
      SameFirst(s, t);
      TailSorted(s);
      TailSorted(t);
      SortIsUnique(s[1..], t[1..]);
      assert s == [s[0]] + s[1..] && t == [t[0]] + t[1..];
    }
  }

  // ---------- The 95th percentile ----------

  /** floor(0.95 * n), clamped to the last index. */
  function PercentileIndex(n: nat): (i: nat)
    requires n > 0
    ensures i < n
  {
    var idx := 19 * n / 20;
    if idx < n - 1 then idx else n - 1
  }

  function Percentile95(latencies: seq<nat>): nat
    requires latencies != []
  {
    SortedCopy(latencies)[PercentileIndex(|latencies|)]
  }

  /** How many elements are at most v. */
  function AtMost(xs: seq<nat>, v: int): nat {
    Sum(xs, x => if x <= v then 1 else 0)
  }

  /** How many elements exceed v. */
  function Above(xs: seq<nat>, v: int): nat {
    Sum(xs, x => if x > v then 1 else 0)
  }

  lemma {:induction false} AtMostOrAbove(xs: seq<nat>, v: int)
    ensures AtMost(xs, v) + Above(xs, v) == |xs|
  {
    if xs == [] {
    } else {
      AtMostOrAbove(xs[..|xs| - 1], v);
    }
  }

  /** In a sorted sequence an element is at most v exactly if more elements than its index are. */
  lemma {:induction false} RankOfIndex(s: seq<nat>, i: nat, v: int)
    requires Sorted(s) && i < |s|
    ensures s[i] <= v <==> AtMost(s, v) > i
  {
    var n := |s| - 1;
    AtMostOrAbove(s, v);
    if s[n] <= v {
      NoneAbove(s, v);
    } else if i < n {
      RankOfIndex(s[..n], i, v);
    } else {
      AtMostOrAbove(s[..n], v);
    }
  }

  lemma {:induction false} NoneAbove(s: seq<nat>, v: int)
    requires forall i :: 0 <= i < |s| ==> s[i] <= v
    ensures Above(s, v) == 0
  {
    if s == [] {
    } else {
      NoneAbove(s[..|s| - 1], v);
    }
  }

  lemma CountsOfSorted(xs: seq<nat>, v: int)
    ensures AtMost(SortedCopy(xs), v) == AtMost(xs, v)
  {
    SortedCopySorts(xs);
    SumRearranged(SortedCopy(xs), xs, x => if x <= v then 1 else 0);
  }

  /** The clamp in the index computation never changes it. */
  lemma ClampNeverFires(n: nat)
    requires n > 0
    ensures PercentileIndex(n) == 19 * n / 20
  {
  }

  /** The program computes the index in doubles; for windows of less than 2^40 events rounding never changes it. */
  lemma IndexInDoubles(n: nat)
    requires 0 < n < 0x100_0000_0000
    ensures Double(Double(0.95) * n as real).Floor == PercentileIndex(n)
  {
    ProductCutOff(n);
  }

  /** The result is the one value v with more than floor(19n/20) elements at most v and no more than that below v. */
  lemma PercentileCharacterized(xs: seq<nat>, v: nat)
    requires xs != []
    ensures v == Percentile95(xs) <==> AtMost(xs, v) > 19 * |xs| / 20 >= AtMost(xs, v - 1)
  {
    SortedCopySorts(xs);
    ClampNeverFires(|xs|);
    CountsOfSorted(xs, v);
    CountsOfSorted(xs, v - 1);
    var i := PercentileIndex(|xs|);
    RankOfIndex(SortedCopy(xs), i, v);
    RankOfIndex(SortedCopy(xs), i, v - 1);
  }

  /** A true rank statistic: a member, exceeded by fewer than a twentieth, with at most floor(19n/20) elements below it. */
  lemma PercentileRank(xs: seq<nat>)
    requires xs != []
    ensures Percentile95(xs) in xs
    ensures 20 * Above(xs, Percentile95(xs)) < |xs|
    ensures AtMost(xs, Percentile95(xs) - 1) <= 19 * |xs| / 20
  {
    var p := Percentile95(xs);
    SortedCopySorts(xs);
    assert p in multiset(SortedCopy(xs));
    PercentileCharacterized(xs, p);
    AtMostOrAbove(xs, p);
  }

  /** Raising latencies pointwise never lowers the percentile. */
  lemma PercentileMonotone(xs: seq<nat>, ys: seq<nat>)
    requires xs != [] && |xs| == |ys|
    requires forall i :: 0 <= i < |xs| ==> xs[i] <= ys[i]
    ensures Percentile95(xs) <= Percentile95(ys)
  {
    var v := Percentile95(ys);
    PercentileCharacterized(ys, v);
    FewerAtMost(xs, ys, v);
    CountsOfSorted(xs, v);
    SortedCopySorts(xs);
    ClampNeverFires(|xs|);
    RankOfIndex(SortedCopy(xs), PercentileIndex(|xs|), v);
  }

  lemma {:induction false} FewerAtMost(xs: seq<nat>, ys: seq<nat>, v: int)
    requires |xs| == |ys| && forall i :: 0 <= i < |xs| ==> xs[i] <= ys[i]
    ensures AtMost(ys, v) <= AtMost(xs, v)
  {
    if xs == [] {
    } else {
      FewerAtMost(xs[..|xs| - 1], ys[..|ys| - 1], v);
    }
  }

  // ---------- Raw metrics ----------

  function RawMetrics(events: seq<RawEvent>): MetricMap {
    var latencies := Latencies(events);
    MetricMap(
      if latencies == [] then 0.0 else Percentile95(latencies) as real,
      Sum(events, Switches) as real,
      Sum(events, Pages) as real,
      Sum(events, BytesTx) as real,
      Sum(events, BytesRx) as real,
      Sum(events, Execs) as real)
  }

  /** What each payload contributes to the five totals of its window. */
  lemma CountsOfPayload(e: RawEvent)
    ensures match e.payload
      case CpuSchedEvent(_, _, _, _) =>
        Switches(e) == 1 && Pages(e) == 0 && BytesTx(e) == 0 && BytesRx(e) == 0 && Execs(e) == 0
      case MemPressureEvent(reclaimed, _) =>
        Switches(e) == 0 && Pages(e) == reclaimed && BytesTx(e) == 0 && BytesRx(e) == 0 && Execs(e) == 0
      case NetIoEvent(sent, received, _) =>
        Switches(e) == 0 && Pages(e) == 0 && BytesTx(e) == sent && BytesRx(e) == received && Execs(e) == 0
      case ProcLifecycleEvent(_, _) =>
        Switches(e) == 0 && Pages(e) == 0 && BytesTx(e) == 0 && BytesRx(e) == 0 && Execs(e) == 1
  {
  }

  /** One for each scheduling event with a latency of at most v. */
  function WithLatencyAtMost(v: real): RawEvent -> nat {
    (e: RawEvent) => if e.payload.CpuSchedEvent? && e.payload.latencyNs as real <= v then 1 else 0
  }

  function WithLatencyBelow(v: real): RawEvent -> nat {
    (e: RawEvent) => if e.payload.CpuSchedEvent? && (e.payload.latencyNs as real) < v then 1 else 0
  }

  lemma {:induction false} LatenciesCounted(events: seq<RawEvent>, v: nat)
    ensures AtMost(Latencies(events), v) == Sum(events, WithLatencyAtMost(v as real))
    ensures AtMost(Latencies(events), v - 1) == Sum(events, WithLatencyBelow(v as real))
  {
    if events == [] {
    } else {
      var n := |events| - 1;
      LatenciesCounted(events[..n], v);
      if events[n].payload.CpuSchedEvent? {
        assert Latencies(events) == Latencies(events[..n]) + [events[n].payload.latencyNs];
        AtMostSnoc(Latencies(events[..n]), events[n].payload.latencyNs, v);
        AtMostSnoc(Latencies(events[..n]), events[n].payload.latencyNs, v - 1);
      } else {
        assert Latencies(events) == Latencies(events[..n]);
      }
    }
  }

  lemma AtMostSnoc(xs: seq<nat>, x: nat, v: int)
    ensures AtMost(xs + [x], v) == AtMost(xs, v) + if x <= v then 1 else 0
  {
    SumSnoc(xs, x, x => if x <= v then 1 else 0);
  }

  ghost predicate HasLatency(events: seq<RawEvent>, v: real) {
    exists e :: e in events && e.payload.CpuSchedEvent? && e.payload.latencyNs as real == v
  }

  lemma {:induction false} LatencyOfEvent(events: seq<RawEvent>, v: nat)
    requires v in Latencies(events)
    ensures HasLatency(events, v as real)
  {
    var n := |events| - 1;
    if events[n].payload.CpuSchedEvent? && events[n].payload.latencyNs == v {
      assert events[n] in events;
    } else {
      LatencyOfEvent(events[..n], v);
    }
  }

  /** The latency metric of a window with n > 0 scheduling events is the latency of one of them; more than floor(19n/20)
      of them took at most that, and no more than that took less. Without scheduling events it is 0. */
  lemma LatencyMetric(events: seq<RawEvent>)
    ensures var n := Sum(events, Switches); var v := RawMetrics(events).cpuSchedLatencyP95;
      && (n == 0 ==> v == 0.0)
      && (n > 0 ==>
            && HasLatency(events, v)
            && Sum(events, WithLatencyAtMost(v)) > 19 * n / 20 >= Sum(events, WithLatencyBelow(v)))
  {
    var latencies: seq<nat> := Latencies(events);
    if latencies != [] {
      var v := Percentile95(latencies);
      PercentileCharacterized(latencies, v);
      PercentileRank(latencies);
      LatenciesCounted(events, v);
      LatencyOfEvent(events, v);
    }
  }

  /** Two windows with the same kinds of events in the same places, each latency of the second at least that of the first. */
  ghost predicate LatenciesRaised(xs: seq<RawEvent>, ys: seq<RawEvent>) {
    && |xs| == |ys|
    && forall i :: 0 <= i < |xs| ==>
         && xs[i].payload.CpuSchedEvent? == ys[i].payload.CpuSchedEvent?
         && (xs[i].payload.CpuSchedEvent? ==> xs[i].payload.latencyNs <= ys[i].payload.latencyNs)
  }

  lemma {:induction false} RaisedPointwise(xs: seq<RawEvent>, ys: seq<RawEvent>)
    requires LatenciesRaised(xs, ys)
    ensures |Latencies(xs)| == |Latencies(ys)|
    ensures forall i :: 0 <= i < |Latencies(xs)| ==> Latencies(xs)[i] <= Latencies(ys)[i]
  {
    if xs == [] {
    } else {
      RaisedPointwise(xs[..|xs| - 1], ys[..|ys| - 1]);
    }
  }

  /** Raising latencies in a window never lowers its latency metric. */
  lemma LatencyMetricMonotone(xs: seq<RawEvent>, ys: seq<RawEvent>)
    requires LatenciesRaised(xs, ys)
    ensures RawMetrics(xs).cpuSchedLatencyP95 <= RawMetrics(ys).cpuSchedLatencyP95
  {
    RaisedPointwise(xs, ys);
    if Latencies(xs) != [] {
      PercentileMonotone(Latencies(xs), Latencies(ys));
    }
  }

  lemma {:induction false} LatencyCount(events: seq<RawEvent>, v: nat)
    ensures multiset(Latencies(events))[v]
         == Sum(events, (e: RawEvent) => if e.payload.CpuSchedEvent? && e.payload.latencyNs == v then 1 else 0)
  {
    if events == [] {
    } else {
      LatencyCount(events[..|events| - 1], v);
    }
  }

  /** The raw metrics of a window depend on its events only as a multiset. */
  lemma RawMetricsOfRearranged(xs: seq<RawEvent>, ys: seq<RawEvent>)
    requires multiset(xs) == multiset(ys)
    ensures RawMetrics(xs) == RawMetrics(ys)
  {
    SumRearranged(xs, ys, Switches);
    SumRearranged(xs, ys, Pages);
    SumRearranged(xs, ys, BytesTx);
    SumRearranged(xs, ys, BytesRx);
    SumRearranged(xs, ys, Execs);
    var l: seq<nat>, m: seq<nat> := Latencies(xs), Latencies(ys);
    forall v: nat ensures multiset(Latencies(xs))[v] == multiset(Latencies(ys))[v] {
      LatencyCount(xs, v);
      LatencyCount(ys, v);
      SumRearranged(xs, ys, (e: RawEvent) => if e.payload.CpuSchedEvent? && e.payload.latencyNs == v then 1 else 0);
    }
    assert multiset(Latencies(xs)) == multiset(Latencies(ys));
    SortedCopySorts(l);
    SortedCopySorts(m);
    SortIsUnique(SortedCopy(l), SortedCopy(m));
  }
}

/** The run-queue wait tracker: a capacity-bounded map from process ids to wakeup times, kept by three kernel handlers.
    Each handler runs as one atomic step; its clock reading is an argument. */
module SchedWait {
  import opened Prelude
  import opened Events
  import Fnv

  const MAX_ENTRIES: nat := 10240

  type WakeupMap = map<U32, U64>

  /** A kernel hash map takes a new key only below capacity; an existing key is always overwritten. */
  function Inserted(m: WakeupMap, pid: U32, ts: U64): WakeupMap {
    if pid in m || |m| < MAX_ENTRIES then m[pid := ts] else m
  }

  function Latency(m: WakeupMap, pid: U32, now: U64): U64 {
    if pid in m && now >= m[pid] then now - m[pid] else 0
  }

  class WaitTracker {
    var wakeupTimestamps: WakeupMap

    constructor ()
      ensures wakeupTimestamps == map[]
    {
      wakeupTimestamps := map[];
    }

    method HandleSchedWakeup(pid: U32, ts: U64)
      modifies this
      ensures wakeupTimestamps == Apply(old(wakeupTimestamps), Wakeup(pid, ts))
    {
      if pid in wakeupTimestamps || |wakeupTimestamps| < MAX_ENTRIES {
        wakeupTimestamps := wakeupTimestamps[pid := ts];
      }
    }

    /** reserved tells whether the ring buffer had room for the record. */
    method HandleSchedSwitch(reserved: bool, prevComm: seq<U8>, nextComm: seq<U8>, cpu: U32, nextPid: U32, now: U64)
        returns (record: Option<EventPayload>)
      requires |prevComm| == 16 && |nextComm| == 16
      modifies this
      ensures wakeupTimestamps == Apply(old(wakeupTimestamps), Switch(nextPid, now, reserved))
      ensures record.Some? <==> reserved
      ensures reserved ==>
        record.value.CpuSchedEvent? && record.value.cpuId == cpu
        && record.value.latencyNs == Latency(old(wakeupTimestamps), nextPid, now)
      ensures reserved ==>
        && record.value.prevCommHash == Fnv.KernelHash(Fnv.BeforeNul(prevComm))
        && record.value.nextCommHash == Fnv.KernelHash(Fnv.BeforeNul(nextComm))
    {
      if !reserved {
        return None;
      }
      var prevHash := Fnv.HashCString(prevComm);
      var nextHash := Fnv.HashCString(nextComm);
      assert prevComm[..16] == prevComm && nextComm[..16] == nextComm;
      var latency: U64 := 0;
      if nextPid in wakeupTimestamps {
        var wakeup := wakeupTimestamps[nextPid];
        if now >= wakeup {
          latency := now - wakeup;
        }
        wakeupTimestamps := wakeupTimestamps - {nextPid};
      }
      record := Some(CpuSchedEvent(prevHash, nextHash, latency, cpu));
    }

    method HandleProcessExit(pid: U32)
      modifies this
      ensures wakeupTimestamps == Apply(old(wakeupTimestamps), Exit(pid))
    {
      wakeupTimestamps := wakeupTimestamps - {pid};
    }
  }

  // ---------- Traces of handler invocations ----------

  datatype Invocation = Wakeup(pid: U32, time: U64) | Switch(pid: U32, time: U64, reserved: bool) | Exit(pid: U32)

  type Trace = seq<Invocation>

  function Apply(m: WakeupMap, e: Invocation): WakeupMap {
    match e
    case Wakeup(pid, ts) => Inserted(m, pid, ts)
    case Switch(pid, now, reserved) => if reserved then m - {pid} else m
    case Exit(pid) => m - {pid}
  }

  /** The map the handlers leave behind. */
  function MapAfter(trace: Trace): WakeupMap {
    if trace == [] then map[] else Apply(MapAfter(trace[..|trace| - 1]), trace[|trace| - 1])
  }

  // The specification reads the trace alone; it never mentions the map.

  /** Whether invocation i had an effect: a wakeup that was stored, a switch that was recorded, or an exit. */
  ghost predicate Effective(trace: Trace, i: nat)
    requires i < |trace|
    decreases i, 3
  {
    match trace[i]
    case Wakeup(pid, _) => pid in Waiting(trace[..i]) || |Waiting(trace[..i])| < MAX_ENTRIES
    case Switch(_, _, reserved) => reserved
    case Exit(_) => true
  }

  /** Invocation i is a stored wakeup of pid, and nothing effective has happened to pid since. */
  ghost predicate WaitingSince(trace: Trace, pid: U32, i: nat)
    decreases |trace|, 1
  {
    && i < |trace| && trace[i].Wakeup? && trace[i].pid == pid && Effective(trace, i)
    && forall j :: i < j < |trace| && trace[j].pid == pid ==> !Effective(trace, j)
  }

  /** The processes that are waiting for a processor at the end of the trace. */
  ghost function Waiting(trace: Trace): set<U32>
    decreases |trace|, 2
  {
    set i | 0 <= i < |trace| && WaitingSince(trace, trace[i].pid, i) :: trace[i].pid
  }

  /** Switch j charged pid the wait that began at wakeup i. */
  ghost predicate Charges(trace: Trace, i: nat, j: nat) {
    j < |trace| && trace[j].Switch? && trace[j].reserved && WaitingSince(trace[..j], trace[j].pid, i)
  }

  lemma EffectiveInPrefix(trace: Trace, n: nat, i: nat)
    requires i < n <= |trace|
    ensures Effective(trace[..n], i) == Effective(trace, i)
  {
    assert trace[..n][..i] == trace[..i];
  }

  /** How one more invocation changes who has been waiting since when. */
  lemma WaitingSinceStep(trace: Trace, pid: U32, i: nat)
    requires trace != []
    ensures var n := |trace| - 1;
      WaitingSince(trace, pid, i) <==>
        if trace[n].pid == pid && Effective(trace, n) then i == n && trace[n].Wakeup?
        else WaitingSince(trace[..n], pid, i)
  {
    var n := |trace| - 1;
    forall k: nat | k < n ensures Effective(trace[..n], k) == Effective(trace, k) {
      EffectiveInPrefix(trace, n, k);
    }
    if i < n && WaitingSince(trace[..n], pid, i) && !(trace[n].pid == pid && Effective(trace, n)) {
      forall j | i < j < |trace| && trace[j].pid == pid ensures !Effective(trace, j) {
        if j < n {
          assert trace[..n][j] == trace[j];
        }
      }
    }
    if i < n && WaitingSince(trace, pid, i) {
      assert trace[..n][i] == trace[i];
    }
  }

  /** The map has an entry for pid exactly if pid is waiting, and the entry is the time of the wakeup. */
  ghost predicate Agrees(trace: Trace, pid: U32) {
    && (pid in MapAfter(trace) <==> pid in Waiting(trace))
    && forall i: nat :: WaitingSince(trace, pid, i) ==> pid in MapAfter(trace) && MapAfter(trace)[pid] == trace[i].time
  }

  lemma WaitingWitness(trace: Trace, pid: U32)
    ensures pid in Waiting(trace) <==> exists i: nat :: WaitingSince(trace, pid, i)
  {
    if i: nat :| WaitingSince(trace, pid, i) {
      assert WaitingSince(trace, trace[i].pid, i) && trace[i].pid in Waiting(trace);
    }
    if pid in Waiting(trace) {
      var i: nat :| i < |trace| && WaitingSince(trace, trace[i].pid, i) && trace[i].pid == pid;
      assert WaitingSince(trace, pid, i);
    }
  }

  /** Waiting since the last invocation, which was a stored wakeup; or no longer waiting, after another effective one. */
  lemma AgreesAfterEffect(trace: Trace, pid: U32)
    requires trace != [] && trace[|trace| - 1].pid == pid && Effective(trace, |trace| - 1)
    requires MapAfter(trace[..|trace| - 1]).Keys == Waiting(trace[..|trace| - 1])
    ensures Agrees(trace, pid)
  {
    var n := |trace| - 1;
    var before := trace[..n];
    WaitingWitness(trace, pid);
    forall i: nat ensures WaitingSince(trace, pid, i) <==> i == n && trace[n].Wakeup? {
      WaitingSinceStep(trace, pid, i);
    }
    assert |Waiting(before)| == |MapAfter(before).Keys| == |MapAfter(before)|;
    if trace[n].Wakeup? {
      assert WaitingSince(trace, pid, n);
    }
  }

  /** An invocation without effect on pid leaves map and specification alone. */
  lemma AgreesWithoutEffect(trace: Trace, pid: U32)
    requires trace != [] && !(trace[|trace| - 1].pid == pid && Effective(trace, |trace| - 1))
    requires MapAfter(trace[..|trace| - 1]).Keys == Waiting(trace[..|trace| - 1])
    requires Agrees(trace[..|trace| - 1], pid)
    ensures Agrees(trace, pid)
  {
    var n := |trace| - 1;
    var before := trace[..n];
    WaitingWitness(trace, pid);
    WaitingWitness(before, pid);
    forall i: nat ensures WaitingSince(trace, pid, i) <==> WaitingSince(before, pid, i) {
      WaitingSinceStep(trace, pid, i);
    }
    assert |Waiting(before)| == |MapAfter(before).Keys| == |MapAfter(before)|;
    if i: nat :| WaitingSince(before, pid, i) {
      assert before[i] == trace[i];
    }
  }

  lemma AgreesStep(trace: Trace, pid: U32)
    requires trace != []
    requires MapAfter(trace[..|trace| - 1]).Keys == Waiting(trace[..|trace| - 1])
    requires Agrees(trace[..|trace| - 1], pid)
    ensures Agrees(trace, pid)
  {
    if trace[|trace| - 1].pid == pid && Effective(trace, |trace| - 1) {
      AgreesAfterEffect(trace, pid);
    } else {
      AgreesWithoutEffect(trace, pid);
    }
  }

  /** The map refines the specification: pid maps to ts exactly if pid is waiting since a wakeup at ts. */
  lemma {:induction false} MapRefinesTrace(trace: Trace)
    ensures MapAfter(trace).Keys == Waiting(trace)
    ensures forall pid :: Agrees(trace, pid)
  {
    if trace != [] {
      MapRefinesTrace(trace[..|trace| - 1]);
    }
    forall pid ensures Agrees(trace, pid) {
      if trace != [] {
        AgreesStep(trace, pid);
      }
    }
    forall pid ensures pid in MapAfter(trace) <==> pid in Waiting(trace) {
      assert Agrees(trace, pid);
    }
  }

  /** The map never outgrows its capacity. */
  lemma {:induction false} CapacityRespected(trace: Trace)
    ensures |MapAfter(trace)| <= MAX_ENTRIES
  {
    if trace == [] {
    } else {
      var n := |trace| - 1;
      CapacityRespected(trace[..n]);
      var m, m' := MapAfter(trace[..n]), MapAfter(trace);
      match trace[n]
      case Wakeup(pid, ts) => assert m'.Keys == m.Keys || m'.Keys == m.Keys + {pid};
      case Switch(pid, _, _) => assert m'.Keys <= m.Keys; SubsetSize(m'.Keys, m.Keys);
      case Exit(pid) => assert m'.Keys <= m.Keys; SubsetSize(m'.Keys, m.Keys);
    }
  }

  lemma SubsetSize<T>(a: set<T>, b: set<T>)
    requires a <= b
    ensures |a| <= |b|
  {
    assert b == a + (b - a);
  }

  // ---------- What is charged ----------

  function ReportedLatency(trace: Trace, j: nat): U64
    requires j < |trace| && trace[j].Switch?
  {
    Latency(MapAfter(trace[..j]), trace[j].pid, trace[j].time)
  }

  /** A recorded switch reports the time since the wakeup it charges, and 0 if it charges none or the clock ran backwards. */
  lemma LatencyIsWait(trace: Trace, j: nat)
    requires j < |trace| && trace[j].Switch? && trace[j].reserved
    ensures forall i: nat :: Charges(trace, i, j) ==>
      ReportedLatency(trace, j) == if trace[j].time >= trace[i].time then trace[j].time - trace[i].time else 0
    ensures (forall i: nat :: !Charges(trace, i, j)) ==> ReportedLatency(trace, j) == 0
  {
    MapRefinesTrace(trace[..j]);
    var pid := trace[j].pid;
    assert Agrees(trace[..j], pid);
    if pid in MapAfter(trace[..j]) {
      var i :| 0 <= i < j && WaitingSince(trace[..j], trace[..j][i].pid, i) && trace[..j][i].pid == pid;
      assert Charges(trace, i, j);
    }
  }

  /** No switch of the process lies between two invocations. */
  ghost predicate NoSwitchBetween(trace: Trace, i: nat, j: nat)
    requires i < j < |trace|
  {
    forall k :: i < k < j && trace[k].pid == trace[j].pid ==> !trace[k].Switch?
  }

  /** A charged interval ends at the first switch-in of the process after its wakeup exactly if no switch of the process
      in between was without a reservation. */
  lemma ChargeEndsAtSwitchIn(trace: Trace, i: nat, j: nat)
    requires Charges(trace, i, j)
    ensures NoSwitchBetween(trace, i, j)
      <==> forall k :: i < k < j && trace[k].pid == trace[j].pid && trace[k].Switch? ==> trace[k].reserved
  {
    forall k | i < k < j && trace[k].pid == trace[j].pid && trace[k].Switch? ensures !trace[k].reserved {
      assert trace[..j][k] == trace[k] && !Effective(trace[..j], k);
    }
  }

  /** Where a switch f of the process lies within a charged interval, the process was running for part of the latency
      reported: it exceeds the wait until f by the time from f to the switch that is charged. */
  lemma LatencyBeyondSwitchIn(trace: Trace, i: nat, f: nat, j: nat)
    requires ClockNondecreasing(trace)
    requires Charges(trace, i, j) && i < f <= j && trace[f].Switch? && trace[f].pid == trace[j].pid
    ensures ReportedLatency(trace, j) == (trace[f].time - trace[i].time) + (trace[j].time - trace[f].time)
    ensures trace[i].time <= trace[f].time <= trace[j].time
    ensures ReportedLatency(trace, j) == trace[f].time - trace[i].time <==> trace[f].time == trace[j].time
  {
    LatencyIsWait(trace, j);
    assert Timed(trace[i]) && Timed(trace[f]) && Timed(trace[j]);
  }

  /** The switches that charge waits of one process are separated by the wakeups they charge. */
  lemma ChargesInterleave(trace: Trace, i1: nat, j1: nat, i2: nat, j2: nat)
    requires Charges(trace, i1, j1) && Charges(trace, i2, j2)
    requires trace[j1].pid == trace[j2].pid && j1 < j2
    ensures i1 < j1 < i2 < j2
  {
    assert Effective(trace, j1);
    EffectiveInPrefix(trace, j2, j1);
    assert trace[..j2][j1] == trace[j1];
  }

  /** Every stored wakeup is charged at most once, and every switch charges at most one wakeup. */
  lemma ChargedAtMostOnce(trace: Trace, i1: nat, j1: nat, i2: nat, j2: nat)
    requires Charges(trace, i1, j1) && Charges(trace, i2, j2)
    ensures i1 == i2 <==> j1 == j2
  {
    if i1 == i2 && j1 != j2 {
      assert trace[j1].pid == trace[i1].pid == trace[j2].pid;
      if j1 < j2 {
        ChargesInterleave(trace, i1, j1, i2, j2);
      } else {
        ChargesInterleave(trace, i2, j2, i1, j1);
      }
    }
  }

  predicate Timed(e: Invocation) {
    !e.Exit?
  }

  ghost predicate ClockNondecreasing(trace: Trace) {
    forall a, b :: 0 <= a < b < |trace| && Timed(trace[a]) && Timed(trace[b]) ==> trace[a].time <= trace[b].time
  }

  /** With a clock that never runs backwards the waits charged to one process do not overlap. */
  lemma ChargedWaitsDisjoint(trace: Trace, i1: nat, j1: nat, i2: nat, j2: nat)
    requires ClockNondecreasing(trace)
    requires Charges(trace, i1, j1) && Charges(trace, i2, j2)
    requires trace[j1].pid == trace[j2].pid && j1 < j2
    ensures trace[i1].time <= trace[j1].time <= trace[i2].time <= trace[j2].time
  {
    ChargesInterleave(trace, i1, j1, i2, j2);
    assert Timed(trace[i1]) && Timed(trace[j1]) && Timed(trace[i2]) && Timed(trace[j2]);
  }

  /** Sum of the latencies reported for pid. */
  function TotalLatency(trace: Trace, pid: U32): nat {
    if trace == [] then 0
    else
      var n := |trace| - 1;
      var e := trace[n];
      TotalLatency(trace[..n], pid)
      + if e.Switch? && e.reserved && e.pid == pid then ReportedLatency(trace, n) else 0
  }

  /** Time of the first wakeup of pid. */
  function FirstWakeup(trace: Trace, pid: U32): Option<U64> {
    if trace == [] then None
    else
      var n := |trace| - 1;
      var earlier := FirstWakeup(trace[..n], pid);
      if earlier.None? && trace[n].Wakeup? && trace[n].pid == pid then Some(trace[n].time) else earlier
  }

  /** Time of the last recorded switch to pid. */
  function LastSwitchIn(trace: Trace, pid: U32): Option<U64> {
    if trace == [] then None
    else
      var n := |trace| - 1;
      var e := trace[n];
      if e.Switch? && e.reserved && e.pid == pid then Some(e.time) else LastSwitchIn(trace[..n], pid)
  }

  lemma {:induction false} FirstWakeupIsEarliest(trace: Trace, pid: U32, i: nat)
    requires ClockNondecreasing(trace)
    requires i < |trace| && trace[i].Wakeup? && trace[i].pid == pid
    ensures FirstWakeup(trace, pid).Some? && FirstWakeup(trace, pid).value <= trace[i].time
  {
    var n := |trace| - 1;
    if i < n {
      FirstWakeupIsEarliest(trace[..n], pid, i);
    } else if FirstWakeup(trace[..n], pid).Some? {
      var k := FirstWakeupIndex(trace[..n], pid);
      assert Timed(trace[k]) && Timed(trace[n]);
    }
  }

  lemma {:induction false} FirstWakeupIndex(trace: Trace, pid: U32) returns (k: nat)
    requires FirstWakeup(trace, pid).Some?
    ensures k < |trace| && trace[k].Wakeup? && trace[k].pid == pid && trace[k].time == FirstWakeup(trace, pid).value
  {
    var n := |trace| - 1;
    if FirstWakeup(trace[..n], pid).Some? {
      k := FirstWakeupIndex(trace[..n], pid);
    } else {
      k := n;
    }
  }

  lemma {:induction false} LastSwitchInIndex(trace: Trace, pid: U32) returns (k: nat)
    requires LastSwitchIn(trace, pid).Some?
    ensures k < |trace| && trace[k].Switch? && trace[k].reserved && trace[k].pid == pid
    ensures trace[k].time == LastSwitchIn(trace, pid).value
  {
    var n := |trace| - 1;
    if trace[n].Switch? && trace[n].reserved && trace[n].pid == pid {
      k := n;
    } else {
      k := LastSwitchInIndex(trace[..n], pid);
    }
  }

  /** The waits charged to a process fit between its first wakeup and its last recorded switch-in. */
  lemma {:induction false} TotalLatencyBounded(trace: Trace, pid: U32)
    requires ClockNondecreasing(trace)
    ensures TotalLatency(trace, pid) > 0 ==>
      && FirstWakeup(trace, pid).Some? && LastSwitchIn(trace, pid).Some?
      && TotalLatency(trace, pid) <= LastSwitchIn(trace, pid).value - FirstWakeup(trace, pid).value
  {
    if trace == [] {
    } else {
      var n := |trace| - 1;
      var e := trace[n];
      var before := trace[..n];
      assert forall a | 0 <= a < n :: before[a] == trace[a];
      TotalLatencyBounded(before, pid);
      if e.Switch? && e.reserved && e.pid == pid {
        LatencyIsWait(trace, n);
        if i: nat :| Charges(trace, i, n) {
          assert before[i] == trace[i] && trace[i].Wakeup? && trace[i].pid == pid;
          FirstWakeupIsEarliest(before, pid, i);
          assert Timed(trace[i]) && Timed(e);
          if LastSwitchIn(before, pid).Some? {
            var k := LastSwitchInIndex(before, pid);
            assert Effective(before, k);
            assert k < i;
            assert Timed(trace[k]) && trace[k].time <= trace[i].time;
          }
        } else if TotalLatency(before, pid) > 0 {
          var k := LastSwitchInIndex(before, pid);
          assert Timed(trace[k]) && Timed(e);
        }
      }
    }
  }
}

/** Metric values, snapshots, and the arithmetic of smoothing and normalising one value. Reals stand for f64. */
module Metrics {
  import opened Prelude

  datatype MetricMap = MetricMap(
    cpuSchedLatencyP95: real,
    cpuSchedContextRate: real,
    memReclaimPressure: real,
    netTxBytesNorm: real,
    netRxBytesNorm: real,
    procExecRate: real)
  {
    function GetValue(name: string): Option<real> {
      if name == "cpu.sched.latency_p95" then Some(cpuSchedLatencyP95)
      else if name == "cpu.sched.context_rate" then Some(cpuSchedContextRate)
      else if name == "mem.reclaim.pressure" then Some(memReclaimPressure)
      else if name == "net.tx.bytes_norm" then Some(netTxBytesNorm)
      else if name == "net.rx.bytes_norm" then Some(netRxBytesNorm)
      else if name == "proc.exec.rate" then Some(procExecRate)
      else None
    }

    /** The six values by position, so that one argument can serve all of them. */
    function At(k: Metric): real {
      match k
      case LatencyP95 => cpuSchedLatencyP95
      case ContextRate => cpuSchedContextRate
      case ReclaimPressure => memReclaimPressure
      case NetTx => netTxBytesNorm
      case NetRx => netRxBytesNorm
      case ExecRate => procExecRate
    }
  }

  datatype Metric = LatencyP95 | ContextRate | ReclaimPressure | NetTx | NetRx | ExecRate

  function KnownMetric(name: string): Option<Metric> {
    if name == "cpu.sched.latency_p95" then Some(LatencyP95)
    else if name == "cpu.sched.context_rate" then Some(ContextRate)
    else if name == "mem.reclaim.pressure" then Some(ReclaimPressure)
    else if name == "net.tx.bytes_norm" then Some(NetTx)
    else if name == "net.rx.bytes_norm" then Some(NetRx)
    else if name == "proc.exec.rate" then Some(ExecRate)
    else None
  }

  /** The six names under which snapshots are serialised and rules refer to metrics; there are no others. */
  lemma MetricNames(m: MetricMap, name: string)
    ensures m.GetValue("cpu.sched.latency_p95") == Some(m.cpuSchedLatencyP95)
    ensures m.GetValue("cpu.sched.context_rate") == Some(m.cpuSchedContextRate)
    ensures m.GetValue("mem.reclaim.pressure") == Some(m.memReclaimPressure)
    ensures m.GetValue("net.tx.bytes_norm") == Some(m.netTxBytesNorm)
    ensures m.GetValue("net.rx.bytes_norm") == Some(m.netRxBytesNorm)
    ensures m.GetValue("proc.exec.rate") == Some(m.procExecRate)
    ensures m.GetValue(name).Some? <==> name in {"cpu.sched.latency_p95", "cpu.sched.context_rate",
      "mem.reclaim.pressure", "net.tx.bytes_norm", "net.rx.bytes_norm", "proc.exec.rate"}
  {
  }

  lemma ValueOfKnownMetric(metrics: MetricMap, name: string)
    ensures metrics.GetValue(name) == match KnownMetric(name) case None => None case Some(k) => Some(metrics.At(k))
  {
  }

  datatype StateSnapshot = StateSnapshot(
    timestampUs: nat,
    windowMs: nat,
    stale: bool,
    lostEvents: nat,
    metrics: MetricMap)

  function ComputeEma(current: real, previous: real, alpha: real): real {
    alpha * current + (1.0 - alpha) * previous
  }

  function Clamp(x: real, lo: real, hi: real): (r: real)
    requires lo <= hi
    ensures lo <= r <= hi
  {
    if x < lo then lo else if x > hi then hi else x
  }

  function NormalizeMinMax(val: real, min: real, max: real): real {
    if min >= max then 0.0 else (Clamp(val, min, max) - min) / (max - min)
  }

  function Abs(x: real): real {
    if x < 0.0 then -x else x
  }

  lemma FractionMonotone(a: real, b: real, whole: real)
    requires a <= b && whole > 0.0
    ensures a / whole <= b / whole
  {
    assert b / whole - a / whole == (b - a) / whole;
  }

  lemma FractionOfWhole(whole: real)
    requires whole > 0.0
    ensures 0.0 / whole == 0.0 && whole / whole == 1.0
  {
  }

  lemma OrderedFractions(part: real, larger: real, whole: real)
    requires 0.0 <= part <= larger <= whole && whole > 0.0
    ensures 0.0 <= part / whole <= larger / whole <= 1.0
  {
    FractionOfWhole(whole);
    FractionMonotone(0.0, part, whole);
    FractionMonotone(part, larger, whole);
    FractionMonotone(larger, whole, whole);
  }

  /** Normalised values lie in the unit interval, grow with the input, and meet both ends of the range. */
  lemma NormalizeMonotone(x: real, y: real, min: real, max: real)
    requires x <= y
    ensures 0.0 <= NormalizeMinMax(x, min, max) <= NormalizeMinMax(y, min, max) <= 1.0
    ensures min < max && x <= min ==> NormalizeMinMax(x, min, max) == 0.0
    ensures min < max && y >= max ==> NormalizeMinMax(y, min, max) == 1.0
  {
    if min < max {
      OrderedFractions(Clamp(x, min, max) - min, Clamp(y, min, max) - min, max - min);
      FractionOfWhole(max - min);
    }
  }

  /** It meets each end exactly from there on. */
  lemma EndsOfScale(x: real, min: real, max: real)
    requires min < max
    ensures NormalizeMinMax(x, min, max) == 0.0 <==> x <= min
    ensures NormalizeMinMax(x, min, max) == 1.0 <==> x >= max
  {
    var u, span := Clamp(x, min, max) - min, max - min;
    FractionOfWhole(span);
    if u / span == 0.0 {
      assert u == u / span * span;
    }
    if u / span == 1.0 {
      assert u == u / span * span;
    }
  }

  /** Normalisation amplifies a difference by at most the inverse of the range. */
  lemma NormalizeLipschitz(x: real, y: real, min: real, max: real)
    requires min < max
    ensures Abs(NormalizeMinMax(x, min, max) - NormalizeMinMax(y, min, max)) <= Abs(x - y) / (max - min)
  {
    var u, v, span := Clamp(x, min, max), Clamp(y, min, max), max - min;
    FractionDifference(u - min, v - min, span);
    FractionMonotone(u - v, Abs(x - y), span);
    FractionMonotone(v - u, Abs(x - y), span);
  }

  lemma FractionDifference(a: real, b: real, whole: real)
    requires whole > 0.0
    ensures a / whole - b / whole == (a - b) / whole == -((b - a) / whole)
  {
  }
}

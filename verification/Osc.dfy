/** Dispatch of mapped frames as OSC bundles: the fixed-point timetag, the message list, and the fan-out to backends. */
module Osc {
  import opened Prelude
  import opened Mapping
  import opened Rounding
  import Histogram

  const NANOS_PER_SECOND: nat := 1_000_000_000

  // ---------- Timetag ----------

  datatype OscTime = OscTime(secs: U32, frac: U32)

  /** The fraction of a second in units of 2^-32 s. */
  function Fraction(nanos: nat): (frac: U32)
    requires nanos < NANOS_PER_SECOND
  {
    nanos * TWO_TO_THE_32 / NANOS_PER_SECOND
  }

  /** A time since the epoch in the NTP format: whole seconds keep their low 32 bits. */
  function TimetagOf(timeNs: nat): OscTime {
    OscTime(timeNs / NANOS_PER_SECOND % TWO_TO_THE_32, Fraction(timeNs % NANOS_PER_SECOND))
  }

  /** The nanoseconds a fraction stands for, rounded up. */
  function NanosOf(frac: U32): nat {
    (frac * NANOS_PER_SECOND + TWO_TO_THE_32 - 1) / TWO_TO_THE_32
  }

  /** The intermediate product fits 64 bits, nanoseconds are recovered exactly, and less than 2^-32 s is cut off. */
  lemma FractionExact(nanos: nat)
    requires nanos < NANOS_PER_SECOND
    ensures nanos * TWO_TO_THE_32 < TWO_TO_THE_64
    ensures NanosOf(Fraction(nanos)) == nanos
    ensures 0 <= nanos * TWO_TO_THE_32 - Fraction(nanos) * NANOS_PER_SECOND < NANOS_PER_SECOND
  {
  }

  lemma FractionStrictlyMonotone(a: nat, b: nat)
    requires a < b < NANOS_PER_SECOND
    ensures Fraction(a) < Fraction(b)
  {
    FractionExact(a);
    FractionExact(b);
  }

  predicate Before(s: OscTime, t: OscTime) {
    s.secs < t.secs || (s.secs == t.secs && s.frac < t.frac)
  }

  lemma FractionOrder(a: nat, b: nat)
    requires a < NANOS_PER_SECOND && b < NANOS_PER_SECOND
    ensures (a < b <==> Fraction(a) < Fraction(b)) && (a == b <==> Fraction(a) == Fraction(b))
  {
    if a < b {
      FractionStrictlyMonotone(a, b);
    } else if b < a {
      FractionStrictlyMonotone(b, a);
    }
  }

  /** Until the seconds leave 32 bits, timetags are ordered exactly as the times they stand for. */
  lemma TimetagOrder(a: nat, b: nat)
    requires a / NANOS_PER_SECOND < TWO_TO_THE_32 && b / NANOS_PER_SECOND < TWO_TO_THE_32
    ensures Before(TimetagOf(a), TimetagOf(b)) <==> a < b
    ensures TimetagOf(a) == TimetagOf(b) <==> a == b
  {
    FractionOrder(a % NANOS_PER_SECOND, b % NANOS_PER_SECOND);
    assert TimetagOf(a).secs == a / NANOS_PER_SECOND && TimetagOf(b).secs == b / NANOS_PER_SECOND;
  }

  // After so many nanoseconds, 136 years, timetags repeat.
  const ERA: nat := TWO_TO_THE_32 * NANOS_PER_SECOND

  lemma TimetagOfEra(a: nat)
    ensures TimetagOf(a) == TimetagOf(a % ERA)
    ensures a % ERA / NANOS_PER_SECOND < TWO_TO_THE_32
  {
    var q, r := a / ERA, a % ERA;
    assert a == r + NANOS_PER_SECOND * (TWO_TO_THE_32 * q);
    QuotientOfSum(r, NANOS_PER_SECOND, TWO_TO_THE_32 * q);
    QuotientOfSum(r / NANOS_PER_SECOND, TWO_TO_THE_32, q);
  }

  lemma QuotientOfSum(r: nat, d: nat, k: nat)
    requires d == NANOS_PER_SECOND || d == TWO_TO_THE_32
    ensures (r + d * k) / d == r / d + k && (r + d * k) % d == r % d
  {
  }

  /** For all times: two timetags are ordered, or equal, exactly as the times within their eras of 2^32 seconds are. */
  lemma TimetagWraps(a: nat, b: nat)
    ensures Before(TimetagOf(a), TimetagOf(b)) <==> a % ERA < b % ERA
    ensures TimetagOf(a) == TimetagOf(b) <==> a % ERA == b % ERA
  {
    TimetagOfEra(a);
    TimetagOfEra(b);
    TimetagOrder(a % ERA, b % ERA);
  }

  lemma TimetagSplit(secs: nat, nanos: nat)
    requires nanos < NANOS_PER_SECOND
    ensures (secs * NANOS_PER_SECOND + nanos) * TWO_TO_THE_32 / NANOS_PER_SECOND == secs * TWO_TO_THE_32 + Fraction(nanos)
  {
    var scaled := nanos * TWO_TO_THE_32;
    assert (secs * NANOS_PER_SECOND + nanos) * TWO_TO_THE_32 == scaled + NANOS_PER_SECOND * (secs * TWO_TO_THE_32);
    QuotientOfSum(scaled, NANOS_PER_SECOND, secs * TWO_TO_THE_32);
  }

  lemma RemainderOfWord(secs: nat, frac: U32)
    ensures (secs * TWO_TO_THE_32 + frac) % TWO_TO_THE_64 == secs % TWO_TO_THE_32 * TWO_TO_THE_32 + frac
  {
    var q, r := secs / TWO_TO_THE_32, secs % TWO_TO_THE_32;
    assert secs * TWO_TO_THE_32 + frac == TWO_TO_THE_64 * q + (r * TWO_TO_THE_32 + frac);
    assert r * TWO_TO_THE_32 + frac < TWO_TO_THE_64;
  }

  /** The 64 bits of a timetag are the time in units of 2^-32 s, cut off and modulo 2^64. */
  lemma TimetagValue(timeNs: nat)
    ensures var t := TimetagOf(timeNs);
      t.secs * TWO_TO_THE_32 + t.frac == timeNs * TWO_TO_THE_32 / NANOS_PER_SECOND % TWO_TO_THE_64
  {
    var secs, nanos := timeNs / NANOS_PER_SECOND, timeNs % NANOS_PER_SECOND;
    TimetagSplit(secs, nanos);
    RemainderOfWord(secs, Fraction(nanos));
  }

  /** From a timetag the time within its era is recovered to the nanosecond. */
  lemma TimetagUndone(timeNs: nat)
    ensures var t := TimetagOf(timeNs); t.secs * NANOS_PER_SECOND + NanosOf(t.frac) == timeNs % ERA
  {
    FractionExact(timeNs % NANOS_PER_SECOND);
    var q, r := timeNs / ERA, timeNs % ERA;
    TimetagOfEra(timeNs);
    assert r == r / NANOS_PER_SECOND * NANOS_PER_SECOND + r % NANOS_PER_SECOND;
    FractionExact(r % NANOS_PER_SECOND);
  }

  // ---------- Bundles ----------

  datatype OscMessage = OscMessage(addr: string, arg: real)
  datatype OscBundle = OscBundle(timetag: OscTime, content: seq<OscMessage>)
  datatype Backend = Backend(name: string, address: string)

  /** One message per parameter; values are cast to singles. */
  function Messages(params: seq<MappedParam>): (m: seq<OscMessage>)
    ensures |m| == |params|
    ensures forall i :: 0 <= i < |params| ==> m[i] == OscMessage(params[i].oscAddress, Single(params[i].value))
  {
    seq(|params|, i requires 0 <= i < |params| => OscMessage(params[i].oscAddress, Single(params[i].value)))
  }

  function BundleOf(params: seq<MappedParam>, timeNs: nat): OscBundle {
    OscBundle(TimetagOf(timeNs), Messages(params))
  }

  /** A bundle that says what the parameters say, value by value, and when. */
  ghost predicate Carries(bundle: OscBundle, params: seq<MappedParam>, timeNs: nat) {
    && |bundle.content| == |params|
    && (forall j :: 0 <= j < |params| ==>
          bundle.content[j].addr == params[j].oscAddress && bundle.content[j].arg == Single(params[j].value))
    && bundle.timetag.secs * TWO_TO_THE_32 + bundle.timetag.frac
       == timeNs * TWO_TO_THE_32 / NANOS_PER_SECOND % TWO_TO_THE_64
  }

  lemma SameDigits(s: OscTime, t: OscTime)
    requires s.secs * TWO_TO_THE_32 + s.frac == t.secs * TWO_TO_THE_32 + t.frac
    ensures s == t
  {
  }

  /** There is one such bundle. */
  lemma BundleCarries(bundle: OscBundle, params: seq<MappedParam>, timeNs: nat)
    ensures Carries(bundle, params, timeNs) <==> bundle == BundleOf(params, timeNs)
  {
    TimetagValue(timeNs);
    if Carries(bundle, params, timeNs) {
      SameDigits(bundle.timetag, TimetagOf(timeNs));
      assert bundle.content == Messages(params);
    }
  }

  function Successes(outcomes: seq<bool>): nat {
    Sum(outcomes, ok => if ok then 1 else 0)
  }

  /** What one iteration of the dispatch loop does to the world: the packet and the backends it goes to, and the latency
      it records, in microseconds. */
  datatype Effect = Effect(packet: Option<(OscBundle, seq<Backend>)>, latencyUs: Option<nat>)

  function DispatchEffect(params: seq<MappedParam>, backends: Option<seq<Backend>>, encodes: bool,
                          timeNs: nat, doneUs: nat, startUs: nat): Effect {
    if params == [] || backends.None? || !encodes then Effect(None, None)
    else Effect(Some((BundleOf(params, timeNs), backends.value)),
                if startUs > 0 && doneUs >= startUs then Some(doneUs - startUs) else None)
  }

  /** A dispatch latency falls into the buckets it belongs to; the sum it is added to can be a microsecond short. */
  lemma DispatchLatencyCounted(us: nat)
    ensures Histogram.Amount(Millis(us), Histogram.Le5) == if us <= 5000 then 1 else 0
    ensures Histogram.Amount(Millis(us), Histogram.Le10) == if us <= 10000 then 1 else 0
    ensures Histogram.Amount(Millis(us), Histogram.Le20) == if us <= 20000 then 1 else 0
    ensures us < DOUBLE ==> Histogram.Amount(Millis(us), Histogram.SumUs) == us - if LosesOne(us) then 1 else 0
  {
    MillisBound(us, 5);
    MillisBound(us, 10);
    MillisBound(us, 20);
    if us < DOUBLE {
      MillisAndBack(us);
    }
  }

  class OscDispatcher {
    var dispatchTotal: nat
    var dispatchSuccessTotal: nat
    const latencyHistogram: Histogram.PrometheusHistogram

    constructor (histogram: Histogram.PrometheusHistogram)
      ensures dispatchTotal == 0 && dispatchSuccessTotal == 0 && latencyHistogram == histogram
    {
      dispatchTotal, dispatchSuccessTotal := 0, 0;
      latencyHistogram := histogram;
    }

    /** Building one bundle from a frame. */
    method Package(params: seq<MappedParam>, timeNs: nat) returns (bundle: OscBundle)
      ensures bundle == BundleOf(params, timeNs) && Carries(bundle, params, timeNs)
    {
      var messages := [];
      for i := 0 to |params|
        invariant messages == Messages(params)[..i]
      {
        messages := messages + [OscMessage(params[i].oscAddress, Single(params[i].value))];
      }
      var secs := timeNs / NANOS_PER_SECOND % TWO_TO_THE_32;
      var nanos := timeNs % NANOS_PER_SECOND;
      var frac := nanos * TWO_TO_THE_32 / NANOS_PER_SECOND;
      bundle := OscBundle(OscTime(secs, frac), messages);
      BundleCarries(bundle, params, timeNs);
    }

    /** Sending the packet to every backend; outcomes says which sends succeed. A failure never stops the fan-out. */
    method SendAll(bundle: OscBundle, backends: seq<Backend>, outcomes: seq<bool>)
        returns (attempts: seq<(string, OscBundle)>)
      requires |outcomes| == |backends|
      modifies `dispatchTotal, `dispatchSuccessTotal
      ensures |attempts| == |backends|
      ensures forall i :: 0 <= i < |backends| ==> attempts[i] == (backends[i].address, bundle)
      ensures dispatchTotal == old(dispatchTotal) + |backends|
      ensures dispatchSuccessTotal == old(dispatchSuccessTotal) + Successes(outcomes)
    {
      attempts := [];
      for i := 0 to |backends|
        invariant |attempts| == i && forall j :: 0 <= j < i ==> attempts[j] == (backends[j].address, bundle)
        invariant dispatchTotal == old(dispatchTotal) + i
        invariant dispatchSuccessTotal == old(dispatchSuccessTotal) + Successes(outcomes[..i])
      {
        assert outcomes[..i + 1][..i] == outcomes[..i];
        dispatchTotal := dispatchTotal + 1;
        attempts := attempts + [(backends[i].address, bundle)];
        if outcomes[i] {
          dispatchSuccessTotal := dispatchSuccessTotal + 1;
        }
      }
      assert outcomes[..|backends|] == outcomes;
    }

    /** One iteration of the dispatch loop. backends is None if its lock is poisoned; encodes tells whether the bundle can
        be encoded; timeNs is the clock before and doneUs the clock after sending; startUs the shared timestamp. */
    method Process(params: seq<MappedParam>, backends: Option<seq<Backend>>, encodes: bool, outcomes: seq<bool>,
                   timeNs: nat, doneUs: nat, startUs: nat) returns (attempts: seq<(string, OscBundle)>)
      requires backends.Some? ==> |outcomes| == |backends.value|
      modifies this, latencyHistogram
      ensures params != [] && backends.Some? && encodes ==>
        && |attempts| == |backends.value|
        && forall i :: 0 <= i < |attempts| ==>
             attempts[i].0 == backends.value[i].address && Carries(attempts[i].1, params, timeNs)
      ensures params == [] || backends.None? || !encodes ==> attempts == []
      ensures latencyHistogram.Get(Histogram.Count) == old(latencyHistogram.Get(Histogram.Count))
        + if params != [] && backends.Some? && encodes && 0 < startUs <= doneUs then 1 else 0
      ensures params != [] && backends.Some? && encodes && 0 < startUs <= doneUs ==>
        forall c :: latencyHistogram.Get(c) == old(latencyHistogram.Get(c)) + Histogram.Amount(Millis(doneUs - startUs), c)
      ensures var effect := DispatchEffect(params, backends, encodes, timeNs, doneUs, startUs);
        && (effect.packet.None? ==> attempts == [] && unchanged(this) && unchanged(latencyHistogram))
        && (effect.packet.Some? ==>
              var (bundle, targets) := effect.packet.value;
              && |attempts| == |targets|
              && (forall i :: 0 <= i < |targets| ==> attempts[i] == (targets[i].address, bundle))
              && dispatchTotal == old(dispatchTotal) + |targets|
              && dispatchSuccessTotal == old(dispatchSuccessTotal) + Successes(outcomes))
        && (forall c :: latencyHistogram.Get(c) == old(latencyHistogram.Get(c))
              + match effect.latencyUs case None => 0 case Some(us) => Histogram.Amount(Millis(us), c))
    {
      attempts := [];
      if params == [] || backends.None? {
        return;
      }
      var bundle := Package(params, timeNs);
      if !encodes {
        return;
      }
      attempts := SendAll(bundle, backends.value, outcomes);
      if startUs > 0 && doneUs >= startUs {
        latencyHistogram.Observe(Millis(doneUs - startUs));
      }
    }
  }
}

/** The recorded dispatch latency against the true age of what is dispatched. The program subtracts a shared timestamp
    that the aggregator may have moved on; while the clock is never set back this can only make the latency too small. */
module Freshness {
  import opened Prelude
  import opened Machines
  import opened Events
  import opened Metrics
  import opened Aggregation
  import opened Mapping
  import opened Pipeline
  import opened Conservation
  import opened Delivery

  /** The time a tick has read from the clock but not yet put into a snapshot. */
  predicate TickTimeFits(s: State) {
    match s.tick
    case Clocked(now) => s.snapshotTimestampUs <= now <= ClockUs(s)
    case Stamped(now) => now == s.snapshotTimestampUs
    case Swapped(now, _) => now == s.snapshotTimestampUs
    case _ => true
  }

  /** The shared timestamp is at least that of every snapshot built, and that of the last one between ticks. */
  ghost predicate TimestampLeads(s: State) {
    && s.snapshotTimestampUs <= ClockUs(s) && TickTimeFits(s)
    && (forall no :: 0 <= no < |s.log.built| ==> s.log.built[no].timestampUs <= s.snapshotTimestampUs)
    && (s.log.built != [] && !s.tick.Stamped? && !s.tick.Swapped? ==>
          s.log.built[|s.log.built| - 1].timestampUs == s.snapshotTimestampUs)
  }

  predicate DispatchTimeFits(s: State) {
    match s.dispatcher
    case DispatcherHolds(f) => f.no < |s.log.built|
    case DispatcherSent(no) => no < |s.log.built|
    case DispatcherTimed(no, now) => no < |s.log.built| && s.log.built[no].timestampUs <= now <= ClockUs(s)
    case _ => true
  }

  /** A recorded latency is at most the age of the dispatched snapshot; it is exact if no newer tick has interfered. */
  predicate GoodSample(built: seq<StateSnapshot>, sample: Sample) {
    && sample.no < |built|
    && built[sample.no].timestampUs <= sample.startUs <= sample.nowUs
    && (sample.latest ==> sample.startUs == built[sample.no].timestampUs)
  }

  /** Whatever is on its way carries the number of a snapshot that has been built. */
  ghost predicate NumbersKnown(s: State) {
    && (forall t :: t in s.snapshotQueue ==> t.no < |s.log.built|)
    && (s.mapper.MapperHolds? ==> s.mapper.tagged.no < |s.log.built|)
    && (s.mapper.MapperReady? ==> s.mapper.frame.no < |s.log.built|)
    && (forall f :: f in s.frameQueue ==> f.no < |s.log.built|)
    && DispatchNumberKnown(s)
  }

  predicate DispatchNumberKnown(s: State) {
    match s.dispatcher
    case DispatcherHolds(f) => f.no < |s.log.built|
    case DispatcherSent(no) => no < |s.log.built|
    case DispatcherTimed(no, _) => no < |s.log.built|
    case DispatcherIdle => true
  }

  lemma TickKnows(s: State)
    requires NumbersKnown(s)
    ensures NumbersKnown(AdvanceTick(s)) && s.log.built <= AdvanceTick(s).log.built
  {
    TickLeavesOutput(s);
  }

  lemma MapperKnows(math: MathLibrary, s: State)
    requires NumbersKnown(s)
    ensures NumbersKnown(AdvanceMapper(math, s))
  {
    MapperTouches(math, s);
  }

  lemma DispatcherKnows(s: State, encodes: bool)
    requires NumbersKnown(s)
    ensures NumbersKnown(AdvanceDispatcher(s, encodes))
  {
    DispatcherTouches(s, encodes);
  }

  ghost predicate FreshNow(s: State) {
    && TimestampLeads(s) && NumbersKnown(s) && DispatchTimeFits(s)
    && forall sample :: sample in s.log.samples ==> GoodSample(s.log.built, sample)
  }

  ghost predicate Fresh(s: State) {
    s.log.clockMonotone ==> FreshNow(s)
  }

  lemma TickKeepsLead(s: State)
    requires TimestampLeads(s)
    ensures TimestampLeads(AdvanceTick(s))
  {
  }

  lemma TickStaysFresh(s: State)
    requires FreshNow(s)
    ensures FreshNow(AdvanceTick(s))
  {
    TickKeepsLead(s);
    TickKnows(s);
    TickLeavesOutput(s);
  }

  lemma MapperStaysFresh(math: MathLibrary, s: State)
    requires FreshNow(s)
    ensures FreshNow(AdvanceMapper(math, s))
  {
    MapperTouches(math, s);
    MapperKnows(math, s);
  }

  lemma SampleIsGood(s: State)
    requires FreshNow(s) && s.dispatcher.DispatcherTimed? && s.dispatcher.nowUs >= s.snapshotTimestampUs
    ensures var no := s.dispatcher.no;
      GoodSample(s.log.built, Sample(no, s.dispatcher.nowUs, s.snapshotTimestampUs, Latest(s, no)))
  {
  }

  lemma DispatcherStaysFresh(s: State, encodes: bool)
    requires FreshNow(s)
    ensures FreshNow(AdvanceDispatcher(s, encodes))
  {
    var s' := AdvanceDispatcher(s, encodes);
    DispatcherTouches(s, encodes);
    DispatcherKnows(s, encodes);
    if s.dispatcher.DispatcherTimed? && s'.log.samples != s.log.samples {
      SampleIsGood(s);
    } else {
      assert s'.log.samples == s.log.samples;
    }
  }

  lemma OthersStayFresh(math: MathLibrary, s: State, l: Label)
    requires FreshNow(s)
    requires !l.AggregatorTick? && !l.MapperStep? && !l.DispatcherStep? && !l.SetClock?
    ensures FreshNow(Next(math, s, l))
  {
    OnlyOutputTasksTouchOutput(math, s, l);
    OnlyClockTouchesClock(math, s, l);
  }

  lemma StepStaysFresh(math: MathLibrary, s: State, l: Label)
    requires Fresh(s)
    ensures Fresh(Next(math, s, l))
  {
    if s.log.clockMonotone {
      match l
      case AggregatorTick => TickStaysFresh(s);
      case MapperStep => MapperStaysFresh(math, s);
      case DispatcherStep(encodes) => DispatcherStaysFresh(s, encodes);
      case SetClock(ns) =>
      case _ => OthersStayFresh(math, s, l);
    } else {
      ClockStaysSetBack(math, s, l);
    }
  }

  lemma ClockStaysSetBack(math: MathLibrary, s: State, l: Label)
    ensures Next(math, s, l).log.clockMonotone ==> s.log.clockMonotone
  {
    if !l.SetClock? {
      OnlyClockTouchesClock(math, s, l);
    }
  }

  lemma OnlyClockTouchesClock(math: MathLibrary, s: State, l: Label)
    requires !l.SetClock?
    ensures Next(math, s, l).clockNs == s.clockNs && Next(math, s, l).log.clockMonotone == s.log.clockMonotone
  {
    TaskTouches(math, s, l);
  }

  lemma FreshAlways(math: MathLibrary, start: State, schedule: Schedule)
    requires Started(start)
    ensures Fresh(Run(math, start, schedule))
  {
    forall s, l | Fresh(s) ensures Fresh(Stepper(math)(s, l)) {
      StepStaysFresh(math, s, l);
    }
    InvariantOfRuns(Stepper(math), (s: State) => Fresh(s), start, schedule);
  }

  /** In every run in which the clock is never set back: no recorded latency exceeds the age of the snapshot it was
      recorded for. It equals that age if no newer tick had stored its time by then. */
  lemma LatencyNeverOverstated(math: MathLibrary, start: State, schedule: Schedule, sample: Sample)
    requires Started(start) && Run(math, start, schedule).log.clockMonotone
    requires sample in Run(math, start, schedule).log.samples
    ensures var built := Run(math, start, schedule).log.built;
      && sample.no < |built| && sample.startUs <= sample.nowUs
      && sample.nowUs - sample.startUs <= sample.nowUs - built[sample.no].timestampUs
      && (sample.latest ==> sample.nowUs - sample.startUs == sample.nowUs - built[sample.no].timestampUs)
  {
    FreshAlways(math, start, schedule);
    assert GoodSample(Run(math, start, schedule).log.built, sample);
  }

  // ---------- When the recorded latency is the true one ----------

  /** The times that ticks have stored, in order: those of the snapshots built, then that of a snapshot being built. */
  function Stamps(s: State): (stamps: seq<nat>)
    ensures |stamps| >= |s.log.built|
  {
    seq(|s.log.built|, i requires 0 <= i < |s.log.built| => s.log.built[i].timestampUs)
    + match s.tick
      case Stamped(now) => [now]
      case Swapped(now, _) => [now]
      case _ => []
  }

  /** The sample was taken when the tick numbered `stamp` had stored its time and none after it. */
  predicate TakenAt(stamps: seq<nat>, sample: Sample, stamp: nat) {
    && sample.no <= stamp < |stamps| && sample.startUs == stamps[stamp]
    && (sample.latest <==> stamp == sample.no)
  }

  ghost predicate Taken(stamps: seq<nat>, sample: Sample) {
    exists stamp: nat :: TakenAt(stamps, sample, stamp)
  }

  ghost predicate SamplesTaken(s: State) {
    && NumbersKnown(s)
    && (Stamps(s) != [] ==> s.snapshotTimestampUs == Stamps(s)[|Stamps(s)| - 1])
    && forall sample :: sample in s.log.samples ==> sample.no < |s.log.built| && Taken(Stamps(s), sample)
  }

  lemma TakenStays(stamps: seq<nat>, stamps': seq<nat>, sample: Sample)
    requires stamps <= stamps' && Taken(stamps, sample)
    ensures Taken(stamps', sample)
  {
    var stamp: nat :| TakenAt(stamps, sample, stamp);
    assert TakenAt(stamps', sample, stamp);
  }

  lemma TickStamps(s: State)
    ensures Stamps(AdvanceTick(s)) == Stamps(s) + if s.tick.Clocked? then [s.tick.nowUs] else []
    ensures AdvanceTick(s).snapshotTimestampUs == if s.tick.Clocked? then s.tick.nowUs else s.snapshotTimestampUs
  {
  }

  lemma TickKeepsTaken(s: State)
    requires SamplesTaken(s)
    ensures SamplesTaken(AdvanceTick(s))
  {
    var s' := AdvanceTick(s);
    TickKnows(s);
    TickLeavesOutput(s);
    TickStamps(s);
    forall sample | sample in s.log.samples ensures sample.no < |s'.log.built| && Taken(Stamps(s'), sample) {
      TakenStays(Stamps(s), Stamps(s'), sample);
    }
  }

  lemma DispatcherKeepsTaken(s: State, encodes: bool)
    requires SamplesTaken(s)
    ensures SamplesTaken(AdvanceDispatcher(s, encodes))
  {
    var s' := AdvanceDispatcher(s, encodes);
    DispatcherTouches(s, encodes);
    DispatcherKnows(s, encodes);
    assert Stamps(s') == Stamps(s);
    if s.dispatcher.DispatcherTimed? && s'.log.samples != s.log.samples {
      var sample := Sample(s.dispatcher.no, s.dispatcher.nowUs, s.snapshotTimestampUs, Latest(s, s.dispatcher.no));
      assert s'.log.samples == s.log.samples + [sample];
      assert TakenAt(Stamps(s), sample, |Stamps(s)| - 1);
    } else {
      assert s'.log.samples == s.log.samples;
    }
  }

  lemma MapperKeepsTaken(math: MathLibrary, s: State)
    requires SamplesTaken(s)
    ensures SamplesTaken(AdvanceMapper(math, s))
  {
    MapperTouches(math, s);
    MapperKnows(math, s);
    assert Stamps(AdvanceMapper(math, s)) == Stamps(s);
  }

  lemma OthersKeepTaken(math: MathLibrary, s: State, l: Label)
    requires SamplesTaken(s) && !l.AggregatorTick? && !l.MapperStep? && !l.DispatcherStep?
    ensures SamplesTaken(Next(math, s, l))
  {
    OnlyOutputTasksTouchOutput(math, s, l);
    assert Stamps(Next(math, s, l)) == Stamps(s);
  }

  lemma StepKeepsTaken(math: MathLibrary, s: State, l: Label)
    requires SamplesTaken(s)
    ensures SamplesTaken(Next(math, s, l))
  {
    match l
    case AggregatorTick => TickKeepsTaken(s);
    case MapperStep => MapperKeepsTaken(math, s);
    case DispatcherStep(encodes) => DispatcherKeepsTaken(s, encodes);
    case _ => OthersKeepTaken(math, s, l);
  }

  /** In every run whose ticks store strictly increasing times: a recorded latency is
      the true age of the dispatched snapshot exactly if no newer tick had stored its time when it was recorded. */
  lemma LatencyExactly(math: MathLibrary, start: State, schedule: Schedule, sample: Sample)
    requires Started(start) && Increasing(Stamps(Run(math, start, schedule)))
    requires sample in Run(math, start, schedule).log.samples
    ensures var built := Run(math, start, schedule).log.built;
      sample.no < |built| && (sample.startUs == built[sample.no].timestampUs <==> sample.latest)
  {
    forall s, l | SamplesTaken(s) ensures SamplesTaken(Stepper(math)(s, l)) {
      StepKeepsTaken(math, s, l);
    }
    InvariantOfRuns(Stepper(math), (s: State) => SamplesTaken(s), start, schedule);
    var s := Run(math, start, schedule);
    var stamp: nat :| TakenAt(Stamps(s), sample, stamp);
    assert Stamps(s)[sample.no] == s.log.built[sample.no].timestampUs;
  }
}

/** When each step of the output side takes which branch, and what it then does, told from the state it meets and without
    the functions that perform it; and from there, what has happened in a run for everything its log shows. */
module Guards {
  import opened Prelude
  import opened Machines
  import opened Metrics
  import opened Aggregation
  import opened Mapping
  import opened Osc
  import opened Pipeline
  import opened Conservation
  import opened Delivery

  type Event = (State, Label) -> bool

  // ---------- Giving up ----------

  /** The step gives up snapshot skip.no, or its frame, for exactly this reason. */
  predicate SkipsAt(s: State, l: Label, skip: Skip) {
    match skip.reason
    case SnapshotQueueFull =>
      l.AggregatorTick? && s.tick.Swapped? && |s.snapshotQueue| >= 256 && skip.no == |s.log.built|
    case RulesPoisoned =>
      l.MapperStep? && s.mapper.MapperHolds? && s.rules.None? && skip.no == s.mapper.tagged.no
    case FrameQueueFull =>
      l.MapperStep? && s.mapper.MapperReady? && |s.frameQueue| >= 256 && skip.no == s.mapper.frame.no
    case FrameEmpty =>
      && l.DispatcherStep? && s.dispatcher.DispatcherHolds? && skip.no == s.dispatcher.frame.no
      && |s.dispatcher.frame.params| == 0
    case BackendsPoisoned =>
      && l.DispatcherStep? && s.dispatcher.DispatcherHolds? && skip.no == s.dispatcher.frame.no
      && |s.dispatcher.frame.params| > 0 && s.backends.None?
    case EncodingFailed =>
      && l.DispatcherStep? && s.dispatcher.DispatcherHolds? && skip.no == s.dispatcher.frame.no
      && |s.dispatcher.frame.params| > 0 && s.backends.Some? && !l.encodes
  }

  lemma TickSkips(s: State, skip: Skip)
    ensures skip in AdvanceTick(s).log.skipped <==> skip in s.log.skipped || SkipsAt(s, AggregatorTick, skip)
  {
  }

  lemma MapperSkips(math: MathLibrary, s: State, skip: Skip)
    ensures skip in AdvanceMapper(math, s).log.skipped <==> skip in s.log.skipped || SkipsAt(s, MapperStep, skip)
  {
  }

  lemma DispatcherSkips(s: State, encodes: bool, skip: Skip)
    ensures skip in AdvanceDispatcher(s, encodes).log.skipped
      <==> skip in s.log.skipped || SkipsAt(s, DispatcherStep(encodes), skip)
  {
  }

  lemma StepSkips(math: MathLibrary, s: State, l: Label, skip: Skip)
    ensures skip in Next(math, s, l).log.skipped <==> skip in s.log.skipped || SkipsAt(s, l, skip)
  {
    match l
    case AggregatorTick => TickSkips(s, skip);
    case MapperStep => MapperSkips(math, s, skip);
    case DispatcherStep(encodes) => DispatcherSkips(s, encodes, skip);
    case _ => OnlyOutputTasksTouchOutput(math, s, l);
  }

  function Skipping(skip: Skip): Event {
    (s: State, l: Label) => SkipsAt(s, l, skip)
  }

  /** In every run a snapshot is logged as given up for a reason exactly if some step met the guard of that reason. */
  lemma SkippedExactly(math: MathLibrary, start: State, schedule: Schedule, skip: Skip)
    requires Started(start)
    ensures skip in Run(math, start, schedule).log.skipped <==> Happens(Stepper(math), start, schedule, Skipping(skip))
  {
    forall s, l ensures skip in Stepper(math)(s, l).log.skipped <==> skip in s.log.skipped || SkipsAt(s, l, skip) {
      StepSkips(math, s, l, skip);
    }
    CausedByEvent(Stepper(math), (s: State) => true, start, schedule, (s: State) => skip in s.log.skipped, Skipping(skip));
  }

  // ---------- Mapping ----------

  /** The step makes f from the snapshot in the mapper's hands, with the rules in force. */
  ghost predicate MapsAt(math: MathLibrary, s: State, l: Label, f: Frame) {
    && l.MapperStep? && s.mapper.MapperHolds? && s.mapper.tagged.no == f.no
    && s.rules == Some(f.rules)
    && FrameOf(f.params, ActiveRules(f.rules), ValueAt(math, s.mapper.tagged.snapshot.metrics))
  }

  ghost function Making(math: MathLibrary, f: Frame): Event {
    (s: State, l: Label) => MapsAt(math, s, l, f)
  }

  /** The frame is somewhere behind the mapper. */
  predicate Made(s: State, f: Frame) {
    || s.mapper == MapperReady(f) || f in s.frameQueue || s.dispatcher == DispatcherHolds(f)
    || exists d :: d in s.log.dispatched && d.frame == f
  }

  /** The mapper holds f after a step exactly if that step has made it. */
  lemma MapperMakes(math: MathLibrary, s: State, f: Frame)
    requires s.mapper.MapperHolds?
    ensures AdvanceMapper(math, s).mapper == MapperReady(f) <==> MapsAt(math, s, MapperStep, f)
  {
    if s.rules.Some? {
      var t := s.mapper.tagged;
      var params := MapParams(math, s.rules.value, t.snapshot.metrics);
      FrameOfRules(math, s.rules.value, t.snapshot.metrics);
      if MapsAt(math, s, MapperStep, f) {
        FrameUnique(params, f.params, ActiveRules(f.rules), ValueAt(math, t.snapshot.metrics));
      }
    }
  }

  lemma MapperStepMade(math: MathLibrary, s: State, f: Frame)
    requires Made(AdvanceMapper(math, s), f)
    ensures Made(s, f) || MapsAt(math, s, MapperStep, f)
  {
    MapperTouches(math, s);
    if s.mapper.MapperHolds? {
      MapperMakes(math, s, f);
      assert AdvanceMapper(math, s).frameQueue == s.frameQueue;
    }
  }

  lemma DispatcherStepMade(s: State, encodes: bool, f: Frame)
    requires Made(AdvanceDispatcher(s, encodes), f)
    ensures Made(s, f)
  {
    var s' := AdvanceDispatcher(s, encodes);
    DispatcherTouches(s, encodes);
    if s.dispatcher.DispatcherHolds? && s'.dispatcher.DispatcherSent? {
      var d := s'.log.dispatched[|s.log.dispatched|];
      assert d.frame == s.dispatcher.frame && s'.log.dispatched == s.log.dispatched + [d];
    } else {
      assert s'.log.dispatched == s.log.dispatched;
    }
  }

  lemma StepMade(math: MathLibrary, s: State, l: Label, f: Frame)
    requires Made(Next(math, s, l), f)
    ensures Made(s, f) || MapsAt(math, s, l, f)
  {
    match l
    case AggregatorTick => TickLeavesOutput(s);
    case MapperStep => MapperStepMade(math, s, f);
    case DispatcherStep(encodes) => DispatcherStepMade(s, encodes, f);
    case _ => OnlyOutputTasksTouchOutput(math, s, l);
  }

  /** In every run each frame, dispatched or on its way, was made at some step: with the rules in force at that step, from
      the metrics of its snapshot, one parameter for each active rule. */
  lemma FramesMadeByRulesInForce(math: MathLibrary, start: State, schedule: Schedule, f: Frame)
    requires Started(start) && Made(Run(math, start, schedule), f)
    ensures Happens(Stepper(math), start, schedule, Making(math, f))
  {
    forall s, l | Made(Stepper(math)(s, l), f) ensures Made(s, f) || Making(math, f)(s, l) {
      StepMade(math, s, l, f);
    }
    CausedByEvent(Stepper(math), (s: State) => true, start, schedule, (s: State) => Made(s, f), Making(math, f));
  }

  lemma {:induction false} RulesStay(math: MathLibrary, start: State, schedule: Schedule)
    requires forall l :: l in schedule ==> !l.SetRules?
    ensures Run(math, start, schedule).rules == start.rules
  {
    if schedule == [] {
    } else {
      var n := |schedule| - 1;
      assert schedule[n] in schedule;
      RulesStay(math, start, schedule[..n]);
      RulesLeftAlone(math, Run(math, start, schedule[..n]), schedule[n]);
    }
  }

  lemma RulesLeftAlone(math: MathLibrary, s: State, l: Label)
    requires !l.SetRules?
    ensures Next(math, s, l).rules == s.rules
  {
    TaskTouches(math, s, l);
  }

  /** If nobody changes the rules, every packet is made with those of the start. */
  lemma PacketsUnderConstantRules(math: MathLibrary, start: State, schedule: Schedule, d: Dispatch)
    requires Started(start) && d in Run(math, start, schedule).log.dispatched
    requires forall l :: l in schedule ==> !l.SetRules?
    ensures start.rules == Some(d.frame.rules)
  {
    FramesMadeByRulesInForce(math, start, schedule, d.frame);
    var k: nat :| k < |schedule| && Making(math, d.frame)(Execute(Stepper(math), start, schedule[..k]), schedule[k]);
    RulesStay(math, start, schedule[..k]);
  }

  // ---------- Dispatch ----------

  /** The step sends d: the frame in the dispatcher's hands, not empty, in a bundle that carries it at this time, to the
      backends in force. */
  ghost predicate SendsAt(s: State, l: Label, d: Dispatch) {
    && l.DispatcherStep? && l.encodes && s.dispatcher == DispatcherHolds(d.frame) && |d.frame.params| > 0
    && s.backends == Some(d.backends) && Carries(d.bundle, d.frame.params, s.clockNs)
  }

  ghost function Sending(d: Dispatch): Event {
    (s: State, l: Label) => SendsAt(s, l, d)
  }

  lemma DispatcherSendsExactly(s: State, encodes: bool, d: Dispatch)
    ensures d in AdvanceDispatcher(s, encodes).log.dispatched
      <==> d in s.log.dispatched || SendsAt(s, DispatcherStep(encodes), d)
  {
    if s.dispatcher.DispatcherHolds? {
      BundleCarries(d.bundle, s.dispatcher.frame.params, s.clockNs);
    }
  }

  lemma StepSends(math: MathLibrary, s: State, l: Label, d: Dispatch)
    ensures d in Next(math, s, l).log.dispatched <==> d in s.log.dispatched || SendsAt(s, l, d)
  {
    match l
    case AggregatorTick => TickLeavesOutput(s);
    case MapperStep => MapperTouches(math, s);
    case DispatcherStep(encodes) => DispatcherSendsExactly(s, encodes, d);
    case _ => OnlyOutputTasksTouchOutput(math, s, l);
  }

  /** In every run a packet has been sent exactly if some step met the guard for sending it. */
  lemma SentExactly(math: MathLibrary, start: State, schedule: Schedule, d: Dispatch)
    requires Started(start)
    ensures d in Run(math, start, schedule).log.dispatched <==> Happens(Stepper(math), start, schedule, Sending(d))
  {
    forall s, l ensures d in Stepper(math)(s, l).log.dispatched <==> d in s.log.dispatched || Sending(d)(s, l) {
      StepSends(math, s, l, d);
    }
    CausedByEvent(Stepper(math), (s: State) => true, start, schedule, (s: State) => d in s.log.dispatched, Sending(d));
  }

  // ---------- Latencies ----------

  /** The step records the sample: the send has been timed, and the shared timestamp is set and not in the future. */
  predicate RecordsAt(s: State, l: Label, sample: Sample) {
    && l.DispatcherStep? && s.dispatcher == DispatcherTimed(sample.no, sample.nowUs)
    && sample.startUs == s.snapshotTimestampUs && 0 < sample.startUs <= sample.nowUs
    && (sample.latest <==> Latest(s, sample.no))
  }

  function Recording(sample: Sample): Event {
    (s: State, l: Label) => RecordsAt(s, l, sample)
  }

  lemma StepRecords(math: MathLibrary, s: State, l: Label, sample: Sample)
    ensures sample in Next(math, s, l).log.samples <==> sample in s.log.samples || RecordsAt(s, l, sample)
  {
    match l
    case AggregatorTick => TickLeavesOutput(s);
    case MapperStep => MapperTouches(math, s);
    case DispatcherStep(_) =>
    case _ => OnlyOutputTasksTouchOutput(math, s, l);
  }

  /** In every run a latency has been recorded exactly if some step met the guard for recording it. */
  lemma RecordedExactly(math: MathLibrary, start: State, schedule: Schedule, sample: Sample)
    requires Started(start)
    ensures sample in Run(math, start, schedule).log.samples <==> Happens(Stepper(math), start, schedule, Recording(sample))
  {
    forall s, l ensures sample in Stepper(math)(s, l).log.samples <==> sample in s.log.samples || RecordsAt(s, l, sample) {
      StepRecords(math, s, l, sample);
    }
    CausedByEvent(Stepper(math), (s: State) => true, start, schedule, (s: State) => sample in s.log.samples,
                  Recording(sample));
  }

  /** The step reads the clock for a packet that has been sent. */
  function Timing(no: nat, nowUs: nat): Event {
    (s: State, l: Label) => l.DispatcherStep? && s.dispatcher == DispatcherSent(no) && nowUs == s.clockNs / 1000
  }

  predicate Timed(s: State, no: nat, nowUs: nat) {
    s.dispatcher == DispatcherTimed(no, nowUs) || exists sample :: sample in s.log.samples && sample.no == no && sample.nowUs == nowUs
  }

  lemma StepTimes(math: MathLibrary, s: State, l: Label, no: nat, nowUs: nat)
    requires Timed(Next(math, s, l), no, nowUs)
    ensures Timed(s, no, nowUs) || Timing(no, nowUs)(s, l)
  {
    match l
    case AggregatorTick => TickLeavesOutput(s);
    case MapperStep => MapperTouches(math, s);
    case DispatcherStep(encodes) => DispatcherTimes(s, encodes, no, nowUs);
    case _ => OnlyOutputTasksTouchOutput(math, s, l);
  }

  lemma DispatcherTimes(s: State, encodes: bool, no: nat, nowUs: nat)
    requires Timed(AdvanceDispatcher(s, encodes), no, nowUs)
    ensures Timed(s, no, nowUs) || Timing(no, nowUs)(s, DispatcherStep(encodes))
  {
    var s' := AdvanceDispatcher(s, encodes);
    if s'.dispatcher != DispatcherTimed(no, nowUs) {
      var sample :| sample in s'.log.samples && sample.no == no && sample.nowUs == nowUs;
      assert sample in s.log.samples || s.dispatcher == DispatcherTimed(no, nowUs);
    }
  }

  /** The end of every latency recorded is a reading of the clock after the packet was sent. */
  lemma SamplesTimedByClock(math: MathLibrary, start: State, schedule: Schedule, sample: Sample)
    requires Started(start) && sample in Run(math, start, schedule).log.samples
    ensures Happens(Stepper(math), start, schedule, Timing(sample.no, sample.nowUs))
  {
    var no, nowUs := sample.no, sample.nowUs;
    forall s, l | Timed(Stepper(math)(s, l), no, nowUs) ensures Timed(s, no, nowUs) || Timing(no, nowUs)(s, l) {
      StepTimes(math, s, l, no, nowUs);
    }
    CausedByEvent(Stepper(math), (s: State) => true, start, schedule, (s: State) => Timed(s, no, nowUs), Timing(no, nowUs));
  }

  /** Changes from outside take effect at once: the clock, the rules and the backends are what they were last set to. */
  lemma {:induction false} LastSetting(math: MathLibrary, start: State, schedule: Schedule)
    ensures var s := Run(math, start, schedule);
      && (forall k :: 0 <= k < |schedule| && schedule[k].SetRules? && NoneAfter(schedule, k, (l: Label) => l.SetRules?) ==>
            s.rules == schedule[k].rules)
      && (forall k :: 0 <= k < |schedule| && schedule[k].SetBackends? && NoneAfter(schedule, k, (l: Label) => l.SetBackends?) ==>
            s.backends == schedule[k].backends)
      && (forall k :: 0 <= k < |schedule| && schedule[k].SetClock? && NoneAfter(schedule, k, (l: Label) => l.SetClock?) ==>
            s.clockNs == schedule[k].ns)
  {
    if schedule == [] {
    } else {
      var n := |schedule| - 1;
      var before := schedule[..n];
      LastSetting(math, start, before);
      SettingsStep(math, Run(math, start, before), schedule[n]);
      forall k, p: Label -> bool | 0 <= k < n && NoneAfter(schedule, k, p) ensures NoneAfter(before, k, p) && !p(schedule[n]) {
        assert forall j :: k < j < n ==> before[j] == schedule[j];
      }
    }
  }

  predicate NoneAfter(schedule: Schedule, k: int, p: Label -> bool)
    requires 0 <= k < |schedule|
  {
    forall j :: k < j < |schedule| ==> !p(schedule[j])
  }

  lemma SettingsStep(math: MathLibrary, s: State, l: Label)
    ensures var s' := Next(math, s, l);
      && s'.rules == (if l.SetRules? then l.rules else s.rules)
      && s'.backends == (if l.SetBackends? then l.backends else s.backends)
      && s'.clockNs == (if l.SetClock? then l.ns else s.clockNs)
  {
    if l.AggregatorTick? {
      TickLeavesSettings(s);
    } else {
      TaskTouches(math, s, l);
    }
  }

  lemma TickLeavesSettings(s: State)
    ensures var s' := AdvanceTick(s); s'.rules == s.rules && s'.backends == s.backends && s'.clockNs == s.clockNs
  {
  }

  // ---------- Runs in which nothing is given up ----------

  predicate NamesMetric(rules: seq<MappingRule>) {
    exists rule :: rule in rules && KnownMetric(rule.sourceMetric).Some?
  }

  /** What can cost a snapshot its packet: a poisoned lock, rules that name no metric, an encoding that fails, a full queue. */
  predicate Trouble(s: State, l: Label) {
    || (l.AggregatorTick? && s.tick.Swapped? && |s.snapshotQueue| >= 256)
    || (l.MapperStep? && s.mapper.MapperHolds? && (s.rules.None? || !NamesMetric(s.rules.value)))
    || (l.MapperStep? && s.mapper.MapperReady? && |s.frameQueue| >= 256)
    || (l.DispatcherStep? && s.dispatcher.DispatcherHolds? && (s.backends.None? || !l.encodes))
  }

  /** Nothing has been given up, and no frame on its way is empty. */
  ghost predicate Untroubled(s: State) {
    && s.log.skipped == []
    && (s.mapper.MapperReady? ==> s.mapper.frame.params != [])
    && (forall f :: f in s.frameQueue ==> f.params != [])
    && (s.dispatcher.DispatcherHolds? ==> s.dispatcher.frame.params != [])
  }

  lemma FrameNotEmpty(math: MathLibrary, rules: seq<MappingRule>, metrics: MetricMap)
    requires NamesMetric(rules)
    ensures MapParams(math, rules, metrics) != []
  {
    var rule :| rule in rules && KnownMetric(rule.sourceMetric).Some?;
    RetainedMembers(rules, NamesNoMetric(), rule);
    FrameOfRules(math, rules, metrics);
  }

  lemma TickUntroubled(s: State)
    requires Untroubled(s) && !Trouble(s, AggregatorTick)
    ensures Untroubled(AdvanceTick(s))
  {
    TickLeavesOutput(s);
  }

  lemma MapperUntroubled(math: MathLibrary, s: State)
    requires Untroubled(s) && !Trouble(s, MapperStep)
    ensures Untroubled(AdvanceMapper(math, s))
  {
    if s.mapper.MapperHolds? {
      FrameNotEmpty(math, s.rules.value, s.mapper.tagged.snapshot.metrics);
    }
  }

  lemma DispatcherUntroubled(s: State, encodes: bool)
    requires Untroubled(s) && !Trouble(s, DispatcherStep(encodes))
    ensures Untroubled(AdvanceDispatcher(s, encodes))
  {
  }

  lemma StepUntroubled(math: MathLibrary, s: State, l: Label)
    requires Untroubled(s) && !Trouble(s, l)
    ensures Untroubled(Next(math, s, l))
  {
    match l
    case AggregatorTick => TickUntroubled(s);
    case MapperStep => MapperUntroubled(math, s);
    case DispatcherStep(encodes) => DispatcherUntroubled(s, encodes);
    case _ => OnlyOutputTasksTouchOutput(math, s, l);
  }

  /** In a run without trouble nothing is given up: every snapshot built is dispatched or on its way, in order. */
  lemma NothingGivenUp(math: MathLibrary, start: State, schedule: Schedule)
    requires Started(start) && !Happens(Stepper(math), start, schedule, Trouble)
    ensures var s := Run(math, start, schedule);
      s.log.skipped == [] && OnTheWay(s) == Upto(|s.log.built|)
  {
    forall s, l | Untroubled(s) && !Trouble(s, l) ensures Untroubled(Stepper(math)(s, l)) {
      StepUntroubled(math, s, l);
    }
    InvariantWithoutTrouble(Stepper(math), (s: State) => Untroubled(s), Trouble, start, schedule);
    var s := Run(math, start, schedule);
    SnapshotsAccountedFor(math, start, schedule);
    PacketsInOrder(math, start, schedule);
    NoneSkipped(OnTheWay(s), s.log.skipped, |s.log.built|);
    AllInOrder(OnTheWay(s), |s.log.built|);
  }

  lemma NoneSkipped(numbers: seq<nat>, skipped: seq<Skip>, n: nat)
    requires skipped == [] && multiset(numbers) + multiset(SkipNumbers(skipped)) == multiset(Upto(n))
    ensures |numbers| == n
  {
    var none: seq<nat> := SkipNumbers(skipped);
    assert none == [];
    assert |multiset(numbers)| == |numbers| && |multiset(Upto(n))| == n;
  }
}

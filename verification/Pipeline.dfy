/** The running daemon as an interleaving of tasks: probes, ring buffer consumer, aggregator, mapping engine, dispatcher
    and database tasks, joined by bounded queues and shared counters. Each label is one atomic action of one task; an
    action of a task that is blocked, or not at that point of its code, changes nothing. */
module Pipeline {
  import opened Prelude
  import opened Events
  import opened Metrics
  import opened Aggregation
  import opened Mapping
  import opened Osc
  import opened Machines
  import Database

  const RAW_CAPACITY: nat := 2048
  const AGG_CAPACITY: nat := 2048

  // ---------- Tasks ----------

  /** Where a probe is between two events: after a successful send the total and then the time of the last event are
      updated; after a refused one the probe's own loss counter and then the shared one. */
  datatype ProbePhase = Ready | Sent(us: nat) | Counted(us: nat) | Refused | HalfCounted

  datatype Probe = Probe(eventsTotal: nat, eventsLost: nat, lastEventUs: nat, phase: ProbePhase)

  /** Where the aggregator is in its tick branch. */
  datatype TickPhase =
    | Collecting
    | Clocked(nowUs: nat)
    | Stamped(nowUs: nat)
    | Swapped(nowUs: nat, lost: nat)
    | Forwarded(snapshot: StateSnapshot)

  // Snapshots and frames carry their place in the order of building, and frames the rules they were made with; the
  // program has neither.
  datatype Tagged = Tagged(no: nat, snapshot: StateSnapshot)
  datatype Frame = Frame(no: nat, rules: seq<MappingRule>, params: seq<MappedParam>)

  datatype MapperPhase = MapperIdle | MapperHolds(tagged: Tagged) | MapperReady(frame: Frame)

  datatype DispatcherPhase =
    | DispatcherIdle
    | DispatcherHolds(frame: Frame)
    | DispatcherSent(no: nat)
    | DispatcherTimed(no: nat, nowUs: nat)

  /** Everything persistence adds to the daemon; the last two fields record what has happened and decide nothing. */
  datatype DatabaseSide = DatabaseSide(
    insertTasks: seq<RawEvent>,
    snapshotQueue: seq<StateSnapshot>,
    store: Database.Store,
    history: Database.History,  // operations performed on the store
    taps: seq<bool>)            // for each snapshot offered to the tap: queued or dropped

  /** One packet handed to the socket for every backend. */
  datatype Dispatch = Dispatch(frame: Frame, bundle: OscBundle, backends: seq<Backend>)

  /** A dispatch latency recorded: the two times it is computed from, and whether its snapshot was the latest then. */
  datatype Sample = Sample(no: nat, nowUs: nat, startUs: nat, latest: bool)

  /** Where a snapshot, or the frame made of it, was given up. */
  datatype Reason = SnapshotQueueFull | RulesPoisoned | FrameQueueFull | FrameEmpty | BackendsPoisoned | EncodingFailed

  datatype Skip = Skip(no: nat, reason: Reason)

  /** What has happened so far. Only `dispatched` and `samples` are visible outside. */
  datatype Log = Log(
    refused: nat,                 // offers the raw queue had no room for
    accepted: seq<RawEvent>,      // events the raw queue took, in order
    verdicts: seq<bool>,          // for each event the consumer has handled: forwarded or dropped
    windows: seq<seq<RawEvent>>,  // windows closed and cleared
    built: seq<StateSnapshot>,    // snapshots built
    clockMonotone: bool,          // the clock has never been set back
    dispatched: seq<Dispatch>,
    samples: seq<Sample>,
    skipped: seq<Skip>)           // snapshots that were never dispatched

  datatype State = State(
    clockNs: U64,
    probes: seq<Probe>,
    cumulativeLost: nat,
    rawQueue: seq<RawEvent>,
    consumer: Option<RawEvent>,
    aggQueue: seq<RawEvent>,
    tick: TickPhase,
    window: seq<RawEvent>,
    filter: Filter,
    windowMs: nat,
    snapshotTimestampUs: nat,
    shared: Option<StateSnapshot>,      // what the control interface shows; None: the lock is poisoned
    snapshotQueue: seq<Tagged>,
    rules: Option<seq<MappingRule>>,    // None: the lock is poisoned
    mapper: MapperPhase,
    frameQueue: seq<Frame>,
    backends: Option<seq<Backend>>,     // None: the lock is poisoned
    dispatcher: DispatcherPhase,
    database: Option<DatabaseSide>,     // None: a daemon without persistence
    log: Log)

  datatype Label =
    | SetClock(ns: U64)
    | Offer(probe: nat, event: RawEvent)
    | ProbeStep(probe: nat)
    | ConsumerStep
    | AggregatorReceive
    | AggregatorTick
    | MapperStep
    | DispatcherStep(encodes: bool)
    | SetRules(rules: Option<seq<MappingRule>>)
    | SetBackends(backends: Option<seq<Backend>>)
    | InsertEventTask(task: nat, ok: bool)
    | InsertSnapshotTask(ok: bool)
    | PurgeTask(retentionUs: U64, okEvents: bool, okSnapshots: bool)
    | WipeTask(okEvents: bool, okSnapshots: bool)

  /** The start: no task has done anything; the store, if there is one, is as an earlier run has left it. */
  function Initial(probes: nat, windowMs: nat, rules: Option<seq<MappingRule>>, backends: Option<seq<Backend>>,
                   shared: Option<StateSnapshot>, store: Option<Database.Store>): State {
    var database := match store case None => None case Some(file) => Some(DatabaseSide([], [], file, [], []));
    State(0, seq(probes, _ => Probe(0, 0, 0, Ready)), 0, [], None, [], Collecting, [], INITIAL_FILTER, windowMs, 0,
          shared, [], rules, MapperIdle, [], backends, DispatcherIdle, database, Log(0, [], [], [], [], true, [], [], []))
  }

  // ---------- Steps ----------

  function OfferEvent(s: State, i: nat, e: RawEvent): State {
    if i >= |s.probes| || s.probes[i].phase != Ready then s
    else if |s.rawQueue| < RAW_CAPACITY then
      s.(rawQueue := s.rawQueue + [e],
         probes := s.probes[i := s.probes[i].(phase := Sent(e.timestampNs / 1000))],
         log := s.log.(accepted := s.log.accepted + [e]))
    else s.(probes := s.probes[i := s.probes[i].(phase := Refused)], log := s.log.(refused := s.log.refused + 1))
  }

  function AdvanceProbe(s: State, i: nat): State {
    if i >= |s.probes| then s
    else
      var p := s.probes[i];
      match p.phase
      case Ready => s
      case Sent(us) => s.(probes := s.probes[i := p.(eventsTotal := p.eventsTotal + 1, phase := Counted(us))])
      case Counted(us) => s.(probes := s.probes[i := p.(lastEventUs := us, phase := Ready)])
      case Refused => s.(probes := s.probes[i := p.(eventsLost := p.eventsLost + 1, phase := HalfCounted)])
      case HalfCounted =>
        s.(probes := s.probes[i := p.(phase := Ready)], cumulativeLost := s.cumulativeLost + 1)
  }

  function Spawned(database: Option<DatabaseSide>, e: RawEvent): Option<DatabaseSide> {
    match database
    case None => None
    case Some(d) => Some(d.(insertTasks := d.insertTasks + [e]))
  }

  /** Take an event and spawn its insertion, then forward it or drop it. */
  function AdvanceConsumer(s: State): State {
    match s.consumer
    case None =>
      if s.rawQueue == [] then s
      else s.(rawQueue := s.rawQueue[1..], consumer := Some(s.rawQueue[0]),
              database := Spawned(s.database, s.rawQueue[0]))
    case Some(e) =>
      s.(consumer := None, aggQueue := Offered(s.aggQueue, AGG_CAPACITY, e),
         log := s.log.(verdicts := s.log.verdicts + [|s.aggQueue| < AGG_CAPACITY]))
  }

  function ReceiveEvent(s: State): State {
    if s.tick.Collecting? && s.aggQueue != [] then
      s.(aggQueue := s.aggQueue[1..], window := s.window + [s.aggQueue[0]])
    else s
  }

  /** Offering a snapshot to the database tap. */
  function Offering(database: Option<DatabaseSide>, snapshot: StateSnapshot): Option<DatabaseSide> {
    match database
    case None => None
    case Some(d) => Some(d.(snapshotQueue := Tapped(d.snapshotQueue, snapshot),
                            taps := d.taps + [|d.snapshotQueue| < DB_SNAPSHOT_CAPACITY]))
  }

  function ClockUs(s: State): nat {
    s.clockNs / 1000
  }

  /** A bounded queue's refusal, for the log. */
  function Refusal(queued: nat, capacity: nat, no: nat, reason: Reason): seq<Skip> {
    if queued < capacity then [] else [Skip(no, reason)]
  }

  /** The tick branch: read the clock, store the shared timestamp, swap the loss counter, build, show and forward the
      snapshot, offer it to the database and clear the window. */
  function AdvanceTick(s: State): State {
    match s.tick
    case Collecting => s.(tick := Clocked(ClockUs(s)))
    case Clocked(now) => s.(snapshotTimestampUs := now, tick := Stamped(now))
    case Stamped(now) => s.(cumulativeLost := 0, tick := Swapped(now, s.cumulativeLost))
    case Swapped(now, lost) =>
      var filter := Close(s.filter, s.window);
      var snapshot := SnapshotOf(filter, now, s.windowMs, lost);
      var no := |s.log.built|;
      s.(filter := filter, tick := Forwarded(snapshot), shared := Shown(s.shared, snapshot),
         snapshotQueue := Offered(s.snapshotQueue, SNAPSHOT_CAPACITY, Tagged(no, snapshot)),
         log := s.log.(built := s.log.built + [snapshot],
                       skipped := s.log.skipped
                                  + Refusal(|s.snapshotQueue|, SNAPSHOT_CAPACITY, no, SnapshotQueueFull)))
    case Forwarded(snapshot) =>
      s.(tick := Collecting, window := [], database := Offering(s.database, snapshot),
         log := s.log.(windows := s.log.windows + [s.window]))
  }

  function AdvanceMapper(math: MathLibrary, s: State): State {
    match s.mapper
    case MapperIdle =>
      if s.snapshotQueue == [] then s
      else s.(snapshotQueue := s.snapshotQueue[1..], mapper := MapperHolds(s.snapshotQueue[0]))
    case MapperHolds(t) =>
      if s.rules.None? then
        s.(mapper := MapperIdle, log := s.log.(skipped := s.log.skipped + [Skip(t.no, RulesPoisoned)]))
      else
        var rules := s.rules.value;
        s.(mapper := MapperReady(Frame(t.no, rules, MapParams(math, rules, t.snapshot.metrics))))
    case MapperReady(f) =>
      s.(mapper := MapperIdle, frameQueue := Offered(s.frameQueue, FRAME_CAPACITY, f),
         log := s.log.(skipped := s.log.skipped + Refusal(|s.frameQueue|, FRAME_CAPACITY, f.no, FrameQueueFull)))
  }

  /** The timestamp on display is that of the snapshot numbered no, and no newer tick has touched it. */
  predicate Latest(s: State, no: nat) {
    |s.log.built| == no + 1 && !s.tick.Stamped? && !s.tick.Swapped?
  }

  function AdvanceDispatcher(s: State, encodes: bool): State {
    match s.dispatcher
    case DispatcherIdle =>
      if s.frameQueue == [] then s
      else s.(frameQueue := s.frameQueue[1..], dispatcher := DispatcherHolds(s.frameQueue[0]))
    case DispatcherHolds(f) =>
      if f.params == [] || s.backends.None? || !encodes then
        var reason := if f.params == [] then FrameEmpty else if s.backends.None? then BackendsPoisoned else EncodingFailed;
        s.(dispatcher := DispatcherIdle, log := s.log.(skipped := s.log.skipped + [Skip(f.no, reason)]))
      else s.(dispatcher := DispatcherSent(f.no),
              log := s.log.(dispatched := s.log.dispatched
                                          + [Dispatch(f, BundleOf(f.params, s.clockNs), s.backends.value)]))
    case DispatcherSent(no) => s.(dispatcher := DispatcherTimed(no, ClockUs(s)))
    case DispatcherTimed(no, now) =>
      var start := s.snapshotTimestampUs;
      if start > 0 && now >= start then
        s.(dispatcher := DispatcherIdle,
           log := s.log.(samples := s.log.samples + [Sample(no, now, start, Latest(s, no))]))
      else s.(dispatcher := DispatcherIdle)
  }

  function Performed(d: DatabaseSide, op: Database.Operation): DatabaseSide {
    d.(store := Database.Apply(d.store, op), history := d.history + [op])
  }

  /** Database tasks: a spawned insertion, the snapshot writer, the retention task, and a wipe request. */
  function AdvanceDatabase(d: DatabaseSide, nowUs: U64, l: Label): DatabaseSide {
    match l
    case InsertEventTask(k, ok) =>
      if k < |d.insertTasks| then
        Performed(d.(insertTasks := d.insertTasks[..k] + d.insertTasks[k + 1..]), Database.InsertEvent(d.insertTasks[k], ok))
      else d
    case InsertSnapshotTask(ok) =>
      if d.snapshotQueue != [] then
        Performed(d.(snapshotQueue := d.snapshotQueue[1..]), Database.InsertSnapshot(d.snapshotQueue[0], ok))
      else d
    case PurgeTask(retention, okEvents, okSnapshots) => Performed(d, Database.Purge(nowUs, retention, okEvents, okSnapshots))
    case WipeTask(okEvents, okSnapshots) => Performed(d, Database.Wipe(okEvents, okSnapshots))
    case _ => d
  }

  predicate OfDatabase(l: Label) {
    l.InsertEventTask? || l.InsertSnapshotTask? || l.PurgeTask? || l.WipeTask?
  }

  function Next(math: MathLibrary, s: State, l: Label): State {
    match l
    case SetClock(ns) =>
      s.(clockNs := ns, log := s.log.(clockMonotone := s.log.clockMonotone && s.clockNs <= ns))
    case Offer(i, e) => OfferEvent(s, i, e)
    case ProbeStep(i) => AdvanceProbe(s, i)
    case ConsumerStep => AdvanceConsumer(s)
    case AggregatorReceive => ReceiveEvent(s)
    case AggregatorTick => AdvanceTick(s)
    case MapperStep => AdvanceMapper(math, s)
    case DispatcherStep(encodes) => AdvanceDispatcher(s, encodes)
    case SetRules(rules) => s.(rules := rules)
    case SetBackends(backends) => s.(backends := backends)
    case _ =>
      if s.database.None? then s
      else s.(database := Some(AdvanceDatabase(s.database.value, s.clockNs / 1000, l)))
  }

  type Schedule = seq<Label>

  function Stepper(math: MathLibrary): Step<State, Label> {
    (s: State, l: Label) => Next(math, s, l)
  }

  function Run(math: MathLibrary, s: State, schedule: Schedule): State {
    Execute(Stepper(math), s, schedule)
  }

  // ---------- Which task touches what ----------

  lemma ProbesTouch(s: State, i: nat)
    ensures var s' := AdvanceProbe(s, i);
      s' == s.(probes := s'.probes, cumulativeLost := s'.cumulativeLost)
  {
  }

  lemma MapperTouches(math: MathLibrary, s: State)
    ensures var s' := AdvanceMapper(math, s);
      s' == s.(mapper := s'.mapper, snapshotQueue := s'.snapshotQueue, frameQueue := s'.frameQueue,
               log := s.log.(skipped := s'.log.skipped))
  {
  }

  lemma DispatcherTouches(s: State, encodes: bool)
    ensures var s' := AdvanceDispatcher(s, encodes);
      s' == s.(dispatcher := s'.dispatcher, frameQueue := s'.frameQueue,
               log := s.log.(dispatched := s'.log.dispatched, samples := s'.log.samples, skipped := s'.log.skipped))
  {
  }

  lemma ConsumerTouches(s: State)
    ensures var s' := AdvanceConsumer(s);
      s' == s.(rawQueue := s'.rawQueue, consumer := s'.consumer, aggQueue := s'.aggQueue, database := s'.database,
               log := s.log.(verdicts := s'.log.verdicts))
  {
  }

  lemma OffersTouch(s: State, i: nat, e: RawEvent)
    ensures var s' := OfferEvent(s, i, e);
      s' == s.(rawQueue := s'.rawQueue, probes := s'.probes,
               log := s.log.(accepted := s'.log.accepted, refused := s'.log.refused))
  {
  }

  /** All of them at once, for the lemmas below. */
  lemma TaskTouches(math: MathLibrary, s: State, l: Label)
    ensures var s' := Next(math, s, l);
      match l
      case Offer(_, _) => s' == s.(rawQueue := s'.rawQueue, probes := s'.probes,
                                   log := s.log.(accepted := s'.log.accepted, refused := s'.log.refused))
      case ProbeStep(_) => s' == s.(probes := s'.probes, cumulativeLost := s'.cumulativeLost)
      case ConsumerStep =>
        s' == s.(rawQueue := s'.rawQueue, consumer := s'.consumer, aggQueue := s'.aggQueue, database := s'.database,
                 log := s.log.(verdicts := s'.log.verdicts))
      case AggregatorReceive => s' == s.(aggQueue := s'.aggQueue, window := s'.window)
      case AggregatorTick => true
      case MapperStep =>
        s' == s.(mapper := s'.mapper, snapshotQueue := s'.snapshotQueue, frameQueue := s'.frameQueue,
                 log := s.log.(skipped := s'.log.skipped))
      case DispatcherStep(_) =>
        s' == s.(dispatcher := s'.dispatcher, frameQueue := s'.frameQueue,
                 log := s.log.(dispatched := s'.log.dispatched, samples := s'.log.samples, skipped := s'.log.skipped))
      case SetClock(_) => s' == s.(clockNs := s'.clockNs, log := s.log.(clockMonotone := s'.log.clockMonotone))
      case SetRules(_) => s' == s.(rules := s'.rules)
      case SetBackends(_) => s' == s.(backends := s'.backends)
      case _ => s' == s.(database := s'.database)
  {
    match l
    case Offer(i, e) => OffersTouch(s, i, e);
    case ProbeStep(i) => ProbesTouch(s, i);
    case ConsumerStep => ConsumerTouches(s);
    case MapperStep => MapperTouches(math, s);
    case DispatcherStep(encodes) => DispatcherTouches(s, encodes);
    case _ =>
  }

  lemma OnlyAggregatorTouchesWindow(math: MathLibrary, s: State, l: Label)
    requires !l.AggregatorTick? && !l.AggregatorReceive?
    ensures var s' := Next(math, s, l);
      && s'.tick == s.tick && s'.window == s.window && s'.filter == s.filter && s'.windowMs == s.windowMs
      && s'.log.windows == s.log.windows && s'.log.built == s.log.built
      && s'.snapshotTimestampUs == s.snapshotTimestampUs
  {
    TaskTouches(math, s, l);
  }

  lemma OnlyEventTasksTouchEvents(math: MathLibrary, s: State, l: Label)
    requires !l.Offer? && !l.ConsumerStep? && !l.AggregatorReceive? && !l.AggregatorTick?
    ensures var s' := Next(math, s, l);
      && s'.rawQueue == s.rawQueue && s'.consumer == s.consumer && s'.aggQueue == s.aggQueue && s'.window == s.window
      && s'.log.accepted == s.log.accepted && s'.log.verdicts == s.log.verdicts && s'.log.windows == s.log.windows
  {
    TaskTouches(math, s, l);
  }

  lemma OnlyProbesAndTickTouchLosses(math: MathLibrary, s: State, l: Label)
    requires !l.Offer? && !l.ProbeStep? && !l.AggregatorTick?
    ensures var s' := Next(math, s, l);
      && s'.probes == s.probes && s'.cumulativeLost == s.cumulativeLost && s'.tick == s.tick
      && s'.log.refused == s.log.refused && s'.log.accepted == s.log.accepted && s'.log.built == s.log.built
  {
    TaskTouches(math, s, l);
  }

  lemma OnlyOutputTasksTouchOutput(math: MathLibrary, s: State, l: Label)
    requires !l.AggregatorTick? && !l.MapperStep? && !l.DispatcherStep?
    ensures var s' := Next(math, s, l);
      && s'.snapshotQueue == s.snapshotQueue && s'.mapper == s.mapper && s'.frameQueue == s.frameQueue
      && s'.dispatcher == s.dispatcher && s'.snapshotTimestampUs == s.snapshotTimestampUs && s'.tick == s.tick
      && s'.log.dispatched == s.log.dispatched && s'.log.samples == s.log.samples && s'.log.built == s.log.built
      && s'.log.skipped == s.log.skipped
  {
    TaskTouches(math, s, l);
  }
}

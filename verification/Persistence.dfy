/** What reaches the store in a run: every event the consumer takes and every snapshot the tap accepts is handed to the
    store exactly once, and the store is what the operations performed on it make of the file it found. */
module Persistence {
  import opened Prelude
  import opened Machines
  import opened Events
  import opened Metrics
  import opened Aggregation
  import opened Mapping
  import opened Pipeline
  import opened Conservation
  import opened Delivery
  import Database

  // ---------- Events ----------

  /** The events the consumer has taken from the raw queue. */
  function Taken(s: State): seq<RawEvent>
    requires |s.log.verdicts| + |Held(s.consumer)| <= |s.log.accepted|
  {
    s.log.accepted[..|s.log.verdicts| + |Held(s.consumer)|]
  }

  /** The events whose insertion has been attempted, successfully or not. */
  function EventsAttempted(h: Database.History): seq<RawEvent> {
    if h == [] then []
    else
      var n := |h| - 1;
      EventsAttempted(h[..n]) + if h[n].InsertEvent? then [h[n].event] else []
  }

  ghost predicate EventsHandedOver(s: State) {
    && Conserved(s) && s.database.Some?
    && |s.log.verdicts| + |Held(s.consumer)| <= |s.log.accepted|
    && multiset(Taken(s))
      == multiset(s.database.value.insertTasks) + multiset(EventsAttempted(s.database.value.history))
  }

  lemma EventsAttemptedSnoc(h: Database.History, op: Database.Operation)
    ensures EventsAttempted(h + [op]) == EventsAttempted(h) + if op.InsertEvent? then [op.event] else []
  {
    assert (h + [op])[..|h|] == h;
  }

  lemma ConsumerHandsOver(s: State)
    requires EventsHandedOver(s)
    ensures EventsHandedOver(AdvanceConsumer(s))
  {
    var s', n := AdvanceConsumer(s), |s.log.verdicts|;
    ConsumerConserves(s);
    if s.consumer.Some? {
      assert Taken(s') == Taken(s);
    } else if s.rawQueue != [] {
      var e := s.rawQueue[0];
      assert s.log.accepted[n..][0] == e;
      assert Taken(s') == Taken(s) + [e];
      MultisetSnoc(Taken(s), e);
      MultisetSnoc(s.database.value.insertTasks, e);
      MovedIn(multiset(s.database.value.insertTasks), multiset(EventsAttempted(s.database.value.history)), e);
    } else {
      assert s' == s;
    }
  }

  lemma MovedIn<T>(a: multiset<T>, b: multiset<T>, x: T)
    ensures (a + multiset{x}) + b == (a + b) + multiset{x}
    ensures a + (b + multiset{x}) == (a + b) + multiset{x}
  {
  }

  lemma TaskRemoved<T>(tasks: seq<T>, k: nat)
    requires k < |tasks|
    ensures multiset(tasks) == multiset(tasks[..k] + tasks[k + 1..]) + multiset{tasks[k]}
  {
    assert tasks == tasks[..k] + [tasks[k]] + tasks[k + 1..];
  }

  lemma OfferHandsOver(s: State, i: nat, e: RawEvent)
    requires EventsHandedOver(s)
    ensures EventsHandedOver(OfferEvent(s, i, e))
  {
    OfferConserves(s, i, e);
    OffersTouch(s, i, e);
    assert Taken(OfferEvent(s, i, e)) == Taken(s);
  }

  /** One database task: an insertion moves from the pending to the attempted ones; the others leave both alone. */
  lemma DatabaseHandsOver(d: DatabaseSide, nowUs: U64, l: Label)
    requires OfDatabase(l)
    ensures var d' := AdvanceDatabase(d, nowUs, l);
      multiset(d'.insertTasks) + multiset(EventsAttempted(d'.history))
      == multiset(d.insertTasks) + multiset(EventsAttempted(d.history))
  {
    var d' := AdvanceDatabase(d, nowUs, l);
    if d'.history != d.history {
      EventsAttemptedSnoc(d.history, d'.history[|d.history|]);
      if l.InsertEventTask? {
        TaskRemoved(d.insertTasks, l.task);
        MultisetSnoc(EventsAttempted(d.history), d.insertTasks[l.task]);
        MovedIn(multiset(d'.insertTasks), multiset(EventsAttempted(d.history)), d.insertTasks[l.task]);
      }
    }
  }

  /** What a step must leave alone not to concern events and their insertions. */
  predicate SameHandover(s: State, s': State) {
    && s'.log.accepted == s.log.accepted && s'.log.verdicts == s.log.verdicts && s'.consumer == s.consumer
    && s.database.Some? && s'.database.Some?
    && s'.database.value.insertTasks == s.database.value.insertTasks
    && s'.database.value.history == s.database.value.history
  }

  lemma SameHandoverKeeps(s: State, s': State)
    requires EventsHandedOver(s) && Conserved(s') && SameHandover(s, s')
    ensures EventsHandedOver(s')
  {
    assert Taken(s') == Taken(s);
  }

  lemma TickKeepsHandover(s: State)
    requires s.database.Some?
    ensures SameHandover(s, AdvanceTick(s))
  {
  }

  lemma OthersKeepHandover(math: MathLibrary, s: State, l: Label)
    requires s.database.Some?
    requires !l.Offer? && !l.ConsumerStep? && !l.AggregatorTick? && !OfDatabase(l)
    ensures SameHandover(s, Next(math, s, l))
  {
    TaskTouches(math, s, l);
  }

  lemma DatabaseTaskHandsOver(math: MathLibrary, s: State, l: Label)
    requires EventsHandedOver(s) && Conserved(Next(math, s, l)) && OfDatabase(l)
    ensures EventsHandedOver(Next(math, s, l))
  {
    var d := AdvanceDatabase(s.database.value, s.clockNs / 1000, l);
    assert Next(math, s, l) == s.(database := Some(d));
    assert Taken(s.(database := Some(d))) == Taken(s);
    DatabaseHandsOver(s.database.value, s.clockNs / 1000, l);
  }

  lemma StepHandsOver(math: MathLibrary, s: State, l: Label)
    requires EventsHandedOver(s)
    ensures EventsHandedOver(Next(math, s, l))
  {
    StepConserves(math, s, l);
    match l
    case Offer(i, e) => OfferHandsOver(s, i, e);
    case ConsumerStep => ConsumerHandsOver(s);
    case AggregatorTick =>
      TickKeepsHandover(s);
      SameHandoverKeeps(s, AdvanceTick(s));
    case _ =>
      if OfDatabase(l) {
        DatabaseTaskHandsOver(math, s, l);
      } else {
        OthersKeepHandover(math, s, l);
        SameHandoverKeeps(s, Next(math, s, l));
      }
  }

  /** In every run with a store, each event the consumer has taken is, exactly once, a pending insertion or an attempted
      one, whatever happened to it on the way to the aggregator. */
  lemma EventsHandedOverOnce(math: MathLibrary, start: State, schedule: Schedule)
    requires Started(start) && start.database.Some?
    ensures EventsHandedOver(Run(math, start, schedule))
  {
    forall s, l | EventsHandedOver(s) ensures EventsHandedOver(Stepper(math)(s, l)) {
      StepHandsOver(math, s, l);
    }
    InvariantOfRuns(Stepper(math), (s: State) => EventsHandedOver(s), start, schedule);
  }

  // ---------- Snapshots ----------

  function SnapshotsAttempted(h: Database.History): seq<StateSnapshot> {
    if h == [] then []
    else
      var n := |h| - 1;
      SnapshotsAttempted(h[..n]) + if h[n].InsertSnapshot? then [h[n].snapshot] else []
  }

  /** A snapshot is built when its window is closed and tapped when that window is cleared. */
  ghost predicate BuiltAndTapped(s: State) {
    && |s.log.built| == |s.log.windows| + (if s.tick.Forwarded? then 1 else 0)
    && (s.tick.Forwarded? ==> s.tick.snapshot == s.log.built[|s.log.built| - 1])
  }

  /** The snapshots the tap has accepted are the attempted and the queued ones, in order. */
  ghost predicate SnapshotsHandedOver(s: State) {
    && BuiltAndTapped(s) && s.database.Some?
    && |s.database.value.taps| == |s.log.windows|
    && Chosen(s.log.built, s.database.value.taps, true)
      == SnapshotsAttempted(s.database.value.history) + s.database.value.snapshotQueue
  }

  lemma SnapshotsAttemptedSnoc(h: Database.History, op: Database.Operation)
    ensures SnapshotsAttempted(h + [op]) == SnapshotsAttempted(h) + if op.InsertSnapshot? then [op.snapshot] else []
  {
    assert (h + [op])[..|h|] == h;
  }

  lemma TickHandsOver(s: State)
    requires SnapshotsHandedOver(s)
    ensures SnapshotsHandedOver(AdvanceTick(s))
  {
    var s' := AdvanceTick(s);
    var d := s.database.value;
    match s.tick
    case Swapped(_, _) => ChosenOfPrefix(s.log.built, [s'.log.built[|s.log.built|]], d.taps, true);
    case Forwarded(snapshot) =>
      var queued := |d.snapshotQueue| < DB_SNAPSHOT_CAPACITY;
      assert s'.log.built == s.log.built;
      ChosenSnoc(s.log.built, d.taps, queued, true);
      AppendedOrNot(SnapshotsAttempted(d.history), d.snapshotQueue, snapshot, queued);
    case _ =>
  }

  lemma AppendedOrNot<T>(front: seq<T>, queue: seq<T>, x: T, queued: bool)
    ensures front + queue + (if queued then [x] else []) == front + if queued then queue + [x] else queue
  {
  }

  lemma DatabaseTakesSnapshot(d: DatabaseSide, nowUs: U64, l: Label)
    requires OfDatabase(l)
    ensures var d' := AdvanceDatabase(d, nowUs, l);
      && d'.taps == d.taps
      && SnapshotsAttempted(d'.history) + d'.snapshotQueue == SnapshotsAttempted(d.history) + d.snapshotQueue
  {
    var d' := AdvanceDatabase(d, nowUs, l);
    if d'.history != d.history {
      SnapshotsAttemptedSnoc(d.history, d'.history[|d.history|]);
      if l.InsertSnapshotTask? {
        assert d.snapshotQueue == [d.snapshotQueue[0]] + d.snapshotQueue[1..];
      }
    }
  }

  lemma StepTaps(math: MathLibrary, s: State, l: Label)
    requires SnapshotsHandedOver(s)
    ensures SnapshotsHandedOver(Next(math, s, l))
  {
    TaskTouches(math, s, l);
    match l
    case AggregatorTick => TickHandsOver(s);
    case ConsumerStep =>
    case _ =>
      if OfDatabase(l) {
        DatabaseTakesSnapshot(s.database.value, s.clockNs / 1000, l);
      }
  }

  /** In every run with a store, the snapshots built and tapped are, in order: those whose insertion has been attempted,
      those in the writer's queue, and in between the ones a full queue has dropped. */
  lemma SnapshotsHandedOverInOrder(math: MathLibrary, start: State, schedule: Schedule)
    requires Started(start) && start.database.Some?
    ensures SnapshotsHandedOver(Run(math, start, schedule))
  {
    forall s, l | SnapshotsHandedOver(s) ensures SnapshotsHandedOver(Stepper(math)(s, l)) {
      StepTaps(math, s, l);
    }
    InvariantOfRuns(Stepper(math), (s: State) => SnapshotsHandedOver(s), start, schedule);
  }

  /** A tick about to tap snapshot no finds 512 snapshots in the writer's queue. */
  predicate TapFullAt(s: State, l: Label, no: nat) {
    && l.AggregatorTick? && s.tick.Forwarded? && s.database.Some?
    && |s.log.windows| == no && |s.database.value.snapshotQueue| >= 512
  }

  predicate Refused(s: State, no: nat) {
    s.database.Some? && no < |s.database.value.taps| && !s.database.value.taps[no]
  }

  lemma StepRefuses(math: MathLibrary, s: State, l: Label, no: nat)
    requires SnapshotsHandedOver(s)
    ensures Refused(Next(math, s, l), no) <==> Refused(s, no) || TapFullAt(s, l, no)
  {
    if OfDatabase(l) {
      var d := AdvanceDatabase(s.database.value, s.clockNs / 1000, l);
      assert Next(math, s, l).database == Some(d);
      DatabaseTakesSnapshot(s.database.value, s.clockNs / 1000, l);
    } else if !l.AggregatorTick? {
      TaskTouches(math, s, l);
      assert Next(math, s, l).database.Some? && Next(math, s, l).database.value.taps == s.database.value.taps;
    }
  }

  /** In every run with a store, snapshot no is refused by the tap exactly if the writer's queue was full when it was offered. */
  lemma RefusedExactly(math: MathLibrary, start: State, schedule: Schedule, no: nat)
    requires Started(start) && start.database.Some?
    ensures Refused(Run(math, start, schedule), no)
      <==> Happens(Stepper(math), start, schedule, (s: State, l: Label) => TapFullAt(s, l, no))
  {
    forall s, l | SnapshotsHandedOver(s)
      ensures SnapshotsHandedOver(Stepper(math)(s, l))
      ensures Refused(Stepper(math)(s, l), no) <==> Refused(s, no) || TapFullAt(s, l, no)
    {
      StepTaps(math, s, l);
      StepRefuses(math, s, l, no);
    }
    CausedByEvent(Stepper(math), (s: State) => SnapshotsHandedOver(s), start, schedule,
                  (s: State) => Refused(s, no), (s: State, l: Label) => TapFullAt(s, l, no));
  }

  /** What each database task does when its turn comes: the operation it performs, and what it takes from its queue. */
  lemma TasksPerform(d: DatabaseSide, nowUs: U64, l: Label)
    requires OfDatabase(l)
    ensures var d' := AdvanceDatabase(d, nowUs, l);
      match l
      case InsertEventTask(k, ok) =>
        && d'.history == d.history + (if k < |d.insertTasks| then [Database.InsertEvent(d.insertTasks[k], ok)] else [])
        && |d'.insertTasks| == |d.insertTasks| - if k < |d.insertTasks| then 1 else 0
      case InsertSnapshotTask(ok) =>
        && d'.history == d.history + (if |d.snapshotQueue| > 0 then [Database.InsertSnapshot(d.snapshotQueue[0], ok)] else [])
        && |d'.snapshotQueue| == |d.snapshotQueue| - if |d.snapshotQueue| > 0 then 1 else 0
      case PurgeTask(retention, okEvents, okSnapshots) =>
        d'.history == d.history + [Database.Purge(nowUs, retention, okEvents, okSnapshots)]
      case WipeTask(okEvents, okSnapshots) => d'.history == d.history + [Database.Wipe(okEvents, okSnapshots)]
  {
  }

  // ---------- The store ----------

  ghost predicate StoreFollows(file: Database.Store, s: State) {
    && s.database.Some?
    && s.database.value.store == Database.StoreAfter(file, s.database.value.history)
  }

  lemma PerformedFollows(file: Database.Store, d: DatabaseSide, op: Database.Operation)
    requires d.store == Database.StoreAfter(file, d.history)
    ensures Performed(d, op).store == Database.StoreAfter(file, Performed(d, op).history)
  {
    assert (d.history + [op])[..|d.history|] == d.history;
  }

  lemma DatabaseFollows(file: Database.Store, d: DatabaseSide, nowUs: U64, l: Label)
    requires d.store == Database.StoreAfter(file, d.history) && OfDatabase(l)
    ensures var d' := AdvanceDatabase(d, nowUs, l); d'.store == Database.StoreAfter(file, d'.history)
  {
    var d' := AdvanceDatabase(d, nowUs, l);
    if d'.history != d.history {
      PerformedFollows(file, d, d'.history[|d.history|]);
    }
  }

  lemma StepFollowsStore(math: MathLibrary, file: Database.Store, s: State, l: Label)
    requires StoreFollows(file, s)
    ensures StoreFollows(file, Next(math, s, l))
  {
    if OfDatabase(l) {
      var d := AdvanceDatabase(s.database.value, s.clockNs / 1000, l);
      assert Next(math, s, l).database == Some(d);
      DatabaseFollows(file, s.database.value, s.clockNs / 1000, l);
    } else {
      OthersLeaveStore(math, s, l);
    }
  }

  lemma OthersLeaveStore(math: MathLibrary, s: State, l: Label)
    requires !OfDatabase(l) && s.database.Some?
    ensures var s' := Next(math, s, l);
      && s'.database.Some? && s'.database.value.store == s.database.value.store
      && s'.database.value.history == s.database.value.history
  {
    TaskTouches(math, s, l);
  }

  /** In every run the tables hold the rows of the file found at the start that no purge or wipe carried out has erased,
      and then those of the attempted insertions that found a connection, succeeded and have not been erased since. */
  lemma StoreOfRun(math: MathLibrary, start: State, schedule: Schedule)
    requires Started(start) && start.database.Some?
    ensures Run(math, start, schedule).database.Some?
    ensures var file := start.database.value.store; var d := Run(math, start, schedule).database.value;
      && d.store.open == Database.Enabled(file.open, d.history, |d.history|)
      && d.store.events == Database.TableAfter(Database.EVENTS, file.open, d.history, file.events)
      && d.store.snapshots == Database.TableAfter(Database.SNAPSHOTS, file.open, d.history, file.snapshots)
  {
    var file := start.database.value.store;
    forall s, l | StoreFollows(file, s) ensures StoreFollows(file, Stepper(math)(s, l)) {
      StepFollowsStore(math, file, s, l);
    }
    InvariantOfRuns(Stepper(math), (s: State) => StoreFollows(file, s), start, schedule);
    Database.StoreIsFilterOfHistory(file, Run(math, start, schedule).database.value.history);
  }
}

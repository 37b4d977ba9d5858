/** No event is duplicated or reordered on its way into the windows, and every loss is accounted for or known. */
module Conservation {
  import opened Prelude
  import opened Machines
  import opened Events
  import opened Metrics
  import opened Window
  import opened Aggregation
  import opened Mapping
  import opened Pipeline

  // ---------- Events ----------

  /** The elements of xs whose verdict is wanted, in order. */
  function Chosen<T>(xs: seq<T>, verdicts: seq<bool>, wanted: bool): seq<T>
    requires |verdicts| <= |xs|
  {
    if verdicts == [] then []
    else
      var n := |verdicts| - 1;
      Chosen(xs, verdicts[..n], wanted) + if verdicts[n] == wanted then [xs[n]] else []
  }

  lemma {:induction false} ChosenOfPrefix<T>(xs: seq<T>, more: seq<T>, verdicts: seq<bool>, wanted: bool)
    requires |verdicts| <= |xs|
    ensures Chosen(xs + more, verdicts, wanted) == Chosen(xs, verdicts, wanted)
  {
    if verdicts == [] {
    } else {
      ChosenOfPrefix(xs, more, verdicts[..|verdicts| - 1], wanted);
    }
  }

  lemma ChosenSnoc<T>(xs: seq<T>, verdicts: seq<bool>, verdict: bool, wanted: bool)
    requires |verdicts| < |xs|
    ensures Chosen(xs, verdicts + [verdict], wanted)
         == Chosen(xs, verdicts, wanted) + if verdict == wanted then [xs[|verdicts|]] else []
  {
    assert (verdicts + [verdict])[..|verdicts|] == verdicts;
  }

  lemma MultisetSnoc<T>(xs: seq<T>, x: T)
    ensures multiset(xs + [x]) == multiset(xs) + multiset{x}
  {
  }

  /** Two parts of a whole, in either order. */
  ghost predicate Parts<T>(whole: multiset<T>, a: multiset<T>, b: multiset<T>) {
    whole == a + b && whole == b + a
  }

  lemma PartGrows<T>(whole: seq<T>, part: seq<T>, other: seq<T>, x: T)
    requires Parts(multiset(whole), multiset(part), multiset(other))
    ensures Parts(multiset(whole + [x]), multiset(part + [x]), multiset(other))
  {
    MultisetSnoc(whole, x);
    MultisetSnoc(part, x);
  }

  /** The newest element joins the chosen ones of its own verdict and leaves the others alone. */
  lemma ChosenUnfold<T>(xs: seq<T>, verdicts: seq<bool>)
    requires 0 < |verdicts| <= |xs|
    ensures var n := |verdicts| - 1; var v := verdicts[n];
      && Chosen(xs, verdicts, v) == Chosen(xs, verdicts[..n], v) + [xs[n]]
      && Chosen(xs, verdicts, !v) == Chosen(xs, verdicts[..n], !v)
  {
  }

  lemma {:induction false} ChosenPartition<T>(xs: seq<T>, verdicts: seq<bool>, v: bool)
    requires |verdicts| <= |xs|
    ensures Parts(multiset(xs[..|verdicts|]), multiset(Chosen(xs, verdicts, v)), multiset(Chosen(xs, verdicts, !v)))
  {
    if verdicts == [] {
    } else {
      var n := |verdicts| - 1;
      var last := verdicts[n];
      ChosenPartition(xs, verdicts[..n], last);
      ChosenUnfold(xs, verdicts);
      assert xs[..n + 1] == xs[..n] + [xs[n]];
      PartGrows(xs[..n], Chosen(xs, verdicts[..n], last), Chosen(xs, verdicts[..n], !last), xs[n]);
      assert v == last || v == !last;
    }
  }

  function Held(consumer: Option<RawEvent>): seq<RawEvent> {
    match consumer
    case None => []
    case Some(e) => [e]
  }

  /** Events the consumer found no room for. No counter records them. */
  function DroppedAtConsumer(s: State): seq<RawEvent>
    requires |s.log.verdicts| <= |s.log.accepted|
  {
    Chosen(s.log.accepted, s.log.verdicts, false)
  }

  /** Where the accepted events are, oldest first: in closed windows, in the current one, in the aggregator's queue, in
      the consumer's hands, in the raw queue. Only those dropped at the consumer are missing. */
  ghost predicate Conserved(s: State) {
    && |s.log.verdicts| <= |s.log.accepted|
    && s.log.accepted[|s.log.verdicts|..] == Held(s.consumer) + s.rawQueue
    && Chosen(s.log.accepted, s.log.verdicts, true) == Flatten(s.log.windows) + s.window + s.aggQueue
  }

  lemma OfferConserves(s: State, i: nat, e: RawEvent)
    requires Conserved(s)
    ensures Conserved(OfferEvent(s, i, e))
  {
    ChosenOfPrefix(s.log.accepted, [e], s.log.verdicts, true);
    var n := |s.log.verdicts|;
    assert (s.log.accepted + [e])[n..] == s.log.accepted[n..] + [e];
  }

  /** A verdict on the event in the consumer's hands moves it to the queue or among the dropped ones. */
  lemma VerdictMoves(accepted: seq<RawEvent>, verdicts: seq<bool>, e: RawEvent, rest: seq<RawEvent>,
                     front: seq<RawEvent>, queue: seq<RawEvent>, forwarded: bool)
    requires |verdicts| < |accepted| && accepted[|verdicts|..] == [e] + rest
    requires Chosen(accepted, verdicts, true) == front + queue
    ensures accepted[|verdicts| + 1..] == rest
    ensures Chosen(accepted, verdicts + [forwarded], true) == front + (queue + if forwarded then [e] else [])
  {
    ChosenSnoc(accepted, verdicts, forwarded, true);
    assert accepted[|verdicts|] == accepted[|verdicts|..][0];
    assert accepted[|verdicts| + 1..] == accepted[|verdicts|..][1..];
  }

  lemma ConsumerConserves(s: State)
    requires Conserved(s)
    ensures Conserved(AdvanceConsumer(s))
  {
    var s' := AdvanceConsumer(s);
    assert s'.log.accepted == s.log.accepted && s'.log.windows == s.log.windows && s'.window == s.window;
    if s.consumer.Some? {
      var forwarded := |s.aggQueue| < AGG_CAPACITY;
      assert |s.log.accepted[|s.log.verdicts|..]| > 0;
      VerdictMoves(s.log.accepted, s.log.verdicts, s.consumer.value, s.rawQueue,
                   Flatten(s.log.windows) + s.window, s.aggQueue, forwarded);
      assert s'.aggQueue == s.aggQueue + if forwarded then [s.consumer.value] else [];
    } else if s.rawQueue != [] {
      assert s.rawQueue == [s.rawQueue[0]] + s.rawQueue[1..];
    }
  }

  lemma ReceiveConserves(s: State)
    requires Conserved(s)
    ensures Conserved(ReceiveEvent(s))
  {
    if s.tick.Collecting? && s.aggQueue != [] {
      assert s.aggQueue == [s.aggQueue[0]] + s.aggQueue[1..];
    }
  }

  lemma WindowClosed(windows: Windows, window: seq<RawEvent>, queue: seq<RawEvent>)
    ensures Flatten(windows + [window]) + [] + queue == Flatten(windows) + window + queue
  {
    FlattenSnoc(windows, window);
  }

  lemma TickConserves(s: State)
    requires Conserved(s)
    ensures Conserved(AdvanceTick(s))
  {
    var s' := AdvanceTick(s);
    assert s'.log.accepted == s.log.accepted && s'.log.verdicts == s.log.verdicts;
    assert s'.consumer == s.consumer && s'.rawQueue == s.rawQueue && s'.aggQueue == s.aggQueue;
    if s.tick.Forwarded? {
      assert s'.log.windows == s.log.windows + [s.window] && s'.window == [];
      WindowClosed(s.log.windows, s.window, s.aggQueue);
    } else {
      assert s'.log.windows == s.log.windows && s'.window == s.window;
    }
  }

  lemma StepConserves(math: MathLibrary, s: State, l: Label)
    requires Conserved(s)
    ensures Conserved(Next(math, s, l))
  {
    match l
    case Offer(i, e) => OfferConserves(s, i, e);
    case ConsumerStep => ConsumerConserves(s);
    case AggregatorReceive => ReceiveConserves(s);
    case AggregatorTick => TickConserves(s);
    case _ => OnlyEventTasksTouchEvents(math, s, l);
  }

  /** The start of every run: a daemon with some number of probes, a window length, rules, backends and perhaps a database. */
  ghost predicate Started(s: State) {
    exists probes: nat, windowMs: nat, rules, backends, shared, store ::
      s == Initial(probes, windowMs, rules, backends, shared, store)
  }

  /** First in, first out, exactly once: after any run, the accepted events minus those dropped at the consumer are the
      windows, the current window and the queues, in order. */
  lemma EventsConserved(math: MathLibrary, start: State, schedule: Schedule)
    requires Started(start)
    ensures Conserved(Run(math, start, schedule))
  {
    forall s, l | Conserved(s) ensures Conserved(Stepper(math)(s, l)) {
      StepConserves(math, s, l);
    }
    InvariantOfRuns(Stepper(math), (s: State) => Conserved(s), start, schedule);
  }

  /** As multisets: accepted = aggregated + waiting + dropped at the consumer. */
  lemma AcceptedExactlyOnce(math: MathLibrary, start: State, schedule: Schedule)
    requires Started(start)
    ensures var s := Run(math, start, schedule);
      && |s.log.verdicts| <= |s.log.accepted|
      && multiset(s.log.accepted)
        == multiset(Flatten(s.log.windows)) + multiset(s.window) + multiset(s.aggQueue)
         + multiset(Held(s.consumer)) + multiset(s.rawQueue) + multiset(DroppedAtConsumer(s))
  {
    var s := Run(math, start, schedule);
    EventsConserved(math, start, schedule);
    var n := |s.log.verdicts|;
    ChosenPartition(s.log.accepted, s.log.verdicts, true);
    assert s.log.accepted == s.log.accepted[..n] + s.log.accepted[n..];
  }

  /** What the raw metric k counts of one event; the percentile counts nothing. */
  function CountOf(k: Metric): RawEvent -> nat {
    match k
    case ContextRate => Switches
    case ReclaimPressure => Pages
    case NetTx => BytesTx
    case NetRx => BytesRx
    case ExecRate => Execs
    case LatencyP95 => (e: RawEvent) => 0
  }

  function Total(xs: seq<real>): real {
    if xs == [] then 0.0 else Total(xs[..|xs| - 1]) + xs[|xs| - 1]
  }

  lemma {:induction false} TotalOfMapped<T>(xs: seq<T>, value: T -> real, weight: T -> nat)
    requires forall x :: x in xs ==> value(x) == weight(x) as real
    ensures Total(Mapped(xs, value)) == Sum(xs, weight) as real
  {
    if xs == [] {
    } else {
      var n := |xs| - 1;
      TotalOfMapped(xs[..n], value, weight);
      assert Mapped(xs, value)[..n] == Mapped(xs[..n], value);
    }
  }

  /** The raw values of a metric over a run of windows add up to the count over all their events. */
  lemma SeriesAddsUp(windows: Windows, k: Metric)
    requires k != LatencyP95
    ensures Total(Series(windows, k)) == Sum(Flatten(windows), CountOf(k)) as real
  {
    var weight: seq<RawEvent> -> nat := (w: seq<RawEvent>) => Sum(w, CountOf(k));
    forall w | w in windows ensures RawValue(k)(w) == weight(w) as real {
    }
    TotalOfMapped(windows, RawValue(k), weight);
    SumFlatten(windows, CountOf(k));
    SumSameWeights(windows, weight, part => Sum(part, CountOf(k)));
  }

  lemma {:induction false} SumSameWeights<T>(xs: seq<T>, v: T -> nat, w: T -> nat)
    requires forall x :: v(x) == w(x)
    ensures Sum(xs, v) == Sum(xs, w)
  {
    if xs == [] {
    } else {
      SumSameWeights(xs[..|xs| - 1], v, w);
    }
  }

  lemma SumOfThree<T>(a: seq<T>, b: seq<T>, c: seq<T>, weight: T -> nat)
    ensures Sum(a + b + c, weight) == Sum(a, weight) + Sum(b, weight) + Sum(c, weight)
  {
    SumConcat(a + b, c, weight);
    SumConcat(a, b, weight);
  }

  lemma {:induction false} SumOfChosen<T>(xs: seq<T>, verdicts: seq<bool>, v: bool, weight: T -> nat)
    requires |verdicts| <= |xs|
    ensures Sum(xs[..|verdicts|], weight)
         == Sum(Chosen(xs, verdicts, v), weight) + Sum(Chosen(xs, verdicts, !v), weight)
  {
    if verdicts == [] {
    } else {
      var n := |verdicts| - 1;
      var last := verdicts[n];
      SumOfChosen(xs, verdicts[..n], last, weight);
      ChosenUnfold(xs, verdicts);
      SumSnoc(Chosen(xs, verdicts[..n], last), xs[n], weight);
      SumSnoc(xs[..n], xs[n], weight);
      assert xs[..n + 1] == xs[..n] + [xs[n]];
    }
  }

  lemma AcceptedAddsUp(s: State, weight: RawEvent -> nat)
    requires Conserved(s)
    ensures Sum(s.log.accepted, weight)
         == Sum(Flatten(s.log.windows), weight) + Sum(s.window, weight) + Sum(s.aggQueue, weight)
          + Sum(DroppedAtConsumer(s), weight) + Sum(Held(s.consumer), weight) + Sum(s.rawQueue, weight)
  {
    var n := |s.log.verdicts|;
    var handled, rest := s.log.accepted[..n], s.log.accepted[n..];
    assert s.log.accepted == handled + rest;
    SumOfChosen(s.log.accepted, s.log.verdicts, true, weight);
    SumOfThree(Flatten(s.log.windows), s.window, s.aggQueue, weight);
    SumConcat(Held(s.consumer), s.rawQueue, weight);
    SumConcat(handled, rest, weight);
  }

  /** In every run, for context switches, pages, bytes sent, bytes received and executions: the raw metrics of the closed
      windows add up to the count over all accepted events, less what is still waiting or was dropped at the consumer. */
  lemma WindowTotalsAddUp(math: MathLibrary, start: State, schedule: Schedule, k: Metric)
    requires Started(start) && k != LatencyP95
    ensures var s := Run(math, start, schedule); var count := CountOf(k);
      && |s.log.verdicts| <= |s.log.accepted|
      && Total(Series(s.log.windows, k))
        == (Sum(s.log.accepted, count) - Sum(s.window, count) - Sum(s.aggQueue, count) - Sum(Held(s.consumer), count)
            - Sum(s.rawQueue, count) - Sum(DroppedAtConsumer(s), count)) as real
  {
    var s := Run(math, start, schedule);
    EventsConserved(math, start, schedule);
    SeriesAddsUp(s.log.windows, k);
    AcceptedAddsUp(s, CountOf(k));
  }

  // ---------- When the consumer drops ----------

  /** The guard of the branch that drops: the consumer holds an event and the aggregator's queue is full. */
  predicate DropsAt(s: State, l: Label) {
    l.ConsumerStep? && s.consumer.Some? && |s.aggQueue| >= AGG_CAPACITY
  }

  /** How often a run takes that branch. */
  function Drops(math: MathLibrary, start: State, schedule: Schedule): nat {
    if schedule == [] then 0
    else
      var n := |schedule| - 1;
      Drops(math, start, schedule[..n]) + if DropsAt(Run(math, start, schedule[..n]), schedule[n]) then 1 else 0
  }

  lemma ConsumerDrops(s: State)
    requires Conserved(s) && Conserved(AdvanceConsumer(s))
    ensures |DroppedAtConsumer(AdvanceConsumer(s))| == |DroppedAtConsumer(s)| + if DropsAt(s, ConsumerStep) then 1 else 0
  {
    ConsumerTouches(s);
    if s.consumer.Some? {
      assert |s.log.accepted[|s.log.verdicts|..]| > 0;
      ChosenSnoc(s.log.accepted, s.log.verdicts, |s.aggQueue| < AGG_CAPACITY, false);
    }
  }

  lemma TickLeavesVerdicts(s: State)
    ensures AdvanceTick(s).log.accepted == s.log.accepted && AdvanceTick(s).log.verdicts == s.log.verdicts
  {
  }

  lemma StepDrops(math: MathLibrary, s: State, l: Label)
    requires Conserved(s)
    ensures var s' := Next(math, s, l);
      && |s'.log.verdicts| <= |s'.log.accepted|
      && |DroppedAtConsumer(s')| == |DroppedAtConsumer(s)| + if DropsAt(s, l) then 1 else 0
  {
    StepConserves(math, s, l);
    match l
    case Offer(i, e) =>
      OffersTouch(s, i, e);
      ChosenOfPrefix(s.log.accepted, [e], s.log.verdicts, false);
    case ConsumerStep => ConsumerDrops(s);
    case AggregatorTick => TickLeavesVerdicts(s);
    case _ => TaskTouches(math, s, l);
  }

  /** Each time, and at no other, one event is lost. */
  lemma {:induction false} DropsCounted(math: MathLibrary, start: State, schedule: Schedule)
    requires Started(start)
    ensures Conserved(Run(math, start, schedule))
    ensures |DroppedAtConsumer(Run(math, start, schedule))| == Drops(math, start, schedule)
  {
    EventsConserved(math, start, schedule);
    if schedule == [] {
    } else {
      var n := |schedule| - 1;
      DropsCounted(math, start, schedule[..n]);
      StepDrops(math, Run(math, start, schedule[..n]), schedule[n]);
    }
  }

  /** No step of the run finds the aggregator's queue full with an event in the consumer's hands. */
  ghost predicate NeverDrops(math: MathLibrary, start: State, schedule: Schedule) {
    forall k: nat :: k < |schedule| ==> !DropsAt(Run(math, start, schedule[..k]), schedule[k])
  }

  lemma NeverDropsSnoc(math: MathLibrary, start: State, schedule: Schedule)
    requires schedule != []
    ensures var n := |schedule| - 1;
      NeverDrops(math, start, schedule)
      <==> NeverDrops(math, start, schedule[..n]) && !DropsAt(Run(math, start, schedule[..n]), schedule[n])
  {
    var n := |schedule| - 1;
    var before := schedule[..n];
    forall k: nat | k < n
      ensures DropsAt(Run(math, start, before[..k]), before[k]) == DropsAt(Run(math, start, schedule[..k]), schedule[k])
    {
      assert before[..k] == schedule[..k];
    }
    forall k: nat | k < |schedule| ensures k == n || (k < n && schedule[k] == before[k]) {}
  }

  lemma {:induction false} NoDrops(math: MathLibrary, start: State, schedule: Schedule)
    ensures Drops(math, start, schedule) == 0 <==> NeverDrops(math, start, schedule)
  {
    if schedule == [] {
    } else {
      NoDrops(math, start, schedule[..|schedule| - 1]);
      NeverDropsSnoc(math, start, schedule);
    }
  }

  /** The consumer drops nothing exactly if no step of the run finds the aggregator's queue full. */
  lemma NothingDroppedExactly(math: MathLibrary, start: State, schedule: Schedule)
    requires Started(start)
    ensures var s := Run(math, start, schedule);
      |s.log.verdicts| <= |s.log.accepted| && (DroppedAtConsumer(s) == [] <==> NeverDrops(math, start, schedule))
  {
    DropsCounted(math, start, schedule);
    NoDrops(math, start, schedule);
  }

  /** Events the consumer has handled and the aggregator has not received. */
  function Backlog(s: State): int {
    |s.log.verdicts| - |Flatten(s.log.windows)| - |s.window|
  }

  ghost predicate QueueWithinCapacity(s: State) {
    |s.aggQueue| <= AGG_CAPACITY
  }

  lemma BacklogIsQueuedOrDropped(math: MathLibrary, start: State, schedule: Schedule)
    requires Started(start)
    ensures Backlog(Run(math, start, schedule)) == |Run(math, start, schedule).aggQueue| + Drops(math, start, schedule)
    ensures QueueWithinCapacity(Run(math, start, schedule))
  {
    var s := Run(math, start, schedule);
    DropsCounted(math, start, schedule);
    ChosenPartition(s.log.accepted, s.log.verdicts, true);
    var all, kept, dropped :=
      s.log.accepted[..|s.log.verdicts|], Chosen(s.log.accepted, s.log.verdicts, true), DroppedAtConsumer(s);
    assert |multiset(all)| == |all| && |multiset(kept)| == |kept| && |multiset(dropped)| == |dropped|;
    forall s, l | QueueWithinCapacity(s) ensures QueueWithinCapacity(Stepper(math)(s, l)) {
      StepKeepsCapacity(math, s, l);
    }
    InvariantOfRuns(Stepper(math), (s: State) => QueueWithinCapacity(s), start, schedule);
  }

  lemma StepKeepsCapacity(math: MathLibrary, s: State, l: Label)
    requires QueueWithinCapacity(s)
    ensures QueueWithinCapacity(Next(math, s, l))
  {
    match l
    case Offer(_, _) =>
    case ConsumerStep =>
    case AggregatorReceive =>
    case AggregatorTick =>
    case _ => OnlyEventTasksTouchEvents(math, s, l);
  }

  lemma DropsOfOneMore(math: MathLibrary, start: State, schedule: Schedule)
    requires schedule != []
    ensures Drops(math, start, schedule[..|schedule| - 1]) <= Drops(math, start, schedule)
  {
  }

  lemma {:induction false} DropsGrow(math: MathLibrary, start: State, schedule: Schedule, k: nat)
    requires k <= |schedule|
    ensures Drops(math, start, schedule[..k]) <= Drops(math, start, schedule)
  {
    if k == |schedule| {
      assert schedule[..k] == schedule;
    } else {
      var before := schedule[..|schedule| - 1];
      assert before[..k] == schedule[..k];
      DropsGrow(math, start, before, k);
      DropsOfOneMore(math, start, schedule);
    }
  }

  lemma DropShows(math: MathLibrary, start: State, schedule: Schedule, k: nat)
    requires Started(start) && k < |schedule| && DropsAt(Run(math, start, schedule[..k]), schedule[k])
    ensures Backlog(Run(math, start, schedule[..k + 1])) > AGG_CAPACITY
  {
    var before, after := schedule[..k], schedule[..k + 1];
    assert after[..k] == before && after[k] == schedule[k];
    BacklogIsQueuedOrDropped(math, start, after);
    var s := Run(math, start, before);
    assert Run(math, start, after) == AdvanceConsumer(s);
    assert Drops(math, start, after) > 0;
    assert AdvanceConsumer(s).aggQueue == s.aggQueue;
  }

  ghost predicate NeverFarBehind(math: MathLibrary, start: State, schedule: Schedule) {
    forall k: nat :: k <= |schedule| ==> Backlog(Run(math, start, schedule[..k])) <= AGG_CAPACITY
  }

  /** In counts: nothing is dropped exactly if at every moment of the run the aggregator is at most 2048 events behind. */
  lemma NothingDroppedWithinBacklog(math: MathLibrary, start: State, schedule: Schedule)
    requires Started(start)
    ensures var s := Run(math, start, schedule);
      |s.log.verdicts| <= |s.log.accepted| && (DroppedAtConsumer(s) == [] <==> NeverFarBehind(math, start, schedule))
  {
    NothingDroppedExactly(math, start, schedule);
    NoDrops(math, start, schedule);
    if NeverDrops(math, start, schedule) {
      forall k: nat | k <= |schedule| ensures Backlog(Run(math, start, schedule[..k])) <= AGG_CAPACITY {
        BacklogIsQueuedOrDropped(math, start, schedule[..k]);
        DropsGrow(math, start, schedule, k);
      }
    } else {
      var k: nat :| k < |schedule| && DropsAt(Run(math, start, schedule[..k]), schedule[k]);
      DropShows(math, start, schedule, k);
    }
  }

  // ---------- Bounded queues ----------

  ghost predicate Bounded(s: State) {
    && |s.rawQueue| <= RAW_CAPACITY && |s.aggQueue| <= AGG_CAPACITY
    && |s.snapshotQueue| <= SNAPSHOT_CAPACITY && |s.frameQueue| <= FRAME_CAPACITY
    && (s.database.Some? ==> |s.database.value.snapshotQueue| <= DB_SNAPSHOT_CAPACITY)
  }

  lemma TickBounded(s: State)
    requires Bounded(s)
    ensures Bounded(AdvanceTick(s))
  {
  }

  lemma MapperBounded(math: MathLibrary, s: State)
    requires Bounded(s)
    ensures Bounded(AdvanceMapper(math, s))
  {
  }

  lemma ConsumerBounded(s: State)
    requires Bounded(s)
    ensures Bounded(AdvanceConsumer(s))
  {
  }

  lemma DatabaseBounded(d: DatabaseSide, nowUs: U64, l: Label)
    requires |d.snapshotQueue| <= DB_SNAPSHOT_CAPACITY
    ensures |AdvanceDatabase(d, nowUs, l).snapshotQueue| <= DB_SNAPSHOT_CAPACITY
  {
  }

  lemma StepBounded(math: MathLibrary, s: State, l: Label)
    requires Bounded(s)
    ensures Bounded(Next(math, s, l))
  {
    TaskTouches(math, s, l);
    match l
    case AggregatorTick => TickBounded(s);
    case MapperStep => MapperBounded(math, s);
    case ConsumerStep => ConsumerBounded(s);
    case Offer(_, _) =>
    case _ =>
      if s.database.Some? {
        DatabaseBounded(s.database.value, s.clockNs / 1000, l);
      }
  }

  /** No queue ever exceeds the capacity its channel was created with. */
  lemma QueuesBounded(math: MathLibrary, start: State, schedule: Schedule)
    requires Started(start)
    ensures Bounded(Run(math, start, schedule))
  {
    forall s, l | Bounded(s) ensures Bounded(Stepper(math)(s, l)) {
      StepBounded(math, s, l);
    }
    InvariantOfRuns(Stepper(math), (s: State) => Bounded(s), start, schedule);
  }

  // ---------- Losses ----------

  function ProbeLost(): Probe -> nat {
    (p: Probe) => p.eventsLost
  }

  function ProbeTotal(): Probe -> nat {
    (p: Probe) => p.eventsTotal
  }

  /** Probes that have not yet counted the event they sent. */
  function Uncounted(): Probe -> nat {
    (p: Probe) => if p.phase.Sent? then 1 else 0
  }

  /** Probes that have not yet counted the event they were refused. */
  function Unrecorded(): Probe -> nat {
    (p: Probe) => if p.phase.Refused? then 1 else 0
  }

  /** Probes between their two loss counters. */
  function Between(): Probe -> nat {
    (p: Probe) => if p.phase.HalfCounted? then 1 else 0
  }

  function SnapshotLost(): StateSnapshot -> nat {
    (s: StateSnapshot) => s.lostEvents
  }

  /** A loss count the aggregator has swapped out but not yet put into a snapshot. */
  function InHand(tick: TickPhase): nat {
    if tick.Swapped? then tick.lost else 0
  }

  ghost predicate LossesAccounted(s: State) {
    && Sum(s.probes, ProbeLost())
      == s.cumulativeLost + Sum(s.log.built, SnapshotLost()) + InHand(s.tick) + Sum(s.probes, Between())
    && Sum(s.probes, ProbeLost()) + Sum(s.probes, Unrecorded()) == s.log.refused
    && Sum(s.probes, ProbeTotal()) + Sum(s.probes, Uncounted()) == |s.log.accepted|
  }

  lemma ProbeSumsUpdated(probes: seq<Probe>, i: nat, p: Probe)
    requires i < |probes|
    ensures Sum(probes[i := p], ProbeLost()) == Sum(probes, ProbeLost()) - probes[i].eventsLost + p.eventsLost
    ensures Sum(probes[i := p], ProbeTotal()) == Sum(probes, ProbeTotal()) - probes[i].eventsTotal + p.eventsTotal
    ensures Sum(probes[i := p], Uncounted()) == Sum(probes, Uncounted()) - Uncounted()(probes[i]) + Uncounted()(p)
    ensures Sum(probes[i := p], Unrecorded()) == Sum(probes, Unrecorded()) - Unrecorded()(probes[i]) + Unrecorded()(p)
    ensures Sum(probes[i := p], Between()) == Sum(probes, Between()) - Between()(probes[i]) + Between()(p)
  {
    SumUpdated(probes, i, p, ProbeLost());
    SumUpdated(probes, i, p, ProbeTotal());
    SumUpdated(probes, i, p, Uncounted());
    SumUpdated(probes, i, p, Unrecorded());
    SumUpdated(probes, i, p, Between());
  }

  lemma OfferAccounts(s: State, i: nat, e: RawEvent)
    requires LossesAccounted(s)
    ensures LossesAccounted(OfferEvent(s, i, e))
  {
    if i < |s.probes| && s.probes[i].phase == Ready {
      ProbeSumsUpdated(s.probes, i, OfferEvent(s, i, e).probes[i]);
    }
  }

  /** Replacing one probe keeps the accounts if its own counters and phase balance the shared counter. */
  lemma ProbeBalances(s: State, i: nat, p: Probe, lost: nat)
    requires LossesAccounted(s) && i < |s.probes|
    requires p.eventsLost + s.cumulativeLost + Between()(s.probes[i]) == s.probes[i].eventsLost + lost + Between()(p)
    requires p.eventsLost + Unrecorded()(p) == s.probes[i].eventsLost + Unrecorded()(s.probes[i])
    requires p.eventsTotal + Uncounted()(p) == s.probes[i].eventsTotal + Uncounted()(s.probes[i])
    ensures LossesAccounted(s.(probes := s.probes[i := p], cumulativeLost := lost))
  {
    ProbeSumsUpdated(s.probes, i, p);
  }

  lemma ProbeAccounts(s: State, i: nat)
    requires LossesAccounted(s)
    ensures LossesAccounted(AdvanceProbe(s, i))
  {
    if i < |s.probes| && !s.probes[i].phase.Ready? {
      var s' := AdvanceProbe(s, i);
      ProbeBalances(s, i, s'.probes[i], s'.cumulativeLost);
      assert s' == s.(probes := s.probes[i := s'.probes[i]], cumulativeLost := s'.cumulativeLost);
    }
  }

  lemma TickAccounts(s: State)
    requires LossesAccounted(s)
    ensures LossesAccounted(AdvanceTick(s))
  {
    if s.tick.Swapped? {
      SumSnoc(s.log.built, SnapshotOf(Close(s.filter, s.window), s.tick.nowUs, s.windowMs, s.tick.lost), SnapshotLost());
    }
  }

  lemma StepAccounts(math: MathLibrary, s: State, l: Label)
    requires LossesAccounted(s)
    ensures LossesAccounted(Next(math, s, l))
  {
    match l
    case Offer(i, e) => OfferAccounts(s, i, e);
    case ProbeStep(i) => ProbeAccounts(s, i);
    case AggregatorTick => TickAccounts(s);
    case _ => OnlyProbesAndTickTouchLosses(math, s, l);
  }

  lemma {:induction false} SumOfNothing<T>(xs: seq<T>, weight: T -> nat)
    requires forall x :: x in xs ==> weight(x) == 0
    ensures Sum(xs, weight) == 0
  {
    if xs == [] {
    } else {
      SumOfNothing(xs[..|xs| - 1], weight);
    }
  }

  /** Under every interleaving the losses counted per probe are the shared counter, plus the losses reported in snapshots
      built so far, plus a count the aggregator holds between swap and snapshot, plus the probes between their counters. */
  lemma LossAccounting(math: MathLibrary, start: State, schedule: Schedule)
    requires Started(start)
    ensures LossesAccounted(Run(math, start, schedule))
  {
    SumOfNothing(start.probes, ProbeLost());
    SumOfNothing(start.probes, ProbeTotal());
    SumOfNothing(start.probes, Uncounted());
    SumOfNothing(start.probes, Unrecorded());
    SumOfNothing(start.probes, Between());
    assert LossesAccounted(start);
    forall s, l | LossesAccounted(s) ensures LossesAccounted(Stepper(math)(s, l)) {
      StepAccounts(math, s, l);
    }
    InvariantOfRuns(Stepper(math), (s: State) => LossesAccounted(s), start, schedule);
  }

  /** No task is in the middle of its bookkeeping and every queue of events is empty. */
  predicate AtRest(s: State) {
    && s.rawQueue == [] && s.aggQueue == [] && s.window == [] && s.consumer.None? && s.tick.Collecting?
    && forall p :: p in s.probes ==> p.phase.Ready?
  }

  /** At rest the accounts close: every offered event is in a window, counted as lost in a snapshot or still in the shared
      counter, or was dropped at the consumer. So the counters tell the whole loss exactly if no step of the run found the
      aggregator's queue full. */
  lemma AccountsCloseAtRest(math: MathLibrary, start: State, schedule: Schedule)
    requires Started(start) && AtRest(Run(math, start, schedule))
    ensures var s := Run(math, start, schedule);
      && Sum(s.probes, ProbeLost()) == Sum(s.log.built, SnapshotLost()) + s.cumulativeLost
      && Sum(s.probes, ProbeTotal()) == |Flatten(s.log.windows)| + Drops(math, start, schedule)
      && (|s.log.accepted| + s.log.refused == |Flatten(s.log.windows)| + Sum(s.probes, ProbeLost())
          <==> NeverDrops(math, start, schedule))
  {
    var s := Run(math, start, schedule);
    AcceptedExactlyOnce(math, start, schedule);
    LossAccounting(math, start, schedule);
    DropsCounted(math, start, schedule);
    NoDrops(math, start, schedule);
    SumOfNothing(s.probes, Uncounted());
    SumOfNothing(s.probes, Unrecorded());
    SumOfNothing(s.probes, Between());
    assert |multiset(s.log.accepted)| == |s.log.accepted|;
    assert |multiset(Flatten(s.log.windows))| == |Flatten(s.log.windows)|;
    assert |multiset(DroppedAtConsumer(s))| == |DroppedAtConsumer(s)|;
  }
}

/** From windows to packets: what every snapshot, frame and packet of a run contains, and in which order they appear. */
module Delivery {
  import opened Prelude
  import opened Machines
  import opened Events
  import opened Metrics
  import opened Aggregation
  import opened Rounding
  import opened Mapping
  import opened Osc
  import opened Pipeline
  import opened Conservation

  // ---------- Snapshots ----------

  /** The windows that have been turned into snapshots, the one not yet cleared included. */
  function Aggregated(s: State): Windows {
    s.log.windows + if s.tick.Forwarded? then [s.window] else []
  }

  /** Snapshot number no is the one window number no calls for, given everything before it. */
  ghost predicate BuiltFrom(windows: Windows, windowMs: nat, built: seq<StateSnapshot>, no: nat)
    requires no < |built| && no < |windows|
  {
    built[no] == SnapshotOf(FilterAfter(windows[..no + 1]), built[no].timestampUs, windowMs, built[no].lostEvents)
  }

  ghost predicate SnapshotsFollowWindows(s: State) {
    && |s.log.built| == |Aggregated(s)|
    && s.filter == FilterAfter(Aggregated(s))
    && forall no: nat :: no < |s.log.built| ==> BuiltFrom(Aggregated(s), s.windowMs, s.log.built, no)
  }

  lemma FilterAfterSnoc(windows: Windows, window: seq<RawEvent>)
    ensures FilterAfter(windows + [window]) == Close(FilterAfter(windows), window)
  {
    assert (windows + [window])[..|windows|] == windows;
  }

  lemma EarlierStayBuilt(windows: Windows, window: seq<RawEvent>, windowMs: nat, built: seq<StateSnapshot>,
                         snapshot: StateSnapshot, no: nat)
    requires no < |built| && no < |windows| && BuiltFrom(windows, windowMs, built, no)
    ensures BuiltFrom(windows + [window], windowMs, built + [snapshot], no)
  {
    assert (windows + [window])[..no + 1] == windows[..no + 1];
    assert (built + [snapshot])[no] == built[no];
  }

  lemma NewestIsBuilt(windows: Windows, window: seq<RawEvent>, windowMs: nat, built: seq<StateSnapshot>,
                      filter: Filter, now: nat, lost: nat)
    requires |built| == |windows| && filter == FilterAfter(windows + [window])
    ensures BuiltFrom(windows + [window], windowMs, built + [SnapshotOf(filter, now, windowMs, lost)], |built|)
  {
    assert (windows + [window])[..|built| + 1] == windows + [window];
  }

  lemma BuildFollows(windows: Windows, windowMs: nat, built: seq<StateSnapshot>, filter: Filter,
                     window: seq<RawEvent>, now: nat, lost: nat)
    requires |built| == |windows| && filter == FilterAfter(windows)
    requires forall no: nat :: no < |built| ==> BuiltFrom(windows, windowMs, built, no)
    ensures var built' := built + [SnapshotOf(Close(filter, window), now, windowMs, lost)];
      && Close(filter, window) == FilterAfter(windows + [window])
      && forall no: nat :: no < |built'| ==> BuiltFrom(windows + [window], windowMs, built', no)
  {
    FilterAfterSnoc(windows, window);
    var snapshot := SnapshotOf(Close(filter, window), now, windowMs, lost);
    forall no: nat | no < |built| + 1 ensures BuiltFrom(windows + [window], windowMs, built + [snapshot], no) {
      if no < |built| {
        EarlierStayBuilt(windows, window, windowMs, built, snapshot, no);
      } else {
        NewestIsBuilt(windows, window, windowMs, built, Close(filter, window), now, lost);
      }
    }
  }

  lemma TickFollows(s: State)
    requires SnapshotsFollowWindows(s)
    ensures SnapshotsFollowWindows(AdvanceTick(s))
  {
    match s.tick
    case Swapped(now, lost) =>
      assert Aggregated(s) == s.log.windows;
      BuildFollows(s.log.windows, s.windowMs, s.log.built, s.filter, s.window, now, lost);
    case Forwarded(_) => assert Aggregated(AdvanceTick(s)) == Aggregated(s);
    case _ => assert Aggregated(AdvanceTick(s)) == Aggregated(s);
  }

  lemma StepFollows(math: MathLibrary, s: State, l: Label)
    requires SnapshotsFollowWindows(s)
    ensures SnapshotsFollowWindows(Next(math, s, l))
  {
    if l.AggregatorTick? {
      TickFollows(s);
    } else if l.AggregatorReceive? {
      assert Aggregated(ReceiveEvent(s)) == Aggregated(s);
    } else {
      OnlyAggregatorTouchesWindow(math, s, l);
      assert Aggregated(Next(math, s, l)) == Aggregated(s);
    }
  }

  /** In every run one snapshot is built per window, and its metrics and stale flag are those of the windows so far. */
  lemma SnapshotsOfRun(math: MathLibrary, start: State, schedule: Schedule)
    requires Started(start)
    ensures SnapshotsFollowWindows(Run(math, start, schedule))
  {
    forall s, l | SnapshotsFollowWindows(s) ensures SnapshotsFollowWindows(Stepper(math)(s, l)) {
      StepFollows(math, s, l);
    }
    InvariantOfRuns(Stepper(math), (s: State) => SnapshotsFollowWindows(s), start, schedule);
  }

  lemma WindowLengthStays(math: MathLibrary, start: State, schedule: Schedule)
    ensures Run(math, start, schedule).windowMs == start.windowMs
  {
    var inv := (s: State) => s.windowMs == start.windowMs;
    forall s, l | inv(s) ensures inv(Stepper(math)(s, l)) {
      if l.AggregatorReceive? || l.AggregatorTick? {
        assert AdvanceTick(s).windowMs == s.windowMs;
      } else {
        OnlyAggregatorTouchesWindow(math, s, l);
      }
    }
    InvariantOfRuns(Stepper(math), inv, start, schedule);
  }

  /** What every snapshot of every run says: the window length, whether the last five windows were empty, and for each
      metric the normalised, smoothed value of the windows up to its own. */
  lemma SnapshotContents(math: MathLibrary, start: State, schedule: Schedule, no: nat)
    requires Started(start) && no < |Run(math, start, schedule).log.built|
    ensures var s := Run(math, start, schedule);
      && no < |Aggregated(s)|
      && s.log.built[no].windowMs == start.windowMs
      && (s.log.built[no].stale <==> no >= 4 && forall i :: no - 4 <= i <= no ==> Aggregated(s)[i] == [])
      && (forall k: Metric :: s.log.built[no].metrics.At(k) == NormalizedMetric(Aggregated(s)[..no + 1], k))
  {
    var s := Run(math, start, schedule);
    SnapshotsOfRun(math, start, schedule);
    WindowLengthStays(math, start, schedule);
    assert BuiltFrom(Aggregated(s), s.windowMs, s.log.built, no);
    var windows := Aggregated(s)[..no + 1];
    StaleAfterFiveEmptyWindows(windows, s.log.built[no].timestampUs, s.windowMs, s.log.built[no].lostEvents);
    assert forall i | 0 <= i <= no :: windows[i] == Aggregated(s)[i];
    forall k: Metric ensures s.log.built[no].metrics.At(k) == NormalizedMetric(windows, k) {
      assert Normalize(FilterAfter(windows).emas).At(k) == NormalizedMetric(windows, k);
    }
  }

  // ---------- Order ----------

  ghost predicate Increasing(xs: seq<nat>) {
    forall i, j :: 0 <= i < j < |xs| ==> xs[i] < xs[j]
  }

  function FrameNumbers(frames: seq<Frame>): seq<nat> {
    seq(|frames|, i requires 0 <= i < |frames| => frames[i].no)
  }

  function DispatchNumbers(dispatched: seq<Dispatch>): seq<nat> {
    seq(|dispatched|, i requires 0 <= i < |dispatched| => dispatched[i].frame.no)
  }

  function SnapshotNumbers(queue: seq<Tagged>): seq<nat> {
    seq(|queue|, i requires 0 <= i < |queue| => queue[i].no)
  }

  function DispatcherNumbers(d: DispatcherPhase): seq<nat> {
    if d.DispatcherHolds? then [d.frame.no] else []
  }

  function MapperNumbers(m: MapperPhase): seq<nat> {
    match m
    case MapperIdle => []
    case MapperHolds(t) => [t.no]
    case MapperReady(f) => [f.no]
  }

  /** The numbers of all snapshots on their way out, the furthest first. */
  function OnTheWay(s: State): seq<nat> {
    DispatchNumbers(s.log.dispatched) + DispatcherNumbers(s.dispatcher) + FrameNumbers(s.frameQueue)
    + MapperNumbers(s.mapper) + SnapshotNumbers(s.snapshotQueue)
  }

  ghost predicate OrderedBelow(numbers: seq<nat>, bound: nat) {
    Increasing(numbers) && forall i :: 0 <= i < |numbers| ==> numbers[i] < bound
  }

  ghost predicate InOrder(s: State) {
    OrderedBelow(OnTheWay(s), |s.log.built|)
  }

  lemma OrderedWithoutOne(front: seq<nat>, x: nat, back: seq<nat>, bound: nat)
    requires OrderedBelow(front + [x] + back, bound)
    ensures OrderedBelow(front + back, bound)
  {
    var all, rest := front + [x] + back, front + back;
    forall i | 0 <= i < |rest| ensures rest[i] == all[if i < |front| then i else i + 1] {}
  }

  /** The numbers behind the dispatcher. */
  function Behind(s: State): seq<nat> {
    FrameNumbers(s.frameQueue) + MapperNumbers(s.mapper) + SnapshotNumbers(s.snapshotQueue)
  }

  lemma OnTheWaySplit(s: State)
    ensures OnTheWay(s) == DispatchNumbers(s.log.dispatched) + DispatcherNumbers(s.dispatcher) + Behind(s)
  {
  }

  /** The ways one step can move the numbers: not at all; by skipping one of them for a reason; by building a snapshot
      that is queued; or by building one that is skipped. */
  datatype Move = Stay | Drop(front: seq<nat>, no: nat, back: seq<nat>, reason: Reason) | Queue | Refuse(reason: Reason)

  ghost predicate Moves(s: State, s': State, m: Move) {
    match m
    case Stay =>
      OnTheWay(s') == OnTheWay(s) && s'.log.skipped == s.log.skipped && |s'.log.built| == |s.log.built|
    case Drop(front, no, back, reason) =>
      && OnTheWay(s) == front + [no] + back && OnTheWay(s') == front + back
      && s'.log.skipped == s.log.skipped + [Skip(no, reason)] && |s'.log.built| == |s.log.built|
    case Queue =>
      && OnTheWay(s') == OnTheWay(s) + [|s.log.built|]
      && s'.log.skipped == s.log.skipped && |s'.log.built| == |s.log.built| + 1
    case Refuse(reason) =>
      && OnTheWay(s') == OnTheWay(s)
      && s'.log.skipped == s.log.skipped + [Skip(|s.log.built|, reason)] && |s'.log.built| == |s.log.built| + 1
  }

  lemma MapperMoves(math: MathLibrary, s: State) returns (m: Move)
    ensures Moves(s, AdvanceMapper(math, s), m)
  {
    var s' := AdvanceMapper(math, s);
    MapperTouches(math, s);
    var front := DispatchNumbers(s.log.dispatched) + DispatcherNumbers(s.dispatcher) + FrameNumbers(s.frameQueue);
    var back := SnapshotNumbers(s.snapshotQueue);
    m := Stay;
    match s.mapper
    case MapperIdle =>
      if s.snapshotQueue != [] {
        assert back == [s.snapshotQueue[0].no] + SnapshotNumbers(s.snapshotQueue[1..]);
        assert OnTheWay(s') == OnTheWay(s);
      }
    case MapperHolds(t) =>
      if s.rules.None? {
        m := Drop(front, t.no, back, RulesPoisoned);
        assert OnTheWay(s') == front + back;
      }
    case MapperReady(f) =>
      if |s.frameQueue| < FRAME_CAPACITY {
        assert FrameNumbers(s.frameQueue + [f]) == FrameNumbers(s.frameQueue) + [f.no];
        assert OnTheWay(s') == OnTheWay(s);
      } else {
        m := Drop(front, f.no, back, FrameQueueFull);
        assert OnTheWay(s') == front + back;
      }
  }

  lemma DispatcherTakes(s: State, encodes: bool)
    requires s.dispatcher.DispatcherIdle?
    ensures Moves(s, AdvanceDispatcher(s, encodes), Stay)
  {
    var s' := AdvanceDispatcher(s, encodes);
    if s.frameQueue != [] {
      OnTheWaySplit(s);
      OnTheWaySplit(s');
      assert FrameNumbers(s.frameQueue) == [s.frameQueue[0].no] + FrameNumbers(s.frameQueue[1..]);
      assert Behind(s) == [s.frameQueue[0].no] + Behind(s');
      assert OnTheWay(s') == OnTheWay(s);
    }
  }

  lemma DispatcherSends(s: State, encodes: bool) returns (m: Move)
    requires s.dispatcher.DispatcherHolds?
    ensures Moves(s, AdvanceDispatcher(s, encodes), m)
  {
    var s' := AdvanceDispatcher(s, encodes);
    var front, f := DispatchNumbers(s.log.dispatched), s.dispatcher.frame;
    OnTheWaySplit(s);
    OnTheWaySplit(s');
    if s'.dispatcher.DispatcherIdle? {
      m := Drop(front, f.no, Behind(s), s'.log.skipped[|s.log.skipped|].reason);
      assert OnTheWay(s') == front + Behind(s);
    } else {
      m := Stay;
      assert DispatchNumbers(s'.log.dispatched) == front + [f.no];
      assert OnTheWay(s') == OnTheWay(s);
    }
  }

  lemma DispatcherMoves(s: State, encodes: bool) returns (m: Move)
    ensures Moves(s, AdvanceDispatcher(s, encodes), m)
  {
    m := Stay;
    match s.dispatcher
    case DispatcherIdle => DispatcherTakes(s, encodes);
    case DispatcherHolds(_) => m := DispatcherSends(s, encodes);
    case _ => assert OnTheWay(AdvanceDispatcher(s, encodes)) == OnTheWay(s);
  }

  lemma NumberQueued(queue: seq<Tagged>, t: Tagged)
    ensures SnapshotNumbers(queue + [t]) == SnapshotNumbers(queue) + [t.no]
  {
  }

  lemma BuildMoves(s: State) returns (m: Move)
    requires s.tick.Swapped?
    ensures Moves(s, AdvanceTick(s), m)
  {
    var s', n := AdvanceTick(s), |s.log.built|;
    TickLeavesOutput(s);
    OnTheWaySplit(s);
    OnTheWaySplit(s');
    if |s.snapshotQueue| < SNAPSHOT_CAPACITY {
      m := Queue;
      NumberQueued(s.snapshotQueue, s'.snapshotQueue[|s.snapshotQueue|]);
      assert Behind(s') == Behind(s) + [n];
    } else {
      m := Refuse(SnapshotQueueFull);
      assert Behind(s') == Behind(s);
    }
  }

  lemma TickMoves(s: State) returns (m: Move)
    ensures Moves(s, AdvanceTick(s), m)
  {
    if s.tick.Swapped? {
      m := BuildMoves(s);
    } else {
      m := Stay;
      TickLeavesOutput(s);
      assert AdvanceTick(s).snapshotQueue == s.snapshotQueue && AdvanceTick(s).log.built == s.log.built;
    }
  }

  lemma StepMoves(math: MathLibrary, s: State, l: Label) returns (m: Move)
    ensures Moves(s, Next(math, s, l), m)
  {
    m := Stay;
    match l
    case AggregatorTick => m := TickMoves(s);
    case MapperStep => m := MapperMoves(math, s);
    case DispatcherStep(encodes) => m := DispatcherMoves(s, encodes);
    case _ => OnlyOutputTasksTouchOutput(math, s, l);
  }

  lemma OrderedSnoc(numbers: seq<nat>, bound: nat)
    requires OrderedBelow(numbers, bound)
    ensures OrderedBelow(numbers + [bound], bound + 1) && OrderedBelow(numbers, bound + 1)
  {
  }

  lemma StepKeepsOrder(math: MathLibrary, s: State, l: Label)
    requires InOrder(s)
    ensures InOrder(Next(math, s, l))
  {
    var m := StepMoves(math, s, l);
    match m
    case Stay =>
    case Drop(front, no, back, _) => OrderedWithoutOne(front, no, back, |s.log.built|);
    case _ => OrderedSnoc(OnTheWay(s), |s.log.built|);
  }

  /** Snapshots overtake each other nowhere and are dispatched at most once: packets leave in the order their snapshots
      were built, and nothing still on its way is older than anything already sent. */
  lemma PacketsInOrder(math: MathLibrary, start: State, schedule: Schedule)
    requires Started(start)
    ensures InOrder(Run(math, start, schedule))
  {
    forall s, l | InOrder(s) ensures InOrder(Stepper(math)(s, l)) {
      StepKeepsOrder(math, s, l);
    }
    InvariantOfRuns(Stepper(math), (s: State) => InOrder(s), start, schedule);
  }

  // ---------- Completeness ----------

  function SkipNumbers(skipped: seq<Skip>): seq<nat> {
    seq(|skipped|, i requires 0 <= i < |skipped| => skipped[i].no)
  }

  function Upto(n: nat): seq<nat> {
    seq(n, i requires 0 <= i < n => i)
  }

  /** Every number given to a snapshot is on its way, or was skipped for a reason, exactly once. */
  ghost predicate Complete(s: State) {
    multiset(OnTheWay(s)) + multiset(SkipNumbers(s.log.skipped)) == multiset(Upto(|s.log.built|))
  }

  lemma SkipSnoc(skipped: seq<Skip>, skip: Skip)
    ensures multiset(SkipNumbers(skipped + [skip])) == multiset(SkipNumbers(skipped)) + multiset{skip.no}
  {
    assert SkipNumbers(skipped + [skip]) == SkipNumbers(skipped) + [skip.no];
  }

  lemma UptoNext(n: nat)
    ensures multiset(Upto(n + 1)) == multiset(Upto(n)) + multiset{n}
  {
    assert Upto(n + 1) == Upto(n) + [n];
  }

  lemma WithoutOne(front: seq<nat>, x: nat, back: seq<nat>)
    ensures multiset(front + [x] + back) == multiset(front + back) + multiset{x}
  {
  }

  lemma MovedElement<T>(onTheWay: multiset<T>, skipped: multiset<T>, rest: multiset<T>, x: T)
    requires onTheWay == rest + multiset{x}
    ensures rest + (skipped + multiset{x}) == onTheWay + skipped
  {
  }

  lemma DropKeepsComplete(s: State, s': State, m: Move)
    requires Complete(s) && Moves(s, s', m) && m.Drop?
    ensures Complete(s')
  {
    WithoutOne(m.front, m.no, m.back);
    SkipSnoc(s.log.skipped, Skip(m.no, m.reason));
    MovedElement(multiset(OnTheWay(s)), multiset(SkipNumbers(s.log.skipped)), multiset(OnTheWay(s')), m.no);
  }

  lemma AddedElement<T>(onTheWay: multiset<T>, skipped: multiset<T>, all: multiset<T>, x: T)
    requires onTheWay + skipped == all
    ensures (onTheWay + multiset{x}) + skipped == all + multiset{x}
    ensures onTheWay + (skipped + multiset{x}) == all + multiset{x}
  {
  }

  lemma BuildKeepsComplete(s: State, s': State, m: Move)
    requires Complete(s) && Moves(s, s', m) && (m.Queue? || m.Refuse?)
    ensures Complete(s')
  {
    var n := |s.log.built|;
    var onTheWay: seq<nat>, skipped := OnTheWay(s), s.log.skipped;
    UptoNext(n);
    AddedElement(multiset(onTheWay), multiset(SkipNumbers(skipped)), multiset(Upto(n)), n);
    if m.Queue? {
      MultisetSnoc(onTheWay, n);
    } else {
      SkipSnoc(skipped, Skip(n, m.reason));
    }
  }

  lemma StepKeepsComplete(math: MathLibrary, s: State, l: Label)
    requires Complete(s)
    ensures Complete(Next(math, s, l))
  {
    var m := StepMoves(math, s, l);
    match m
    case Stay =>
    case Drop(_, _, _, _) => DropKeepsComplete(s, Next(math, s, l), m);
    case _ => BuildKeepsComplete(s, Next(math, s, l), m);
  }

  /** Increasing numbers below n, n of them, are all of them. */
  lemma {:induction false} AllInOrder(numbers: seq<nat>, n: nat)
    requires OrderedBelow(numbers, n) && |numbers| == n
    ensures numbers == Upto(n)
  {
    if n == 0 {
    } else {
      assert numbers[n - 1] < n;
      AllInOrder(numbers[..n - 1], n - 1);
      if n > 1 {
        assert numbers[..n - 1][n - 2] == Upto(n - 1)[n - 2];
      }
    }
  }

  /** In every run each snapshot built is dispatched, or on its way in one place, or was given up at one named place:
      nothing disappears, nothing appears twice. */
  lemma SnapshotsAccountedFor(math: MathLibrary, start: State, schedule: Schedule)
    requires Started(start)
    ensures Complete(Run(math, start, schedule))
  {
    forall s, l | Complete(s) ensures Complete(Stepper(math)(s, l)) {
      StepKeepsComplete(math, s, l);
    }
    InvariantOfRuns(Stepper(math), (s: State) => Complete(s), start, schedule);
  }

  // ---------- Content ----------

  type Snapshots = seq<StateSnapshot>

  ghost predicate GoodTag(built: Snapshots, t: Tagged) {
    t.no < |built| && t.snapshot == built[t.no]
  }

  /** A frame holds what some set of rules makes of the metrics of its snapshot. */
  ghost predicate GoodFrame(math: MathLibrary, built: Snapshots, f: Frame) {
    f.no < |built| && f.params == MapParams(math, f.rules, built[f.no].metrics)
  }

  ghost predicate GoodDispatch(math: MathLibrary, built: Snapshots, d: Dispatch) {
    && GoodFrame(math, built, d.frame)
    && d.bundle.content == Messages(d.frame.params) && d.bundle.content != []
  }

  ghost predicate MapperRight(math: MathLibrary, built: Snapshots, m: MapperPhase) {
    match m
    case MapperIdle => true
    case MapperHolds(t) => GoodTag(built, t)
    case MapperReady(f) => GoodFrame(math, built, f)
  }

  ghost predicate ContentsRight(math: MathLibrary, s: State) {
    && (forall t :: t in s.snapshotQueue ==> GoodTag(s.log.built, t))
    && MapperRight(math, s.log.built, s.mapper)
    && (forall f :: f in s.frameQueue ==> GoodFrame(math, s.log.built, f))
    && (s.dispatcher.DispatcherHolds? ==> GoodFrame(math, s.log.built, s.dispatcher.frame))
    && (forall d :: d in s.log.dispatched ==> GoodDispatch(math, s.log.built, d))
  }

  /** Building more snapshots changes nothing about the earlier ones. */
  lemma ContentsStayRight(math: MathLibrary, s: State, built: Snapshots)
    requires ContentsRight(math, s) && s.log.built <= built
    ensures ContentsRight(math, s.(log := s.log.(built := built)))
  {
    forall t | GoodTag(s.log.built, t) ensures GoodTag(built, t) {}
    forall f | GoodFrame(math, s.log.built, f) ensures GoodFrame(math, built, f) {}
    forall d | GoodDispatch(math, s.log.built, d) ensures GoodDispatch(math, built, d) {}
  }

  lemma TickKeepsContents(math: MathLibrary, s: State)
    requires ContentsRight(math, s)
    ensures ContentsRight(math, AdvanceTick(s))
  {
    var s' := AdvanceTick(s);
    assert s.log.built <= s'.log.built;
    TickLeavesOutput(s);
    ContentsStayRight(math, s, s'.log.built);
    forall t | t in s'.snapshotQueue ensures GoodTag(s'.log.built, t) {
      assert t in s.snapshotQueue || t == Tagged(|s.log.built|, s'.log.built[|s.log.built|]);
    }
  }

  lemma TickLeavesOutput(s: State)
    ensures var s' := AdvanceTick(s);
      && s'.mapper == s.mapper && s'.frameQueue == s.frameQueue && s'.dispatcher == s.dispatcher
      && s'.log.dispatched == s.log.dispatched && s'.log.samples == s.log.samples && s'.clockNs == s.clockNs
  {
  }

  lemma MapperKeepsContents(math: MathLibrary, s: State)
    requires ContentsRight(math, s)
    ensures ContentsRight(math, AdvanceMapper(math, s))
  {
    MapperTouches(math, s);
  }

  lemma DispatcherKeepsContents(math: MathLibrary, s: State, encodes: bool)
    requires ContentsRight(math, s)
    ensures ContentsRight(math, AdvanceDispatcher(s, encodes))
  {
    var s' := AdvanceDispatcher(s, encodes);
    DispatcherTouches(s, encodes);
    if s.dispatcher.DispatcherHolds? && s'.dispatcher.DispatcherSent? {
      var d := Dispatch(s.dispatcher.frame, BundleOf(s.dispatcher.frame.params, s.clockNs), s.backends.value);
      assert GoodDispatch(math, s.log.built, d);
      assert s'.log.dispatched == s.log.dispatched + [d];
    }
  }

  lemma StepKeepsContents(math: MathLibrary, s: State, l: Label)
    requires ContentsRight(math, s)
    ensures ContentsRight(math, Next(math, s, l))
  {
    match l
    case AggregatorTick => TickKeepsContents(math, s);
    case MapperStep => MapperKeepsContents(math, s);
    case DispatcherStep(encodes) => DispatcherKeepsContents(math, s, encodes);
    case _ => OnlyOutputTasksTouchOutput(math, s, l);
  }

  lemma ContentsOfRun(math: MathLibrary, start: State, schedule: Schedule)
    requires Started(start)
    ensures ContentsRight(math, Run(math, start, schedule))
  {
    forall s, l | ContentsRight(math, s) ensures ContentsRight(math, Stepper(math)(s, l)) {
      StepKeepsContents(math, s, l);
    }
    InvariantOfRuns(Stepper(math), (s: State) => ContentsRight(math, s), start, schedule);
  }

  /** End to end: the messages of every packet of every run are what its rules make of the normalised, smoothed metrics of
      the windows up to its number. */
  lemma PacketsFromWindows(math: MathLibrary, start: State, schedule: Schedule, d: Dispatch)
    requires Started(start) && d in Run(math, start, schedule).log.dispatched
    ensures var windows := Aggregated(Run(math, start, schedule));
      && d.frame.no < |windows|
      && d.bundle.content == Messages(d.frame.params)
      && d.frame.params == MapParams(math, d.frame.rules, Normalize(FilterAfter(windows[..d.frame.no + 1]).emas))
  {
    var s := Run(math, start, schedule);
    ContentsOfRun(math, start, schedule);
    SnapshotsOfRun(math, start, schedule);
    assert GoodDispatch(math, s.log.built, d);
    assert BuiltFrom(Aggregated(s), s.windowMs, s.log.built, d.frame.no);
  }

  /** Every value that leaves the daemon lies between the output bounds, as singles, of a rule with its address. */
  lemma PacketValuesBracketed(math: MathLibrary, start: State, schedule: Schedule, d: Dispatch, m: OscMessage)
    requires Started(start) && d in Run(math, start, schedule).log.dispatched && m in d.bundle.content
    ensures exists rule ::
      rule in d.frame.rules && m.addr == rule.oscAddress && InRange(m.arg, Single(rule.outMin), Single(rule.outMax))
  {
    var s := Run(math, start, schedule);
    ContentsOfRun(math, start, schedule);
    assert GoodDispatch(math, s.log.built, d);
    FrameBracketed(math, d.frame.rules, s.log.built[d.frame.no].metrics);
    var i :| 0 <= i < |d.bundle.content| && d.bundle.content[i] == m;
    var p := d.frame.params[i];
    assert p in d.frame.params;
    var rule :| rule in d.frame.rules && p.oscAddress == rule.oscAddress && InRange(p.value, rule.outMin, rule.outMax);
    CastInRange(p.value, rule.outMin, rule.outMax);
  }

  lemma CastInRange(v: real, a: real, b: real)
    requires InRange(v, a, b)
    ensures InRange(Single(v), Single(a), Single(b))
  {
    if a <= b {
      RoundedMonotone(SINGLE, a, v);
      RoundedMonotone(SINGLE, v, b);
    } else {
      RoundedMonotone(SINGLE, b, v);
      RoundedMonotone(SINGLE, v, a);
    }
  }

  /** Two runs whose windows hold the same events, in whatever order they arrived within each window, send packets with
      the same messages for snapshots of the same number mapped by the same rules. */
  lemma ArrivalOrderInaudible(math: MathLibrary, start1: State, schedule1: Schedule, start2: State, schedule2: Schedule,
                              d1: Dispatch, d2: Dispatch)
    requires Started(start1) && d1 in Run(math, start1, schedule1).log.dispatched
    requires Started(start2) && d2 in Run(math, start2, schedule2).log.dispatched
    requires Rearranged(Aggregated(Run(math, start1, schedule1)), Aggregated(Run(math, start2, schedule2)))
    requires d1.frame.no == d2.frame.no && d1.frame.rules == d2.frame.rules
    ensures d1.bundle.content == d2.bundle.content
  {
    PacketsFromWindows(math, start1, schedule1, d1);
    PacketsFromWindows(math, start2, schedule2, d2);
    var n := d1.frame.no + 1;
    ArrivalOrderIrrelevant(Aggregated(Run(math, start1, schedule1))[..n], Aggregated(Run(math, start2, schedule2))[..n]);
  }
}

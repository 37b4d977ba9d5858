/** The retention store: two tables in a file, behind a connection that is given up at the first failing statement and
    that a restart opens again. Whether a statement or an opening succeeds is an argument; a failing statement leaves its
    table as it was. */
module Database {
  import opened Prelude
  import opened Events
  import opened Metrics

  datatype Store = Store(open: bool, events: seq<RawEvent>, snapshots: seq<StateSnapshot>)

  datatype Operation =
    | InsertEvent(event: RawEvent, ok: bool)
    | InsertSnapshot(snapshot: StateSnapshot, ok: bool)
    | Purge(nowUs: U64, retentionUs: U64, okEvents: bool, okSnapshots: bool)
    | Wipe(okEvents: bool, okSnapshots: bool)
    | Reopen(connects: bool)  // a restart of the daemon: the file is opened and its tables are created if missing

  function CutoffUs(nowUs: U64, retentionUs: U64): U64 {
    if nowUs >= retentionUs then nowUs - retentionUs else 0
  }

  /** The cutoff in nanoseconds saturates at the largest 64-bit word. */
  function CutoffNs(nowUs: U64, retentionUs: U64): U64 {
    var ns := CutoffUs(nowUs, retentionUs) as int * 1000;
    if ns < TWO_TO_THE_64 then ns else TWO_TO_THE_64 - 1
  }

  function EventOlderThan(cutoffNs: nat): RawEvent -> bool {
    (e: RawEvent) => e.timestampNs < cutoffNs
  }

  function SnapshotOlderThan(cutoffUs: nat): StateSnapshot -> bool {
    (s: StateSnapshot) => s.timestampUs < cutoffUs
  }

  /** The effect of one operation. */
  function Apply(s: Store, op: Operation): Store {
    if op.Reopen? then s.(open := op.connects)
    else if !s.open then s
    else match op
      case Reopen(_) => s
      case InsertEvent(e, ok) => if ok then s.(events := s.events + [e]) else s.(open := false)
      case InsertSnapshot(r, ok) => if ok then s.(snapshots := s.snapshots + [r]) else s.(open := false)
      case Purge(now, retention, okEvents, okSnapshots) =>
        Store(okEvents && okSnapshots,
              if okEvents then Retained(s.events, EventOlderThan(CutoffNs(now, retention))) else s.events,
              if okEvents && okSnapshots then Retained(s.snapshots, SnapshotOlderThan(CutoffUs(now, retention)))
              else s.snapshots)
      case Wipe(okEvents, okSnapshots) =>
        Store(okEvents && okSnapshots,
              if okEvents then [] else s.events,
              if okEvents && okSnapshots then [] else s.snapshots)
  }

  /** What a wipe answers: success, too, from a store that has given up. */
  predicate ReportsOk(s: Store, okEvents: bool, okSnapshots: bool) {
    !s.open || Apply(s, Wipe(okEvents, okSnapshots)).open
  }

  /** A snapshot is younger than the retention, or exactly that old. */
  predicate SnapshotYoung(s: StateSnapshot, nowUs: U64, retentionUs: U64) {
    s.timestampUs + retentionUs >= nowUs
  }

  /** The same for an event; one of the very last nanosecond counts as young if the cutoff saturates. */
  predicate EventYoung(e: RawEvent, nowUs: U64, retentionUs: U64) {
    || e.timestampNs + 1000 * retentionUs >= 1000 * nowUs
    || (e.timestampNs == TWO_TO_THE_64 - 1 && (nowUs - retentionUs) * 1000 >= TWO_TO_THE_64)
  }

  /** A purge of an open store keeps, in order, exactly the rows that are no older than the retention; where its first or
      second statement fails, the tables it did not reach keep all rows and the connection is given up. */
  lemma PurgeKeepsYoung(s: Store, nowUs: U64, retentionUs: U64, okEvents: bool, okSnapshots: bool)
    requires s.open
    ensures var t := Apply(s, Purge(nowUs, retentionUs, okEvents, okSnapshots));
      && t.open == (okEvents && okSnapshots)
      && t.events == Retained(s.events, (e: RawEvent) => okEvents && !EventYoung(e, nowUs, retentionUs))
      && t.snapshots == Retained(s.snapshots, (r: StateSnapshot) => okEvents && okSnapshots && !SnapshotYoung(r, nowUs, retentionUs))
      && (forall e :: e in t.events <==> e in s.events && (okEvents ==> EventYoung(e, nowUs, retentionUs)))
      && (forall r :: r in t.snapshots
           <==> r in s.snapshots && (okEvents && okSnapshots ==> SnapshotYoung(r, nowUs, retentionUs)))
  {
    var t := Apply(s, Purge(nowUs, retentionUs, okEvents, okSnapshots));
    var oldEvent := (e: RawEvent) => okEvents && !EventYoung(e, nowUs, retentionUs);
    var oldSnapshot := (r: StateSnapshot) => okEvents && okSnapshots && !SnapshotYoung(r, nowUs, retentionUs);
    if okEvents {
      RetainedSame(s.events, EventOlderThan(CutoffNs(nowUs, retentionUs)), oldEvent);
    } else {
      RetainedAll(s.events, oldEvent);
    }
    if okEvents && okSnapshots {
      RetainedSame(s.snapshots, SnapshotOlderThan(CutoffUs(nowUs, retentionUs)), oldSnapshot);
    } else {
      RetainedAll(s.snapshots, oldSnapshot);
    }
    forall e ensures e in t.events <==> e in s.events && (okEvents ==> EventYoung(e, nowUs, retentionUs)) {
      RetainedMembers(s.events, oldEvent, e);
    }
    forall r ensures r in t.snapshots
        <==> r in s.snapshots && (okEvents && okSnapshots ==> SnapshotYoung(r, nowUs, retentionUs)) {
      RetainedMembers(s.snapshots, oldSnapshot, r);
    }
  }

  class Database {
    var conn: bool  // whether there is still a connection
    var events: seq<RawEvent>
    var snapshots: seq<StateSnapshot>

    function Contents(): Store
      reads this
    {
      Store(conn, events, snapshots)
    }

    /** Opening a file that holds the rows of earlier runs. */
    constructor (events: seq<RawEvent>, snapshots: seq<StateSnapshot>, connects: bool)
      ensures forall wasOpen :: Contents() == Apply(Store(wasOpen, events, snapshots), Reopen(connects))
    {
      conn := connects;
      this.events, this.snapshots := events, snapshots;
    }

    method RecordEvent(event: RawEvent, ok: bool)
      modifies this
      ensures Contents() == Apply(old(Contents()), InsertEvent(event, ok))
    {
      if !conn {
        return;
      }
      if ok {
        events := events + [event];
      } else {
        conn := false;
      }
    }

    method RecordSnapshot(snapshot: StateSnapshot, ok: bool)
      modifies this
      ensures Contents() == Apply(old(Contents()), InsertSnapshot(snapshot, ok))
    {
      if !conn {
        return;
      }
      if ok {
        snapshots := snapshots + [snapshot];
      } else {
        conn := false;
      }
    }

    method PurgeOlderThan(nowUs: U64, retentionUs: U64, okEvents: bool, okSnapshots: bool)
      modifies this
      ensures Contents() == Apply(old(Contents()), Purge(nowUs, retentionUs, okEvents, okSnapshots))
      ensures old(conn) ==>
        && (forall e :: e in events <==> e in old(events) && (okEvents ==> EventYoung(e, nowUs, retentionUs)))
        && (forall r :: r in snapshots
             <==> r in old(snapshots) && (okEvents && okSnapshots ==> SnapshotYoung(r, nowUs, retentionUs)))
    {
      if !conn {
        return;
      }
      PurgeKeepsYoung(Contents(), nowUs, retentionUs, okEvents, okSnapshots);
      var cutoffUs := if nowUs >= retentionUs then nowUs - retentionUs else 0;
      var cutoffNs := if cutoffUs * 1000 < TWO_TO_THE_64 then cutoffUs * 1000 else TWO_TO_THE_64 - 1;
      var hasFailed := false;
      if okEvents {
        events := Retained(events, EventOlderThan(cutoffNs));
      } else {
        hasFailed := true;
      }
      if !hasFailed {
        if okSnapshots {
          snapshots := Retained(snapshots, SnapshotOlderThan(cutoffUs));
        } else {
          hasFailed := true;
        }
      }
      if hasFailed {
        conn := false;
      }
    }

    /** A reported success leaves both tables empty exactly if the store was open or had nothing in it. */
    method WipeAll(okEvents: bool, okSnapshots: bool) returns (reportedOk: bool)
      modifies this
      ensures Contents() == Apply(old(Contents()), Wipe(okEvents, okSnapshots))
      ensures reportedOk == ReportsOk(old(Contents()), okEvents, okSnapshots)
      ensures reportedOk <==> !old(conn) || (okEvents && okSnapshots)
      ensures reportedOk ==>
        (events == [] && snapshots == [] <==> old(conn) || (old(events) == [] && old(snapshots) == []))
    {
      if !conn {
        return true;
      }
      if !okEvents {
        conn := false;
        return false;
      }
      events := [];
      if !okSnapshots {
        conn := false;
        return false;
      }
      snapshots := [];
      return true;
    }
  }

  // ---------- Histories ----------

  type History = seq<Operation>

  /** What a history makes of the store it finds. */
  function StoreAfter(start: Store, h: History): Store {
    if h == [] then start else Apply(StoreAfter(start, h[..|h| - 1]), h[|h| - 1])
  }

  predicate Succeeds(op: Operation) {
    match op
    case InsertEvent(_, ok) => ok
    case InsertSnapshot(_, ok) => ok
    case Purge(_, _, okEvents, okSnapshots) => okEvents && okSnapshots
    case Wipe(okEvents, okSnapshots) => okEvents && okSnapshots
    case Reopen(connects) => connects
  }

  /** The file was opened just before operation r, or at the start if there was a connection then. */
  predicate Opened(wasOpen: bool, h: History, r: nat)
    requires r <= |h|
  {
    if r == 0 then wasOpen else h[r - 1] == Reopen(true)
  }

  /** The store has its connection when operation n arrives: it was opened, and no failure has happened since. */
  predicate Enabled(wasOpen: bool, h: History, n: nat)
    requires n <= |h|
  {
    exists r: nat | r <= n :: Opened(wasOpen, h, r) && forall k :: r <= k < n ==> Succeeds(h[k])
  }

  /** One table, by what an operation adds to it and what it erases from it. */
  datatype Table<!R> = Table(added: Operation -> Option<R>, erases: (Operation, R) -> bool)

  const EVENTS: Table<RawEvent> := Table(
    (op: Operation) => if op.InsertEvent? && op.ok then Some(op.event) else None,
    (op: Operation, e: RawEvent) => (op.Purge? && op.okEvents && e.timestampNs < CutoffNs(op.nowUs, op.retentionUs))
            || (op.Wipe? && op.okEvents))

  const SNAPSHOTS: Table<StateSnapshot> := Table(
    (op: Operation) => if op.InsertSnapshot? && op.ok then Some(op.snapshot) else None,
    (op: Operation, s: StateSnapshot) => (op.Purge? && op.okEvents && op.okSnapshots && s.timestampUs < CutoffUs(op.nowUs, op.retentionUs))
            || (op.Wipe? && op.okEvents && op.okSnapshots))

  /** Operation i added a row that nothing carried out later has erased. */
  predicate Survives<R>(table: Table<R>, wasOpen: bool, h: History, i: nat)
    requires i < |h|
  {
    && Enabled(wasOpen, h, i) && table.added(h[i]).Some?
    && forall k :: i < k < |h| && Enabled(wasOpen, h, k) ==> !table.erases(h[k], table.added(h[i]).value)
  }

  /** The surviving rows among those added by the first n operations, in the order they were added. */
  function SurvivingRows<R>(table: Table<R>, wasOpen: bool, h: History, n: nat): seq<R>
    requires n <= |h|
  {
    if n == 0 then []
    else
      SurvivingRows(table, wasOpen, h, n - 1)
      + if Survives(table, wasOpen, h, n - 1) then [table.added(h[n - 1]).value] else []
  }

  /** Whether a row from before the history has been erased by an operation that was carried out. */
  predicate Lost<R>(table: Table<R>, wasOpen: bool, h: History, row: R) {
    exists k: nat | k < |h| :: Enabled(wasOpen, h, k) && table.erases(h[k], row)
  }

  function LostRows<R>(table: Table<R>, wasOpen: bool, h: History): R -> bool {
    row => Lost(table, wasOpen, h, row)
  }

  /** The rows of an earlier run that are still there, and those this history has added. */
  function TableAfter<R>(table: Table<R>, wasOpen: bool, h: History, earlier: seq<R>): seq<R> {
    Retained(earlier, LostRows(table, wasOpen, h)) + SurvivingRows(table, wasOpen, h, |h|)
  }

  function Erased<R>(table: Table<R>, op: Operation): R -> bool {
    row => table.erases(op, row)
  }

  /** How one more operation changes a table. */
  function TableStep<R>(table: Table<R>, rows: seq<R>, open: bool, op: Operation): seq<R> {
    if !open then rows
    else match table.added(op)
      case Some(row) => rows + [row]
      case None => Retained(rows, Erased(table, op))
  }

  lemma EnabledInPrefix(wasOpen: bool, h: History, op: Operation, n: nat)
    requires n <= |h|
    ensures Enabled(wasOpen, h + [op], n) == Enabled(wasOpen, h, n)
  {
    var h' := h + [op];
    assert forall k :: 0 <= k < n ==> h'[k] == h[k];
    forall r: nat | r <= n ensures Opened(wasOpen, h', r) == Opened(wasOpen, h, r) {}
    if Enabled(wasOpen, h', n) {
      var r: nat :| r <= n && Opened(wasOpen, h', r) && forall k :: r <= k < n ==> Succeeds(h'[k]);
      forall k | r <= k < n ensures Succeeds(h[k]) {
        assert Succeeds(h'[k]);
      }
      assert Opened(wasOpen, h, r);
    }
    if Enabled(wasOpen, h, n) {
      var r: nat :| r <= n && Opened(wasOpen, h, r) && forall k :: r <= k < n ==> Succeeds(h[k]);
      assert Opened(wasOpen, h', r);
    }
  }

  /** A restart decides anew whether there is a connection; after any other operation there is one if there was and the
      operation has not failed. */
  lemma EnabledStep(wasOpen: bool, h: History, op: Operation)
    ensures Enabled(wasOpen, h + [op], |h| + 1)
      <==> if op.Reopen? then op.connects else Enabled(wasOpen, h, |h|) && Succeeds(op)
  {
    var n, h' := |h|, h + [op];
    EnabledInPrefix(wasOpen, h, op, n);
    if op == Reopen(true) {
      assert Opened(wasOpen, h', n + 1);
    }
    if Enabled(wasOpen, h', n + 1) && op != Reopen(true) {
      var r: nat :| r <= n + 1 && Opened(wasOpen, h', r) && forall k :: r <= k < n + 1 ==> Succeeds(h'[k]);
      assert r <= n && Succeeds(h'[n]);
    }
    if Enabled(wasOpen, h', n) && Succeeds(op) {
      var r: nat :| r <= n && Opened(wasOpen, h', r) && forall k :: r <= k < n ==> Succeeds(h'[k]);
      forall k | r <= k < n + 1 ensures Succeeds(h'[k]) {}
    }
  }

  /** A row survives one more operation unless that operation is carried out and erases it. */
  lemma SurvivesStep<R>(table: Table<R>, wasOpen: bool, h: History, op: Operation, i: nat)
    requires i < |h|
    ensures Survives(table, wasOpen, h + [op], i)
      <==> Survives(table, wasOpen, h, i)
           && !(Enabled(wasOpen, h, |h|) && Erased(table, op)(table.added(h[i]).value))
  {
    var h' := h + [op];
    forall k: nat | k <= |h| ensures Enabled(wasOpen, h', k) == Enabled(wasOpen, h, k) {
      EnabledInPrefix(wasOpen, h, op, k);
    }
    assert h'[|h|] == op && forall k :: 0 <= k < |h| ==> h'[k] == h[k];
    if Survives(table, wasOpen, h', i) {
      forall k | i < k < |h| && Enabled(wasOpen, h, k) ensures !table.erases(h[k], table.added(h[i]).value) {
        assert Enabled(wasOpen, h', k) && h'[k] == h[k];
      }
    }
  }

  lemma LostStep<R>(table: Table<R>, wasOpen: bool, h: History, op: Operation, row: R)
    ensures Lost(table, wasOpen, h + [op], row)
      <==> Lost(table, wasOpen, h, row) || (Enabled(wasOpen, h, |h|) && table.erases(op, row))
  {
    var h' := h + [op];
    forall k: nat | k <= |h| ensures Enabled(wasOpen, h', k) == Enabled(wasOpen, h, k) {
      EnabledInPrefix(wasOpen, h, op, k);
    }
    assert h'[|h|] == op && forall k :: 0 <= k < |h| ==> h'[k] == h[k];
    if Lost(table, wasOpen, h, row) {
      var k: nat :| k < |h| && Enabled(wasOpen, h, k) && table.erases(h[k], row);
      assert Enabled(wasOpen, h', k);
    }
    if Enabled(wasOpen, h, |h|) && table.erases(op, row) {
      assert Enabled(wasOpen, h', |h|);
    }
  }

  lemma {:induction false} SurvivorsStep<R>(table: Table<R>, wasOpen: bool, h: History, op: Operation, n: nat)
    requires n <= |h|
    ensures SurvivingRows(table, wasOpen, h + [op], n)
         == if Enabled(wasOpen, h, |h|) then Retained(SurvivingRows(table, wasOpen, h, n), Erased(table, op))
            else SurvivingRows(table, wasOpen, h, n)
  {
    if n == 0 {
    } else {
      var i := n - 1;
      SurvivorsStep(table, wasOpen, h, op, i);
      SurvivesStep(table, wasOpen, h, op, i);
      assert (h + [op])[i] == h[i];
      SurvivorsUnfold(table, wasOpen, h, n);
      SurvivorsUnfold(table, wasOpen, h + [op], n);
      if Survives(table, wasOpen, h, i) {
        RetainedSnoc(SurvivingRows(table, wasOpen, h, i), table.added(h[i]).value, Erased(table, op));
      } else {
        assert SurvivingRows(table, wasOpen, h, n) == SurvivingRows(table, wasOpen, h, i);
        assert SurvivingRows(table, wasOpen, h + [op], n) == SurvivingRows(table, wasOpen, h + [op], i);
      }
    }
  }

  lemma SurvivorsUnfold<R>(table: Table<R>, wasOpen: bool, h: History, n: nat)
    requires 0 < n <= |h|
    ensures SurvivingRows(table, wasOpen, h, n)
         == SurvivingRows(table, wasOpen, h, n - 1)
          + if Survives(table, wasOpen, h, n - 1) then [table.added(h[n - 1]).value] else []
  {
  }

  lemma EventsByTable(s: Store, op: Operation)
    ensures Apply(s, op).events == TableStep(EVENTS, s.events, s.open, op)
  {
    var erases := Erased(EVENTS, op);
    match op
    case InsertEvent(_, _) => RetainedAll(s.events, erases);
    case InsertSnapshot(_, _) => RetainedAll(s.events, erases);
    case Reopen(_) => RetainedAll(s.events, erases);
    case Purge(now, retention, okEvents, _) =>
      if okEvents {
        RetainedSame(s.events, EventOlderThan(CutoffNs(now, retention)), erases);
      } else {
        RetainedAll(s.events, erases);
      }
    case Wipe(okEvents, _) =>
      if okEvents {
        RetainedNone(s.events, erases);
      } else {
        RetainedAll(s.events, erases);
      }
  }

  lemma SnapshotsByTable(s: Store, op: Operation)
    ensures Apply(s, op).snapshots == TableStep(SNAPSHOTS, s.snapshots, s.open, op)
  {
    var erases := Erased(SNAPSHOTS, op);
    match op
    case InsertEvent(_, _) => RetainedAll(s.snapshots, erases);
    case InsertSnapshot(_, _) => RetainedAll(s.snapshots, erases);
    case Reopen(_) => RetainedAll(s.snapshots, erases);
    case Purge(now, retention, okEvents, okSnapshots) =>
      if okEvents && okSnapshots {
        RetainedSame(s.snapshots, SnapshotOlderThan(CutoffUs(now, retention)), erases);
      } else {
        RetainedAll(s.snapshots, erases);
      }
    case Wipe(okEvents, okSnapshots) =>
      if okEvents && okSnapshots {
        RetainedNone(s.snapshots, erases);
      } else {
        RetainedAll(s.snapshots, erases);
      }
  }

  lemma EarlierRowsStep<R>(table: Table<R>, wasOpen: bool, h: History, op: Operation, earlier: seq<R>)
    ensures var before, after := LostRows(table, wasOpen, h), LostRows(table, wasOpen, h + [op]);
      Retained(earlier, after) == if Enabled(wasOpen, h, |h|) then Retained(Retained(earlier, before), Erased(table, op))
                                  else Retained(earlier, before)
  {
    var before, after := LostRows(table, wasOpen, h), LostRows(table, wasOpen, h + [op]);
    forall row ensures after(row) == (before(row) || (Enabled(wasOpen, h, |h|) && table.erases(op, row))) {
      LostStep(table, wasOpen, h, op, row);
    }
    if Enabled(wasOpen, h, |h|) {
      RetainedTwice(earlier, before, Erased(table, op), after);
    } else {
      RetainedSame(earlier, before, after);
    }
  }

  /** TableStep on a table in two parts, if nothing is added and erased by one operation. */
  lemma StepOfParts<R>(table: Table<R>, kept: seq<R>, added: seq<R>, open: bool, op: Operation)
    requires table.added(op).Some? ==> forall r :: !table.erases(op, r)
    ensures TableStep(table, kept + added, open, op)
         == (if open then Retained(kept, Erased(table, op)) + Retained(added, Erased(table, op)) else kept + added)
          + if open && table.added(op).Some? then [table.added(op).value] else []
  {
    if open && table.added(op).Some? {
      forall r: R ensures !Erased(table, op)(r) {}
      RetainedAll(kept, Erased(table, op));
      RetainedAll(added, Erased(table, op));
    } else {
      RetainedConcat(kept, added, Erased(table, op));
    }
  }

  lemma NewestSurvives<R>(table: Table<R>, wasOpen: bool, h: History, op: Operation)
    ensures Survives(table, wasOpen, h + [op], |h|) <==> Enabled(wasOpen, h, |h|) && table.added(op).Some?
  {
    EnabledInPrefix(wasOpen, h, op, |h|);
    assert (h + [op])[|h|] == op;
  }

  /** A table kept by TableStep holds the survivors of its history. */
  lemma TableIsFilter<R>(table: Table<R>, wasOpen: bool, h: History, op: Operation, earlier: seq<R>)
    requires table.added(op).Some? ==> forall r :: !table.erases(op, r)
    ensures TableAfter(table, wasOpen, h + [op], earlier)
         == TableStep(table, TableAfter(table, wasOpen, h, earlier), Enabled(wasOpen, h, |h|), op)
  {
    var h', n := h + [op], |h|;
    var kept, added := Retained(earlier, LostRows(table, wasOpen, h)), SurvivingRows(table, wasOpen, h, n);
    EarlierRowsStep(table, wasOpen, h, op, earlier);
    SurvivorsStep(table, wasOpen, h, op, n);
    SurvivorsUnfold(table, wasOpen, h', n + 1);
    NewestSurvives(table, wasOpen, h, op);
    assert h'[n] == op;
    var open := Enabled(wasOpen, h, n);
    StepOfParts(table, kept, added, open, op);
    ConcatAssociates(if open then Retained(kept, Erased(table, op)) else kept,
                     if open then Retained(added, Erased(table, op)) else added,
                     if open && table.added(op).Some? then [table.added(op).value] else []);
  }

  lemma ConcatAssociates<R>(a: seq<R>, b: seq<R>, c: seq<R>)
    ensures a + (b + c) == a + b + c
  {
  }

  lemma {:induction false} NothingLostYet<R>(table: Table<R>, wasOpen: bool, earlier: seq<R>)
    ensures TableAfter(table, wasOpen, [], earlier) == earlier
  {
    RetainedAll(earlier, LostRows(table, wasOpen, []));
  }

  /** The store equals a filter of its history: a row is there exactly if it was there before, or inserted while there was
      a connection, and no later purge or wipe that was carried out has erased it. A connection lasts from an opening that
      succeeded to the first failure. */
  lemma {:induction false} StoreIsFilterOfHistory(start: Store, h: History)
    ensures StoreAfter(start, h).open == Enabled(start.open, h, |h|)
    ensures StoreAfter(start, h).events == TableAfter(EVENTS, start.open, h, start.events)
    ensures StoreAfter(start, h).snapshots == TableAfter(SNAPSHOTS, start.open, h, start.snapshots)
  {
    if h == [] {
      NothingLostYet(EVENTS, start.open, start.events);
      NothingLostYet(SNAPSHOTS, start.open, start.snapshots);
      assert start.open ==> Opened(start.open, h, 0);
    } else {
      var n := |h| - 1;
      var before, op := h[..n], h[n];
      var s := StoreAfter(start, before);
      StoreIsFilterOfHistory(start, before);
      EventsByTable(s, op);
      SnapshotsByTable(s, op);
      TableIsFilter(EVENTS, start.open, before, op, start.events);
      TableIsFilter(SNAPSHOTS, start.open, before, op, start.snapshots);
      EnabledStep(start.open, before, op);
      assert before + [op] == h;
    }
  }

  /** After a failure nothing changes any more, until the daemon is restarted. */
  lemma {:induction false} FailureIsAbsorbing(start: Store, h: History, more: History)
    requires !StoreAfter(start, h).open && forall op :: op in more ==> !op.Reopen?
    ensures StoreAfter(start, h + more) == StoreAfter(start, h)
  {
    if more == [] {
      assert h + more == h;
    } else {
      var n := |more| - 1;
      FailureIsAbsorbing(start, h, more[..n]);
      assert (h + more)[..|h| + n] == h + more[..n];
    }
  }

  /** A restart brings back what a failed store still holds. */
  lemma RestartKeepsRows(start: Store, h: History)
    ensures StoreAfter(start, h + [Reopen(true)]) == StoreAfter(start, h).(open := true)
  {
    assert (h + [Reopen(true)])[..|h|] == h;
  }

  /** A purge treats an event and a snapshot of the same microsecond alike, saturation included, except for an event of
      the very last nanosecond of the 64-bit range. */
  lemma CutoffsAgree(timestampNs: U64, nowUs: U64, retentionUs: U64)
    ensures (timestampNs < CutoffNs(nowUs, retentionUs) <==> timestampNs / 1000 < CutoffUs(nowUs, retentionUs))
      <==> !(timestampNs == TWO_TO_THE_64 - 1 && CutoffUs(nowUs, retentionUs) as int * 1000 >= TWO_TO_THE_64)
  {
    var us := CutoffUs(nowUs, retentionUs);
    if us as int * 1000 >= TWO_TO_THE_64 {
      assert us > (TWO_TO_THE_64 - 1) / 1000;
    }
  }

  /** A wipe reports success on a store that has given up, although rows remain. */
  lemma WipeAfterFailureKeepsRows(e: RawEvent)
    ensures var blank := Store(true, [], []);
      var given := StoreAfter(blank, [InsertEvent(e, true), InsertEvent(e, false)]);
      && ReportsOk(given, true, true)
      && StoreAfter(blank, [InsertEvent(e, true), InsertEvent(e, false), Wipe(true, true)]).events == [e]
  {
    var start := Store(true, [], []);
    var h := [InsertEvent(e, true), InsertEvent(e, false), Wipe(true, true)];
    assert h[..2] == [InsertEvent(e, true), InsertEvent(e, false)];
    assert h[..2][..1][..0] == [] && h[..2][..1] == [InsertEvent(e, true)];
    assert StoreAfter(start, h[..2][..1]) == Store(true, [e], []);
    assert StoreAfter(start, h[..2]) == Store(false, [e], []);
  }
}

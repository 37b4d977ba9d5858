/** The latency histogram: five atomic counters bumped one after the other by any number of concurrent observers. */
module Histogram {
  import opened Prelude
  import opened Machines
  import opened Rounding

  datatype Counter = SumUs | Count | Le5 | Le10 | Le20

  /** The position of a counter in the sequence of updates one observation makes. */
  function Stage(c: Counter): nat {
    match c
    case SumUs => 1
    case Count => 2
    case Le5 => 3
    case Le10 => 4
    case Le20 => 5
  }

  const DONE: nat := 5

  /** Milliseconds, a double, to whole microseconds: the product is rounded, and the cast cuts off the fraction and
      saturates at both ends of the 64-bit range. */
  function Micros(ms: real): U64 {
    var us := Double(ms * 1000.0).Floor;
    if us < 0 then 0 else if us < TWO_TO_THE_64 then us else TWO_TO_THE_64 - 1
  }

  /** What one observation adds to a counter. */
  function Amount(ms: real, c: Counter): nat {
    match c
    case SumUs => Micros(ms)
    case Count => 1
    case Le5 => if ms <= 5.0 then 1 else 0
    case Le10 => if ms <= 10.0 then 1 else 0
    case Le20 => if ms <= 20.0 then 1 else 0
  }

  class PrometheusHistogram {
    var sumUs: nat
    var count: nat
    var bucketLe5: nat
    var bucketLe10: nat
    var bucketLe20: nat

    function Get(c: Counter): nat
      reads this
    {
      match c
      case SumUs => sumUs
      case Count => count
      case Le5 => bucketLe5
      case Le10 => bucketLe10
      case Le20 => bucketLe20
    }

    constructor ()
      ensures forall c :: Get(c) == 0
    {
      sumUs, count, bucketLe5, bucketLe10, bucketLe20 := 0, 0, 0, 0, 0;
    }

    /** One observation, undisturbed. */
    method Observe(ms: real)
      modifies this
      ensures forall c :: Get(c) == old(Get(c)) + Amount(ms, c)
    {
      var us := Micros(ms);
      sumUs := sumUs + us;
      count := count + 1;
      if ms <= 5.0 {
        bucketLe5 := bucketLe5 + 1;
      }
      if ms <= 10.0 {
        bucketLe10 := bucketLe10 + 1;
      }
      if ms <= 20.0 {
        bucketLe20 := bucketLe20 + 1;
      }
    }
  }

  // ---------- Interleaved observers ----------

  /** An observation that has performed `phase` of its five updates. */
  datatype Observer = Observer(ms: real, phase: nat)

  datatype State = State(value: map<Counter, nat>, observers: seq<Observer>)

  datatype Label = Begin(ms: real) | Advance(observer: nat)

  function At(s: State, c: Counter): nat {
    if c in s.value then s.value[c] else 0
  }

  function CounterAt(stage: nat): (c: Counter)
    requires 1 <= stage <= DONE
    ensures Stage(c) == stage
  {
    if stage == 1 then SumUs else if stage == 2 then Count else if stage == 3 then Le5 else if stage == 4 then Le10 else Le20
  }

  /** One atomic update; a step of an observer that is done, or unknown, changes nothing. */
  function Next(s: State, l: Label): State {
    match l
    case Begin(ms) => s.(observers := s.observers + [Observer(ms, 0)])
    case Advance(i) =>
      if i < |s.observers| && s.observers[i].phase < DONE then
        var o := s.observers[i];
        var c := CounterAt(o.phase + 1);
        State(s.value[c := At(s, c) + Amount(o.ms, c)], s.observers[i := Observer(o.ms, o.phase + 1)])
      else s
  }

  function Run(s: State, labels: seq<Label>): State {
    Execute(Next, s, labels)
  }

  const EMPTY := State(map[], [])

  function Applied(c: Counter): Observer -> nat {
    (o: Observer) => if o.phase >= Stage(c) then Amount(o.ms, c) else 0
  }

  function AppliedWhenDone(c: Counter): Observer -> nat {
    (o: Observer) => if o.phase >= DONE then Amount(o.ms, c) else 0
  }

  function Whole(c: Counter): Observer -> nat {
    (o: Observer) => Amount(o.ms, c)
  }

  /** A counter holds exactly the updates performed so far. */
  ghost predicate Consistent(s: State) {
    forall c :: At(s, c) == Sum(s.observers, Applied(c))
  }

  /** Contribution of the observations that have completed. */
  function Completed(s: State, c: Counter): nat {
    Sum(s.observers, AppliedWhenDone(c))
  }

  /** Contribution of all observations that have begun. */
  function Begun(s: State, c: Counter): nat {
    Sum(s.observers, Whole(c))
  }

  lemma NothingApplied(ms: real, c: Counter)
    ensures Applied(c)(Observer(ms, 0)) == 0 && AppliedWhenDone(c)(Observer(ms, 0)) == 0
  {
  }

  lemma SumsAfterBegin(xs: seq<Observer>, x: Observer, applied: Observer -> nat, done: Observer -> nat,
                       whole: Observer -> nat)
    requires applied(x) == 0 && done(x) == 0
    ensures Sum(xs + [x], applied) == Sum(xs, applied) && Sum(xs + [x], done) == Sum(xs, done)
    ensures Sum(xs + [x], whole) >= Sum(xs, whole)
  {
    SumSnoc(xs, x, applied);
    SumSnoc(xs, x, done);
    SumSnoc(xs, x, whole);
  }

  lemma BeginConsistent(s: State, ms: real, c: Counter)
    ensures var s' := Next(s, Begin(ms));
      && Sum(s'.observers, Applied(c)) == Sum(s.observers, Applied(c)) && At(s', c) == At(s, c)
      && Completed(s', c) == Completed(s, c) && Begun(s', c) >= Begun(s, c)
  {
    NothingApplied(ms, c);
    SumsAfterBegin(s.observers, Observer(ms, 0), Applied(c), AppliedWhenDone(c), Whole(c));
  }

  lemma ObserverAdvances(o: Observer, c: Counter)
    requires o.phase < DONE
    ensures var o' := Observer(o.ms, o.phase + 1);
      && Applied(c)(o') == Applied(c)(o) + (if CounterAt(o.phase + 1) == c then Amount(o.ms, c) else 0)
      && AppliedWhenDone(c)(o') >= AppliedWhenDone(c)(o) && Whole(c)(o') == Whole(c)(o)
  {
    assert CounterAt(o.phase + 1) == c <==> Stage(c) == o.phase + 1;
  }

  lemma AdvanceConsistent(s: State, i: nat, c: Counter)
    requires i < |s.observers| && s.observers[i].phase < DONE
    ensures var s' := Next(s, Advance(i));
      && Sum(s'.observers, Applied(c)) - Sum(s.observers, Applied(c)) == At(s', c) - At(s, c)
      && Completed(s', c) >= Completed(s, c) && Begun(s', c) == Begun(s, c)
  {
    var o := s.observers[i];
    var o' := Observer(o.ms, o.phase + 1);
    var applied, done, whole := Applied(c), AppliedWhenDone(c), Whole(c);
    ObserverAdvances(o, c);
    SumUpdated(s.observers, i, o', applied);
    SumUpdated(s.observers, i, o', done);
    SumUpdated(s.observers, i, o', whole);
  }

  /** Every atomic step keeps the counters consistent and moves completed and begun contributions only upwards. */
  lemma StepConsistent(s: State, l: Label, c: Counter)
    requires At(s, c) == Sum(s.observers, Applied(c))
    ensures At(Next(s, l), c) == Sum(Next(s, l).observers, Applied(c))
    ensures Completed(s, c) <= Completed(Next(s, l), c)
    ensures Begun(s, c) <= Begun(Next(s, l), c)
  {
    match l
    case Begin(ms) => BeginConsistent(s, ms, c);
    case Advance(i) =>
      if i < |s.observers| && s.observers[i].phase < DONE {
        AdvanceConsistent(s, i, c);
      }
  }

  lemma {:induction false} RunConsistent(s: State, labels: seq<Label>)
    requires Consistent(s)
    ensures Consistent(Run(s, labels))
    ensures forall c :: Completed(s, c) <= Completed(Run(s, labels), c)
    ensures forall c :: Begun(s, c) <= Begun(Run(s, labels), c)
  {
    if labels == [] {
    } else {
      var n := |labels| - 1;
      var t := Run(s, labels[..n]);
      RunConsistent(s, labels[..n]);
      forall c
        ensures At(Next(t, labels[n]), c) == Sum(Next(t, labels[n]).observers, Applied(c))
        ensures Completed(t, c) <= Completed(Next(t, labels[n]), c)
        ensures Begun(t, c) <= Begun(Next(t, labels[n]), c)
      {
        StepConsistent(t, labels[n], c);
      }
    }
  }

  /** A value loaded at any moment of a scrape lies between what had completed when the scrape started and what had
      begun when it ended. */
  lemma ScrapeBounds(before: seq<Label>, untilLoad: seq<Label>, afterLoad: seq<Label>, c: Counter)
    ensures var start := Run(EMPTY, before);
      var loaded := Run(start, untilLoad);
      Completed(start, c) <= At(loaded, c) <= Begun(Run(loaded, afterLoad), c)
  {
    var start := Run(EMPTY, before);
    var loaded := Run(start, untilLoad);
    assert Consistent(EMPTY);
    RunConsistent(EMPTY, before);
    RunConsistent(start, untilLoad);
    RunConsistent(loaded, afterLoad);
    assert At(loaded, c) == Sum(loaded.observers, Applied(c));
    SumMonotone(loaded.observers, AppliedWhenDone(c), Applied(c));
    SumMonotone(loaded.observers, Applied(c), Whole(c));
  }

  predicate Quiescent(s: State) {
    forall i :: 0 <= i < |s.observers| ==> s.observers[i].phase == DONE
  }

  /** With no observation in flight every counter is exact and the buckets are nested. */
  lemma QuiescentExact(labels: seq<Label>)
    requires Quiescent(Run(EMPTY, labels))
    ensures var s := Run(EMPTY, labels);
      && (forall c :: At(s, c) == Begun(s, c))
      && At(s, Count) == |s.observers|
      && At(s, Le5) <= At(s, Le10) <= At(s, Le20) <= At(s, Count)
  {
    var s := Run(EMPTY, labels);
    assert Consistent(EMPTY);
    RunConsistent(EMPTY, labels);
    forall c ensures At(s, c) == Begun(s, c) {
      assert At(s, c) == Sum(s.observers, Applied(c));
      SumMonotone(s.observers, Applied(c), Whole(c));
      SumMonotone(s.observers, Whole(c), Applied(c));
    }
    SumMonotone(s.observers, Whole(Le5), Whole(Le10));
    SumMonotone(s.observers, Whole(Le10), Whole(Le20));
    SumMonotone(s.observers, Whole(Le20), Whole(Count));
    CountAll(s.observers);
  }

  lemma {:induction false} CountAll(observers: seq<Observer>)
    ensures Sum(observers, Whole(Count)) == |observers|
  {
    if observers == [] {
    } else {
      CountAll(observers[..|observers| - 1]);
    }
  }

  /** At any single instant no bucket exceeds the count, which is updated first. */
  lemma BucketsNeverExceedCount(labels: seq<Label>, c: Counter)
    requires c != SumUs
    ensures At(Run(EMPTY, labels), c) <= At(Run(EMPTY, labels), Count)
  {
    var s := Run(EMPTY, labels);
    assert Consistent(EMPTY);
    RunConsistent(EMPTY, labels);
    SumMonotone(s.observers, Applied(c), Applied(Count));
    assert At(s, c) == Sum(s.observers, Applied(c)) && At(s, Count) == Sum(s.observers, Applied(Count));
  }

  // ---------- A scrape is not one instant ----------

  /** Whether observation i has added one to counter c. */
  predicate Counted(s: State, i: nat, c: Counter) {
    i < |s.observers| && s.observers[i].phase >= Stage(c) && Amount(s.observers[i].ms, c) == 1
  }

  /** How many of the first n numbers have a property. */
  function Tally(n: nat, p: nat -> bool): nat {
    if n == 0 then 0 else Tally(n - 1, p) + if p(n - 1) then 1 else 0
  }

  lemma {:induction false} TallyNone(n: nat, p: nat -> bool)
    requires forall i: nat :: i < n ==> !p(i)
    ensures Tally(n, p) == 0
  {
    if n == 0 {
    } else {
      TallyNone(n - 1, p);
    }
  }

  lemma {:induction false} TallyDifference(n: nat, p: nat -> bool, q: nat -> bool, onlyP: nat -> bool, onlyQ: nat -> bool)
    requires forall i: nat :: onlyP(i) == (p(i) && !q(i)) && onlyQ(i) == (q(i) && !p(i))
    ensures Tally(n, p) + Tally(n, onlyQ) == Tally(n, q) + Tally(n, onlyP)
  {
    if n == 0 {
    } else {
      TallyDifference(n - 1, p, q, onlyP, onlyQ);
    }
  }

  lemma {:induction false} TallyBeyond(n: nat, m: nat, p: nat -> bool)
    requires n <= m && forall i: nat :: n <= i < m ==> !p(i)
    ensures Tally(m, p) == Tally(n, p)
  {
    if n == m {
    } else {
      TallyBeyond(n, m - 1, p);
    }
  }

  function CountedBy(s: State, c: Counter): nat -> bool {
    (i: nat) => Counted(s, i, c)
  }

  lemma {:induction false} AppliedTally(s: State, observers: seq<Observer>, c: Counter)
    requires c != SumUs && observers <= s.observers
    ensures Sum(observers, Applied(c)) == Tally(|observers|, CountedBy(s, c))
  {
    if observers == [] {
    } else {
      var n := |observers| - 1;
      AppliedTally(s, observers[..n], c);
      assert observers[n] == s.observers[n];
    }
  }

  /** Observations that the counter loaded first, at s, misses and the one loaded later, at t, has. */
  function Crossed(s: State, first: Counter, t: State, later: Counter): nat -> bool {
    (i: nat) => Counted(t, i, later) && !Counted(s, i, first)
  }

  /** Observations that the counter loaded first has and the one loaded later misses. */
  function Missed(s: State, first: Counter, t: State, later: Counter): nat -> bool {
    (i: nat) => Counted(s, i, first) && !Counted(t, i, later)
  }

  lemma {:induction false} ObserversStay(s: State, labels: seq<Label>)
    ensures |s.observers| <= |Run(s, labels).observers|
    ensures forall i :: 0 <= i < |s.observers| ==> s.observers[i].ms == Run(s, labels).observers[i].ms
  {
    if labels == [] {
    } else {
      ObserversStay(s, labels[..|labels| - 1]);
    }
  }

  /** An observation that crosses from the count to a bucket makes both updates between the two loads. */
  lemma CrossedMadeBoth(s: State, during: seq<Label>, c: Counter, i: nat)
    requires c != SumUs && c != Count
    ensures var t := Run(s, during);
      Crossed(s, Count, t, c)(i)
      <==> !Counted(s, i, Count) && !Counted(s, i, c) && Counted(t, i, Count) && Counted(t, i, c)
  {
    ObserversStay(s, during);
  }

  /** What two loads of a scrape show differs by the observations counted in one of them only. */
  lemma LoadsCompared(before: seq<Label>, during: seq<Label>, first: Counter, later: Counter)
    requires first != SumUs && later != SumUs
    ensures var s := Run(EMPTY, before); var t := Run(s, during); var n := |t.observers|;
      At(t, later) + Tally(n, Missed(s, first, t, later)) == At(s, first) + Tally(n, Crossed(s, first, t, later))
  {
    var s := Run(EMPTY, before);
    var t := Run(s, during);
    var n := |t.observers|;
    assert Consistent(EMPTY);
    RunConsistent(EMPTY, before);
    RunConsistent(s, during);
    ObserversStay(s, during);
    AppliedTally(s, s.observers, first);
    AppliedTally(t, t.observers, later);
    TallyBeyond(|s.observers|, n, CountedBy(s, first));
    TallyDifference(n, CountedBy(t, later), CountedBy(s, first), Crossed(s, first, t, later), Missed(s, first, t, later));
  }

  /** The values one scrape shows; between its five loads the observers move on. */
  datatype Scrape = Scrape(sumUs: nat, count: nat, le5: nat, le10: nat, le20: nat)

  function Scraped(s: State, d1: seq<Label>, d2: seq<Label>, d3: seq<Label>, d4: seq<Label>): Scrape {
    var s1 := Run(s, d1);
    var s2 := Run(s1, d2);
    var s3 := Run(s2, d3);
    Scrape(At(s, SumUs), At(s1, Count), At(s2, Le5), At(s3, Le10), At(Run(s3, d4), Le20))
  }

  /** No more observations have made both their Count and their c update between the two loads than have been counted
      before them and are not in bucket c at the second. */
  predicate CrossingsMadeUp(s: State, t: State, c: Counter) {
    Tally(|t.observers|, Crossed(s, Count, t, c)) <= Tally(|t.observers|, Missed(s, Count, t, c))
  }

  /** Exactly when a scrape shows each bucket within the count. */
  lemma ScrapeWithinCount(before: seq<Label>, d1: seq<Label>, d2: seq<Label>, d3: seq<Label>, d4: seq<Label>)
    ensures var start := Run(EMPTY, before);
      var shown := Scraped(start, d1, d2, d3, d4);
      var s := Run(start, d1);
      && (shown.le5 <= shown.count <==> CrossingsMadeUp(s, Run(s, d2), Le5))
      && (shown.le10 <= shown.count <==> CrossingsMadeUp(s, Run(s, d2 + d3), Le10))
      && (shown.le20 <= shown.count <==> CrossingsMadeUp(s, Run(s, d2 + d3 + d4), Le20))
  {
    var s := Run(EMPTY, before + d1);
    ExecuteConcat(Next, EMPTY, before, d1);
    ExecuteConcat(Next, s, d2, d3);
    ExecuteConcat(Next, s, d2 + d3, d4);
    LoadsCompared(before + d1, d2, Count, Le5);
    LoadsCompared(before + d1, d2 + d3, Count, Le10);
    LoadsCompared(before + d1, d2 + d3 + d4, Count, Le20);
  }

  /** Exactly when a scrape shows its buckets nested. */
  lemma ScrapeNested(before: seq<Label>, d1: seq<Label>, d2: seq<Label>, d3: seq<Label>, d4: seq<Label>)
    ensures var start := Run(EMPTY, before);
      var shown := Scraped(start, d1, d2, d3, d4);
      var s2 := Run(Run(start, d1), d2); var s3 := Run(s2, d3); var s4 := Run(s3, d4);
      && (shown.le5 <= shown.le10
          <==> Tally(|s3.observers|, Missed(s2, Le5, s3, Le10)) <= Tally(|s3.observers|, Crossed(s2, Le5, s3, Le10)))
      && (shown.le10 <= shown.le20
          <==> Tally(|s4.observers|, Missed(s3, Le10, s4, Le20)) <= Tally(|s4.observers|, Crossed(s3, Le10, s4, Le20)))
  {
    ExecuteConcat(Next, EMPTY, before, d1);
    ExecuteConcat(Next, EMPTY, before + d1, d2);
    ExecuteConcat(Next, EMPTY, before + d1 + d2, d3);
    LoadsCompared(before + d1 + d2, d3, Le5, Le10);
    LoadsCompared(before + d1 + d2 + d3, d4, Le10, Le20);
  }

  /** A step that updates the count. */
  predicate UpdatesCount(s: State, l: Label) {
    l.Advance? && l.observer < |s.observers| && s.observers[l.observer].phase == Stage(Count) - 1
  }

  /** Whoever has been counted had been before. */
  ghost predicate NoneNewlyCounted(s: State, t: State) {
    forall i: nat :: i < |t.observers| && t.observers[i].phase >= Stage(Count) ==>
      i < |s.observers| && s.observers[i].phase >= Stage(Count) && t.observers[i].ms == s.observers[i].ms
  }

  lemma StepCountsNone(s: State, t: State, l: Label)
    requires NoneNewlyCounted(s, t) && !UpdatesCount(t, l)
    ensures NoneNewlyCounted(s, Next(t, l))
  {
    var t' := Next(t, l);
    forall i: nat | i < |t'.observers| && t'.observers[i].phase >= Stage(Count)
      ensures i < |s.observers| && s.observers[i].phase >= Stage(Count) && t'.observers[i].ms == s.observers[i].ms
    {
      assert i < |t.observers| && t.observers[i].phase >= Stage(Count) && t'.observers[i].ms == t.observers[i].ms;
    }
  }

  lemma {:induction false} CountedStay(s: State, during: seq<Label>)
    requires forall k: nat :: k < |during| ==> !UpdatesCount(Run(s, during[..k]), during[k])
    ensures NoneNewlyCounted(s, Run(s, during))
  {
    if during == [] {
    } else {
      var n := |during| - 1;
      forall k: nat | k < n ensures !UpdatesCount(Run(s, during[..n][..k]), during[..n][k]) {
        assert during[..n][..k] == during[..k];
      }
      CountedStay(s, during[..n]);
      StepCountsNone(s, Run(s, during[..n]), during[n]);
    }
  }

  /** A scrape during which nothing is counted shows no bucket above the count. */
  lemma QuietScrapeWithinCount(before: seq<Label>, during: seq<Label>, c: Counter)
    requires c != SumUs
    requires var s := Run(EMPTY, before);
      forall k: nat :: k < |during| ==> !UpdatesCount(Run(s, during[..k]), during[k])
    ensures At(Run(Run(EMPTY, before), during), c) <= At(Run(EMPTY, before), Count)
  {
    var s := Run(EMPTY, before);
    var t := Run(s, during);
    LoadsCompared(before, during, Count, c);
    CountedStay(s, during);
    TallyNone(|t.observers|, Crossed(s, Count, t, c));
  }

  /** An observation between the loads can show in the le 5 bucket of a scrape and not in its count. */
  lemma ScrapeCanExceedCount() returns (between: seq<Label>)
    ensures Scraped(EMPTY, [], between, [], []).count == 0 && Scraped(EMPTY, [], between, [], []).le5 == 1
  {
    between := [Begin(1.0), Advance(0), Advance(0), Advance(0)];
    var s1 := Next(EMPTY, Begin(1.0));
    var s2 := Next(s1, Advance(0));
    var s3 := Next(s2, Advance(0));
    var s4 := Next(s3, Advance(0));
    var step := Next;
    assert between[..3] == [Begin(1.0), Advance(0), Advance(0)] && between[..3][..2] == [Begin(1.0), Advance(0)];
    assert between[..3][..2][..1] == [Begin(1.0)] && between[..3][..2][..1][..0] == [];
    assert Execute(step, EMPTY, [Begin(1.0)]) == s1;
    assert Execute(step, EMPTY, [Begin(1.0), Advance(0)]) == s2;
    assert Execute(step, EMPTY, [Begin(1.0), Advance(0), Advance(0)]) == s3;
    assert Run(EMPTY, between) == s4;
  }

  // ---------- The sum ----------

  /** The exact sum of the observed values in microseconds. */
  function ExactMicros(observers: seq<Observer>): real {
    if observers == [] then 0.0
    else ExactMicros(observers[..|observers| - 1]) + observers[|observers| - 1].ms * 1000.0
  }

  ghost predicate InDoubleRange(observers: seq<Observer>) {
    forall o :: o in observers ==> 0.0 <= o.ms * 1000.0 < 2.0 * DOUBLE as real
  }

  lemma {:induction false} TruncationLag(observers: seq<Observer>)
    requires InDoubleRange(observers)
    ensures var lag := ExactMicros(observers) - Sum(observers, Whole(SumUs)) as real;
      -(|observers| as real) / 2.0 <= lag <= |observers| as real && (observers != [] ==> lag < |observers| as real)
  {
    if observers == [] {
    } else {
      var n := |observers| - 1;
      TruncationLag(observers[..n]);
      TruncationBounds(observers[n].ms * 1000.0);
    }
  }

  /** With no observation in flight the sum shown is less than a microsecond per observation below the exact one, and
      at most half a microsecond per observation above it. */
  lemma QuiescentSum(labels: seq<Label>)
    requires Quiescent(Run(EMPTY, labels)) && InDoubleRange(Run(EMPTY, labels).observers)
    ensures var s := Run(EMPTY, labels);
      var lag := ExactMicros(s.observers) - At(s, SumUs) as real;
      && -(At(s, Count) as real) / 2.0 <= lag <= At(s, Count) as real
      && (s.observers != [] ==> lag < At(s, Count) as real)
  {
    QuiescentExact(labels);
    TruncationLag(Run(EMPTY, labels).observers);
  }

  function Itself(): nat -> nat {
    (us: nat) => us
  }

  function Short(): nat -> nat {
    (us: nat) => if us < DOUBLE && LosesOne(us) then 1 else 0
  }

  lemma {:induction false} SumOfLatencies(observers: seq<Observer>, latencies: seq<nat>)
    requires |observers| == |latencies|
    requires forall i :: 0 <= i < |latencies| ==> latencies[i] < DOUBLE && observers[i].ms == Millis(latencies[i])
    ensures Sum(observers, Whole(SumUs)) == Sum(latencies, Itself()) - Sum(latencies, Short())
  {
    if observers == [] {
    } else {
      var n := |observers| - 1;
      SumOfLatencies(observers[..n], latencies[..n]);
      MillisAndBack(latencies[n]);
    }
  }

  /** Of dispatch latencies in whole microseconds the sum shown is the exact one less one for each latency that the
      conversion leaves short. */
  lemma QuiescentSumOfLatencies(labels: seq<Label>, latencies: seq<nat>)
    requires Quiescent(Run(EMPTY, labels)) && |Run(EMPTY, labels).observers| == |latencies|
    requires forall i :: 0 <= i < |latencies| ==>
      latencies[i] < DOUBLE && Run(EMPTY, labels).observers[i].ms == Millis(latencies[i])
    ensures At(Run(EMPTY, labels), SumUs) == Sum(latencies, Itself()) - Sum(latencies, Short())
  {
    QuiescentExact(labels);
    SumOfLatencies(Run(EMPTY, labels).observers, latencies);
  }
}

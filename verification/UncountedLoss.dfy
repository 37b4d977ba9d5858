/** The specification promises that the ring buffer consumer counts the events it drops. The code only logs them: here is
    a run that loses an event while every loss counter, shared, per probe and per snapshot, stays at zero. */
module UncountedLoss {
  import opened Prelude
  import opened Machines
  import opened Events
  import opened Metrics
  import opened Mapping
  import opened Osc
  import opened Pipeline
  import opened Conservation

  /** One event on its way from the only probe through the consumer. */
  function Round(e: RawEvent): Schedule {
    [Offer(0, e), ProbeStep(0), ProbeStep(0), ConsumerStep, ConsumerStep]
  }

  function Rounds(e: RawEvent, k: nat): Schedule {
    if k == 0 then [] else Rounds(e, k - 1) + Round(e)
  }

  function Copies<T>(x: T, k: nat): (c: seq<T>)
    ensures |c| == k
  {
    if k == 0 then [] else Copies(x, k - 1) + [x]
  }

  function Idle(): State {
    Initial(1, 50, None, None, None, None)
  }

  /** The state after k rounds in which the aggregator never ran and its queue has not overflowed. */
  function Filled(e: RawEvent, k: nat): State {
    Idle().(
      probes := [Probe(k, 0, if k == 0 then 0 else e.timestampNs / 1000, Ready)],
      aggQueue := Copies(e, k),
      log := Idle().log.(accepted := Copies(e, k), verdicts := Copies(true, k)))
  }

  lemma RunOfFive(math: MathLibrary, s: State, a: Label, b: Label, c: Label, d: Label, e: Label)
    ensures Run(math, s, [a, b, c, d, e])
         == Next(math, Next(math, Next(math, Next(math, Next(math, s, a), b), c), d), e)
  {
    var all := [a, b, c, d, e];
    assert all[..4] == [a, b, c, d] && all[..4][..3] == [a, b, c] && all[..4][..3][..2] == [a, b]
        && all[..4][..3][..2][..1] == [a] && all[..4][..3][..2][..1][..0] == [];
    var step := Stepper(math);
    assert Execute(step, s, [a]) == step(s, a);
    assert Execute(step, s, [a, b]) == step(Execute(step, s, [a]), b);
    assert Execute(step, s, [a, b, c]) == step(Execute(step, s, [a, b]), c);
    assert Execute(step, s, [a, b, c, d]) == step(Execute(step, s, [a, b, c]), d);
    assert Execute(step, s, all) == step(Execute(step, s, [a, b, c, d]), e);
  }

  /** What one round does to a daemon at rest with one probe. */
  function AfterRound(s: State, e: RawEvent): State
    requires |s.probes| == 1
  {
    var p := s.probes[0];
    s.(probes := [Probe(p.eventsTotal + 1, p.eventsLost, e.timestampNs / 1000, Ready)],
       aggQueue := Offered(s.aggQueue, AGG_CAPACITY, e),
       log := s.log.(accepted := s.log.accepted + [e],
                     verdicts := s.log.verdicts + [|s.aggQueue| < AGG_CAPACITY]))
  }

  lemma SendInRound(math: MathLibrary, s: State, e: RawEvent)
    requires |s.probes| == 1 && s.probes[0].phase.Ready? && s.rawQueue == []
    ensures Next(math, Next(math, Next(math, s, Offer(0, e)), ProbeStep(0)), ProbeStep(0))
         == s.(rawQueue := [e],
               probes := [Probe(s.probes[0].eventsTotal + 1, s.probes[0].eventsLost, e.timestampNs / 1000, Ready)],
               log := s.log.(accepted := s.log.accepted + [e]))
  {
    var p := s.probes[0];
    var us := e.timestampNs / 1000;
    var s1 := s.(rawQueue := [e], probes := [p.(phase := Sent(us))], log := s.log.(accepted := s.log.accepted + [e]));
    assert OfferEvent(s, 0, e) == s1;
    var s2 := s1.(probes := [Probe(p.eventsTotal + 1, p.eventsLost, p.lastEventUs, Counted(us))]);
    assert AdvanceProbe(s1, 0) == s2;
    assert AdvanceProbe(s2, 0).probes == [Probe(p.eventsTotal + 1, p.eventsLost, us, Ready)];
  }

  lemma ForwardInRound(math: MathLibrary, s: State, e: RawEvent)
    requires s.rawQueue == [e] && s.consumer.None? && s.database.None?
    ensures Next(math, Next(math, s, ConsumerStep), ConsumerStep)
         == s.(rawQueue := [], aggQueue := Offered(s.aggQueue, AGG_CAPACITY, e),
               log := s.log.(verdicts := s.log.verdicts + [|s.aggQueue| < AGG_CAPACITY]))
  {
    assert AdvanceConsumer(s) == s.(rawQueue := [], consumer := Some(e));
  }

  lemma OneRound(math: MathLibrary, s: State, e: RawEvent)
    requires |s.probes| == 1 && s.probes[0].phase.Ready?
    requires s.rawQueue == [] && s.consumer.None? && s.database.None?
    ensures Run(math, s, Round(e)) == AfterRound(s, e)
  {
    RunOfFive(math, s, Offer(0, e), ProbeStep(0), ProbeStep(0), ConsumerStep, ConsumerStep);
    SendInRound(math, s, e);
    var sent := Next(math, Next(math, Next(math, s, Offer(0, e)), ProbeStep(0)), ProbeStep(0));
    ForwardInRound(math, sent, e);
  }

  /** While the aggregator's queue has room, one more round fills one more place. */
  lemma RoundFills(e: RawEvent, k: nat)
    requires k < AGG_CAPACITY
    ensures AfterRound(Filled(e, k), e) == Filled(e, k + 1)
  {
    var s, t := Filled(e, k), Filled(e, k + 1);
    assert Offered(s.aggQueue, AGG_CAPACITY, e) == t.aggQueue;
    assert s.log.accepted + [e] == t.log.accepted;
    assert s.log.verdicts + [true] == t.log.verdicts;
  }

  lemma OneMoreRound(math: MathLibrary, s: State, e: RawEvent, k: nat)
    ensures Run(math, s, Rounds(e, k + 1)) == Run(math, Run(math, s, Rounds(e, k)), Round(e))
  {
    ExecuteConcat(Stepper(math), s, Rounds(e, k), Round(e));
  }

  lemma {:induction false} QueueFills(math: MathLibrary, e: RawEvent, k: nat)
    requires k <= AGG_CAPACITY
    ensures Run(math, Idle(), Rounds(e, k)) == Filled(e, k)
  {
    if k == 0 {
    } else {
      QueueFills(math, e, k - 1);
      OneMoreRound(math, Idle(), e, k - 1);
      OneRound(math, Filled(e, k - 1), e);
      RoundFills(e, k - 1);
    }
  }

  /** 2049 events in a row, with the aggregator kept from running, lose the last one without a trace in any counter. */
  lemma DropWithoutTrace(math: MathLibrary, e: RawEvent)
    ensures var s := Run(math, Idle(), Rounds(e, AGG_CAPACITY + 1));
      && |s.log.verdicts| <= |s.log.accepted| && DroppedAtConsumer(s) == [e]
      && s.log.refused == 0 && s.cumulativeLost == 0 && s.log.built == []
      && s.probes == [Probe(AGG_CAPACITY + 1, 0, e.timestampNs / 1000, Ready)]
  {
    QueueFills(math, e, AGG_CAPACITY);
    OneMoreRound(math, Idle(), e, AGG_CAPACITY);
    var full := Filled(e, AGG_CAPACITY);
    OneRound(math, full, e);
    NothingDropped(full.log.accepted, AGG_CAPACITY);
    ChosenOfPrefix(full.log.accepted, [e], full.log.verdicts, false);
    ChosenSnoc(full.log.accepted + [e], full.log.verdicts, false, false);
  }

  lemma {:induction false} NothingDropped(xs: seq<RawEvent>, k: nat)
    requires k <= |xs|
    ensures Chosen(xs, Copies(true, k), false) == []
  {
    if k == 0 {
    } else {
      NothingDropped(xs, k - 1);
    }
  }
}

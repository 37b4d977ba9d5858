/** Storage never alters the audio output: the daemon with persistence simulates the daemon without it. */
module NonInterference {
  import opened Prelude
  import opened Machines
  import opened Events
  import opened Mapping
  import opened Pipeline

  /** The same daemon without persistence. */
  function Erased(s: State): State {
    s.(database := None)
  }

  function OfDatabaseTask(): Label -> bool {
    (l: Label) => OfDatabase(l)
  }

  function Erase(): State -> State {
    (s: State) => Erased(s)
  }

  /** The schedule without the actions of database tasks. */
  function AudioSchedule(schedule: Schedule): Schedule {
    Visible(OfDatabaseTask(), schedule)
  }

  lemma ProbesErased(s: State, i: nat)
    ensures Erased(AdvanceProbe(s, i)) == AdvanceProbe(Erased(s), i)
  {
  }

  lemma ConsumerErased(s: State)
    ensures Erased(AdvanceConsumer(s)) == AdvanceConsumer(Erased(s))
  {
  }

  lemma TickErased(s: State)
    ensures Erased(AdvanceTick(s)) == AdvanceTick(Erased(s))
  {
  }

  lemma MapperErased(math: MathLibrary, s: State)
    ensures Erased(AdvanceMapper(math, s)) == AdvanceMapper(math, Erased(s))
  {
  }

  lemma DispatcherErased(s: State, encodes: bool)
    ensures Erased(AdvanceDispatcher(s, encodes)) == AdvanceDispatcher(Erased(s), encodes)
  {
  }

  lemma OfferErased(s: State, i: nat, e: RawEvent)
    ensures Erased(OfferEvent(s, i, e)) == OfferEvent(Erased(s), i, e)
  {
  }

  lemma ReceiveErased(s: State)
    ensures Erased(ReceiveEvent(s)) == ReceiveEvent(Erased(s))
  {
  }

  lemma DatabaseErased(math: MathLibrary, s: State, l: Label)
    requires OfDatabase(l)
    ensures Erased(Next(math, s, l)) == Erased(s)
  {
  }

  lemma AudioErased(math: MathLibrary, s: State, l: Label)
    requires !OfDatabase(l)
    ensures Erased(Next(math, s, l)) == Next(math, Erased(s), l)
  {
    match l
    case ProbeStep(i) => ProbesErased(s, i);
    case ConsumerStep => ConsumerErased(s);
    case AggregatorTick => TickErased(s);
    case MapperStep => MapperErased(math, s);
    case DispatcherStep(encodes) => DispatcherErased(s, encodes);
    case Offer(i, e) => OfferErased(s, i, e);
    case AggregatorReceive => ReceiveErased(s);
    case SetClock(_) =>
    case SetRules(_) =>
    case SetBackends(_) =>
  }

  /** One action: a database task is invisible without the database; any other action commutes with forgetting it. */
  lemma StepErased(math: MathLibrary, s: State, l: Label)
    ensures Erased(Next(math, s, l)) == if OfDatabase(l) then Erased(s) else Next(math, Erased(s), l)
  {
    if OfDatabase(l) {
      DatabaseErased(math, s, l);
    } else {
      AudioErased(math, s, l);
    }
  }

  /** Erasing the database, its queues, failures and actions from any run gives a run of the daemon without it, and
      nothing but the database differs at its end. */
  lemma RunErased(math: MathLibrary, s: State, schedule: Schedule)
    ensures Erased(Run(math, s, schedule)) == Run(math, Erased(s), AudioSchedule(schedule))
  {
    forall t, l
      ensures OfDatabaseTask()(l) ==> Erase()(Stepper(math)(t, l)) == Erase()(t)
      ensures !OfDatabaseTask()(l) ==> Erase()(Stepper(math)(t, l)) == Stepper(math)(Erase()(t), l)
    {
      StepErased(math, t, l);
    }
    SimulationByForgetting(Stepper(math), Erase(), OfDatabaseTask(), s, schedule);
  }

  /** Two daemons that differ only in their databases, under schedules that differ only in database actions and their
      outcomes, send the same packets, record the same latencies and agree in everything outside the database. */
  lemma StorageNeverAltersAudio(math: MathLibrary, s1: State, s2: State, schedule1: Schedule, schedule2: Schedule)
    requires Erased(s1) == Erased(s2)
    requires AudioSchedule(schedule1) == AudioSchedule(schedule2)
    ensures Erased(Run(math, s1, schedule1)) == Erased(Run(math, s2, schedule2))
    ensures Run(math, s1, schedule1).log.dispatched == Run(math, s2, schedule2).log.dispatched
    ensures Run(math, s1, schedule1).log.samples == Run(math, s2, schedule2).log.samples
  {
    RunErased(math, s1, schedule1);
    RunErased(math, s2, schedule2);
    var t1, t2 := Run(math, s1, schedule1), Run(math, s2, schedule2);
    assert Erased(t1).log == t1.log && Erased(t2).log == t2.log;
  }
}

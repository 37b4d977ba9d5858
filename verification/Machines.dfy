/** State machines in general: runs, invariants of runs, and simulation by forgetting part of the state. */
module Machines {

  type Step<!S, !L> = (S, L) -> S

  function Execute<S, L>(next: Step<S, L>, s: S, labels: seq<L>): S {
    if labels == [] then s else next(Execute(next, s, labels[..|labels| - 1]), labels[|labels| - 1])
  }

  lemma {:induction false} ExecuteConcat<S, L>(next: Step<S, L>, s: S, first: seq<L>, second: seq<L>)
    ensures Execute(next, s, first + second) == Execute(next, Execute(next, s, first), second)
  {
    if second == [] {
      assert first + second == first;
    } else {
      var n := |second| - 1;
      ExecuteConcat(next, s, first, second[..n]);
      assert (first + second)[..|first| + n] == first + second[..n];
    }
  }

  lemma {:induction false} InvariantOfRuns<S(!new), L(!new)>(next: Step<S, L>, inv: S -> bool, s: S, labels: seq<L>)
    requires inv(s)
    requires forall t, l :: inv(t) ==> inv(next(t, l))
    ensures inv(Execute(next, s, labels))
  {
    if labels == [] {
    } else {
      InvariantOfRuns(next, inv, s, labels[..|labels| - 1]);
    }
  }

  /** Some step of the run meets the event: it starts from such a state with such a label. */
  ghost predicate Happens<S, L>(next: Step<S, L>, s: S, labels: seq<L>, event: (S, L) -> bool) {
    exists k: nat | k < |labels| :: event(Execute(next, s, labels[..k]), labels[k])
  }

  lemma HappensSnoc<S, L>(next: Step<S, L>, s: S, labels: seq<L>, event: (S, L) -> bool)
    requires labels != []
    ensures var n := |labels| - 1;
      Happens(next, s, labels, event)
      <==> Happens(next, s, labels[..n], event) || event(Execute(next, s, labels[..n]), labels[n])
  {
    var n := |labels| - 1;
    var before := labels[..n];
    if Happens(next, s, before, event) {
      var k: nat :| k < n && event(Execute(next, s, before[..k]), before[k]);
      assert before[..k] == labels[..k] && before[k] == labels[k];
    }
    if Happens(next, s, labels, event) {
      var k: nat :| k < |labels| && event(Execute(next, s, labels[..k]), labels[k]);
      if k < n {
        assert before[..k] == labels[..k] && before[k] == labels[k];
      }
    }
  }

  /** What only the event can bring about has been brought about only if it has happened; and if nothing undoes it and
      the event always brings it about, exactly then. */
  lemma {:induction false} CausedByEvent<S(!new), L(!new)>(next: Step<S, L>, inv: S -> bool, s: S, labels: seq<L>,
                                                           fact: S -> bool, event: (S, L) -> bool)
    requires inv(s) && !fact(s)
    requires forall t, l :: inv(t) ==> inv(next(t, l)) && (fact(next(t, l)) ==> fact(t) || event(t, l))
    ensures inv(Execute(next, s, labels))
    ensures fact(Execute(next, s, labels)) ==> Happens(next, s, labels, event)
    ensures (forall t, l :: inv(t) && (fact(t) || event(t, l)) ==> fact(next(t, l))) ==>
      (Happens(next, s, labels, event) ==> fact(Execute(next, s, labels)))
  {
    if labels == [] {
    } else {
      CausedByEvent(next, inv, s, labels[..|labels| - 1], fact, event);
      HappensSnoc(next, s, labels, event);
    }
  }

  /** What every step keeps that is no trouble, a run without trouble keeps. */
  lemma {:induction false} InvariantWithoutTrouble<S(!new), L(!new)>(next: Step<S, L>, inv: S -> bool, trouble: (S, L) -> bool,
                                                                     s: S, labels: seq<L>)
    requires inv(s) && !Happens(next, s, labels, trouble)
    requires forall t, l :: inv(t) && !trouble(t, l) ==> inv(next(t, l))
    ensures inv(Execute(next, s, labels))
  {
    if labels == [] {
    } else {
      HappensSnoc(next, s, labels, trouble);
      InvariantWithoutTrouble(next, inv, trouble, s, labels[..|labels| - 1]);
    }
  }

  /** The labels that are not hidden, in order. */
  function Visible<L>(hidden: L -> bool, labels: seq<L>): seq<L> {
    if labels == [] then []
    else
      var n := |labels| - 1;
      Visible(hidden, labels[..n]) + if hidden(labels[n]) then [] else [labels[n]]
  }

  /** If hidden labels change nothing that forgetting keeps, and all others commute with forgetting, then forgetting
      after a run is the run of the visible labels after forgetting. */
  lemma {:induction false} SimulationByForgetting<S(!new), L(!new)>(next: Step<S, L>, forget: S -> S, hidden: L -> bool,
                                                                    s: S, labels: seq<L>)
    requires forall t, l :: hidden(l) ==> forget(next(t, l)) == forget(t)
    requires forall t, l :: !hidden(l) ==> forget(next(t, l)) == next(forget(t), l)
    ensures forget(Execute(next, s, labels)) == Execute(next, forget(s), Visible(hidden, labels))
  {
    if labels == [] {
    } else {
      var n := |labels| - 1;
      var shown := Visible(hidden, labels[..n]);
      SimulationByForgetting(next, forget, hidden, s, labels[..n]);
      if hidden(labels[n]) {
        assert Visible(hidden, labels) == shown;
      } else {
        assert Visible(hidden, labels) == shown + [labels[n]];
        assert (shown + [labels[n]])[..|shown|] == shown;
      }
    }
  }
}

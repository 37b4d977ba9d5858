/** How far a single window reaches: from its raw metrics through smoothing, normalisation and a linear rule to the values
    of every later packet. */
module Sensitivity {
  import opened Prelude
  import opened Events
  import opened Metrics
  import opened Smoothing
  import opened Aggregation
  import opened Mapping
  import opened Pipeline
  import opened Conservation
  import opened Delivery

  /** How far metric k of a snapshot can move, after n windows, when window i changes its raw value by d. */
  function Shift(k: Metric, n: nat, i: nat, d: real): real
    requires i < n
  {
    Abs(Influence(n, i, d)) / (RangeMax(k) - RangeMin(k))
  }

  /** How far the exchange of window i by another moves metric k. */
  function Exchange(windows: Windows, i: nat, other: seq<RawEvent>, k: Metric): real
    requires i < |windows|
  {
    Shift(k, |windows|, i, RawValue(k)(other) - RawValue(k)(windows[i]))
  }

  /** Exchanging one window moves the value of a linear rule by at most 0.3 * 0.7^age times the change of the raw metric,
      over the normalisation range, times output span over input span. */
  lemma WindowInfluenceOnValue(math: MathLibrary, windows: Windows, i: nat, other: seq<RawEvent>, rule: MappingRule, k: Metric)
    requires i < |windows| && LinearRule(rule)
    ensures Abs(ApplyRule(math, rule, NormalizedMetric(windows[i := other], k))
                - ApplyRule(math, rule, NormalizedMetric(windows, k)))
         <= Amplified(rule, Exchange(windows, i, other, k))
  {
    var x, y := NormalizedMetric(windows[i := other], k), NormalizedMetric(windows, k);
    WindowInfluenceOnSnapshot(windows, i, other, k, RawValue(k)(other) - RawValue(k)(windows[i]));
    LinearSensitivity(math, rule, x, y, Exchange(windows, i, other, k));
  }

  /** Two frames for the same addresses in the same order, in which the values of linear rules are close. */
  ghost predicate FramesClose(p1: seq<MappedParam>, p2: seq<MappedParam>, active: seq<MappingRule>, bound: RuleValue) {
    && |p1| == |p2| == |active|
    && (forall j :: 0 <= j < |active| ==>
          && p1[j].oscAddress == p2[j].oscAddress == active[j].oscAddress && KnownMetric(active[j].sourceMetric).Some?
          && (LinearRule(active[j]) ==>
                Abs(p2[j].value - p1[j].value) <= bound(active[j], KnownMetric(active[j].sourceMetric).value)))
  }

  lemma CloseValues(p1: seq<MappedParam>, p2: seq<MappedParam>, active: seq<MappingRule>,
                    v1: RuleValue, v2: RuleValue, bound: RuleValue)
    requires FrameOf(p1, active, v1) && FrameOf(p2, active, v2)
    requires forall rule, k :: LinearRule(rule) ==> Abs(v2(rule, k) - v1(rule, k)) <= bound(rule, k)
    ensures FramesClose(p1, p2, active, bound)
  {
  }

  function ExchangeBound(windows: Windows, i: nat, other: seq<RawEvent>): RuleValue
    requires i < |windows|
  {
    (rule: MappingRule, k: Metric) =>
      if rule.inMin < rule.inMax then Amplified(rule, Exchange(windows, i, other, k)) else 0.0
  }

  lemma ValueAtSnapshot(math: MathLibrary, windows: Windows, rule: MappingRule, k: Metric)
    ensures ValueAt(math, Normalize(FilterAfter(windows).emas))(rule, k)
         == ApplyRule(math, rule, NormalizedMetric(windows, k))
  {
    assert Normalize(FilterAfter(windows).emas).At(k) == NormalizedMetric(windows, k);
  }

  lemma ValuesMove(math: MathLibrary, windows: Windows, i: nat, other: seq<RawEvent>, rule: MappingRule, k: Metric,
                   v1: RuleValue, v2: RuleValue)
    requires i < |windows| && LinearRule(rule)
    requires v1(rule, k) == ApplyRule(math, rule, NormalizedMetric(windows, k))
    requires v2(rule, k) == ApplyRule(math, rule, NormalizedMetric(windows[i := other], k))
    ensures Abs(v2(rule, k) - v1(rule, k)) <= ExchangeBound(windows, i, other)(rule, k)
  {
    WindowInfluenceOnValue(math, windows, i, other, rule, k);
  }

  lemma FramesAfterExchange(math: MathLibrary, rules: seq<MappingRule>, windows: Windows, i: nat, other: seq<RawEvent>)
    requires i < |windows|
    ensures FramesClose(MapParams(math, rules, Normalize(FilterAfter(windows).emas)),
                        MapParams(math, rules, Normalize(FilterAfter(windows[i := other]).emas)),
                        ActiveRules(rules), ExchangeBound(windows, i, other))
  {
    var m1, m2 := Normalize(FilterAfter(windows).emas), Normalize(FilterAfter(windows[i := other]).emas);
    var v1, v2 := ValueAt(math, m1), ValueAt(math, m2);
    FrameOfRules(math, rules, m1);
    FrameOfRules(math, rules, m2);
    forall rule, k | LinearRule(rule) ensures Abs(v2(rule, k) - v1(rule, k)) <= ExchangeBound(windows, i, other)(rule, k) {
      ValueAtSnapshot(math, windows, rule, k);
      ValueAtSnapshot(math, windows[i := other], rule, k);
      ValuesMove(math, windows, i, other, rule, k, v1, v2);
    }
    CloseValues(MapParams(math, rules, m1), MapParams(math, rules, m2), ActiveRules(rules), v1, v2,
                ExchangeBound(windows, i, other));
  }

  /** Two runs that differ in one window send, for snapshots of the same number mapped by the same rules, parameters for
      the same addresses in the same order, and those of linear rules are as close as that (before the cast to single). */
  lemma WindowInfluenceOnPackets(math: MathLibrary, start1: State, schedule1: Schedule, start2: State, schedule2: Schedule,
                                 d1: Dispatch, d2: Dispatch, i: nat, other: seq<RawEvent>)
    requires Started(start1) && d1 in Run(math, start1, schedule1).log.dispatched
    requires Started(start2) && d2 in Run(math, start2, schedule2).log.dispatched
    requires d1.frame.no == d2.frame.no && d1.frame.rules == d2.frame.rules
    requires i <= d1.frame.no < |Aggregated(Run(math, start1, schedule1))|
    requires d1.frame.no < |Aggregated(Run(math, start2, schedule2))|
    requires Aggregated(Run(math, start2, schedule2))[..d1.frame.no + 1]
          == Aggregated(Run(math, start1, schedule1))[..d1.frame.no + 1][i := other]
    ensures FramesClose(d1.frame.params, d2.frame.params, ActiveRules(d1.frame.rules),
                        ExchangeBound(Aggregated(Run(math, start1, schedule1))[..d1.frame.no + 1], i, other))
  {
    PacketsFromWindows(math, start1, schedule1, d1);
    PacketsFromWindows(math, start2, schedule2, d2);
    FramesAfterExchange(math, d1.frame.rules, Aggregated(Run(math, start1, schedule1))[..d1.frame.no + 1], i, other);
  }
}

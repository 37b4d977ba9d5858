/** Mapping rules: normalised metrics become control parameters through one of four transforms. */
module Mapping {
  import opened Prelude
  import opened Metrics

  const FRAME_CAPACITY: nat := 256

  datatype MappingRule = MappingRule(
    sourceMetric: string,
    oscAddress: string,
    transform: string,
    inMin: real,
    inMax: real,
    outMin: real,
    outMax: real)

  datatype MappedParam = MappedParam(oscAddress: string, value: real)

  // ---------- Library functions ----------

  /** The power and natural logarithm of the standard library. */
  datatype MathFunctions = MathFunctions(pow: (real, real) -> real, ln: real -> real)

  ghost predicate PowerLaws(pow: (real, real) -> real) {
    && (forall b {:trigger pow(b, 0.0)} {:trigger pow(b, 1.0)} :: b > 0.0 ==> pow(b, 0.0) == 1.0 && pow(b, 1.0) == b)
    && (forall b, d, e {:trigger pow(b, d), pow(b, e)} :: 0.0 <= d <= e <= 1.0 && b >= 1.0 ==> pow(b, d) <= pow(b, e))
    && (forall b, d, e {:trigger pow(b, d), pow(b, e)} :: 0.0 <= d <= e <= 1.0 && 0.0 < b <= 1.0 ==> pow(b, e) <= pow(b, d))
  }

  ghost predicate LogarithmLaws(ln: real -> real) {
    ln(1.0) == 0.0 && ln(10.0) > 0.0 && forall x, y :: 1.0 <= x <= y ==> ln(x) <= ln(y)
  }

  ghost predicate Lawful(m: MathFunctions) {
    PowerLaws(m.pow) && LogarithmLaws(m.ln)
  }

  /** Any power and logarithm that obey the elementary laws the two curves rely on. */
  type MathLibrary = m: MathFunctions | Lawful(m)
    witness MathFunctions((b, e) => 1.0 + (b - 1.0) * e, x => x - 1.0)

  // ---------- Transforms ----------

  datatype Curve = Exponential | Logarithmic | Step | Linear

  function ToLower(s: string): (t: string)
    ensures |t| == |s|
  {
    seq(|s|, i requires 0 <= i < |s| =>
      if 'A' <= s[i] <= 'Z' then (s[i] as int - 'A' as int + 'a' as int) as char else s[i])
  }

  /** Names are matched without regard to case; anything unknown is linear. */
  function CurveOf(transform: string): Curve {
    var name := ToLower(transform);
    if name == "exponential" then Exponential
    else if name == "logarithmic" then Logarithmic
    else if name == "step" then Step
    else Linear
  }

  /** Two strings of which one differs from the other at most in the case of ASCII letters. */
  predicate SameButForCase(a: string, b: string) {
    && |a| == |b|
    && forall i :: 0 <= i < |a| ==>
         || a[i] == b[i]
         || ('A' <= a[i] <= 'Z' && b[i] as int == a[i] as int + 32)
         || ('A' <= b[i] <= 'Z' && a[i] as int == b[i] as int + 32)
  }

  /** They select the same curve. */
  lemma CaseIgnored(a: string, b: string)
    requires SameButForCase(a, b)
    ensures CurveOf(a) == CurveOf(b)
  {
    assert ToLower(a) == ToLower(b);
  }

  /** Exactly the four names, however capitalised, select their curves; every other name behaves as linear. */
  lemma CurveNames(name: string)
    ensures CurveOf("exponential") == Exponential && CurveOf("logarithmic") == Logarithmic
    ensures CurveOf("step") == Step && CurveOf("linear") == Linear
    ensures CurveOf(ToLower(name)) == CurveOf(name)
    ensures (forall known :: known in {"exponential", "logarithmic", "step"} ==> ToLower(name) != ToLower(known))
      <==> CurveOf(name) == Linear
  {
    assert ToLower("exponential") == "exponential" && ToLower("logarithmic") == "logarithmic";
    assert ToLower("step") == "step";
    assert ToLower(ToLower(name)) == ToLower(name);
    assert "exponential" in {"exponential", "logarithmic", "step"};
    assert "logarithmic" in {"exponential", "logarithmic", "step"};
    assert "step" in {"exponential", "logarithmic", "step"};
  }

  /** The point a fraction c of the way from a to b. */
  function Between(a: real, b: real, c: real): real {
    a + (b - a) * c
  }

  /** The point reached from a by growing with a constant ratio towards b. */
  function Geometric(math: MathLibrary, a: real, b: real, c: real): real
    requires a > 0.0
  {
    a * math.pow(b / a, c)
  }

  function Stepped(ratio: real): real {
    (ratio * 5.0).Floor as real / 5.0
  }

  function ApplyCurve(math: MathLibrary, curve: Curve, ratio: real, outMin: real, outMax: real): real {
    match curve
    case Exponential =>
      if outMin > 0.0 && outMax > 0.0 then Geometric(math, outMin, outMax, ratio)
      else Between(outMin, outMax, ratio * ratio)
    case Logarithmic => Between(outMin, outMax, math.ln(1.0 + ratio * 9.0) / math.ln(10.0))
    case Step => Between(outMin, outMax, Stepped(ratio))
    case Linear => Between(outMin, outMax, ratio)
  }

  function ApplyTransform(math: MathLibrary, x: real, transform: string,
                          inMin: real, inMax: real, outMin: real, outMax: real): real {
    if inMin >= inMax then outMin
    else
      var clampedInput := Clamp(x, inMin, inMax);
      var ratio := (clampedInput - inMin) / (inMax - inMin);
      ApplyCurve(math, CurveOf(transform), ratio, outMin, outMax)
  }

  function ApplyRule(math: MathLibrary, rule: MappingRule, x: real): real {
    ApplyTransform(math, x, rule.transform, rule.inMin, rule.inMax, rule.outMin, rule.outMax)
  }

  /** The parameters of one frame: one for every rule that names an existing metric, in rule order. */
  function MapParams(math: MathLibrary, rules: seq<MappingRule>, metrics: MetricMap): seq<MappedParam> {
    if rules == [] then []
    else
      var n := |rules| - 1;
      var rest := MapParams(math, rules[..n], metrics);
      match metrics.GetValue(rules[n].sourceMetric)
      case None => rest
      case Some(val) => rest + [MappedParam(rules[n].oscAddress, ApplyRule(math, rules[n], val))]
  }

  /** The rules that name an existing metric, in order. */
  function ActiveRules(rules: seq<MappingRule>): seq<MappingRule> {
    Retained(rules, NamesNoMetric())
  }

  function NamesNoMetric(): MappingRule -> bool {
    (rule: MappingRule) => KnownMetric(rule.sourceMetric).None?
  }

  type RuleValue = (MappingRule, Metric) -> real

  /** One parameter for each rule, with its address and its value at its metric. */
  ghost predicate FrameOf(params: seq<MappedParam>, active: seq<MappingRule>, value: RuleValue) {
    && |params| == |active|
    && forall j :: 0 <= j < |params| ==>
         && KnownMetric(active[j].sourceMetric).Some?
         && params[j] == MappedParam(active[j].oscAddress, value(active[j], KnownMetric(active[j].sourceMetric).value))
  }

  function ValueAt(math: MathLibrary, metrics: MetricMap): RuleValue {
    (rule: MappingRule, k: Metric) => ApplyRule(math, rule, metrics.At(k))
  }

  /** The two channels of the mapping engine. */
  datatype MapperView = MapperView(rx: seq<StateSnapshot>, tx: seq<seq<MappedParam>>)

  /** One iteration of the engine's loop: a poisoned rules lock skips the snapshot, a full queue drops the frame. */
  function MappedOne(math: MathLibrary, v: MapperView, rules: Option<seq<MappingRule>>): MapperView
    requires v.rx != []
  {
    MapperView(v.rx[1..], match rules
                          case None => v.tx
                          case Some(active) => Offered(v.tx, FRAME_CAPACITY, MapParams(math, active, v.rx[0].metrics)))
  }

  class MappingEngine {
    var rx: seq<StateSnapshot>
    var tx: seq<seq<MappedParam>>
    var rules: Option<seq<MappingRule>>  // None: the lock is poisoned

    constructor (rules: Option<seq<MappingRule>>)
      ensures rx == [] && tx == [] && this.rules == rules
    {
      rx, tx := [], [];
      this.rules := rules;
    }

    function View(): MapperView
      reads this
    {
      MapperView(rx, tx)
    }

    /** One iteration of the engine's loop on a waiting snapshot. */
    method ProcessNext(math: MathLibrary)
      requires rx != []
      modifies `rx, `tx
      ensures View() == MappedOne(math, old(View()), rules)
      ensures rx == old(rx)[1..] && old(tx) <= tx
      ensures rules.Some? && |old(tx)| < FRAME_CAPACITY ==>
        |tx| == |old(tx)| + 1 && FrameOf(tx[|old(tx)|], ActiveRules(rules.value), ValueAt(math, old(rx)[0].metrics))
      ensures rules.None? || |old(tx)| >= FRAME_CAPACITY ==> tx == old(tx)
    {
      var snapshot := rx[0];
      rx := rx[1..];
      if rules.None? {
        return;
      }
      var active := rules.value;
      var mappedParams := [];
      for i := 0 to |active|
        invariant mappedParams == MapParams(math, active[..i], snapshot.metrics)
        invariant rx == old(rx)[1..] && tx == old(tx)
      {
        assert active[..i + 1][..i] == active[..i];
        var rule := active[i];
        var val := snapshot.metrics.GetValue(rule.sourceMetric);
        if val.Some? {
          var mapped := ApplyTransform(math, val.value, rule.transform, rule.inMin, rule.inMax, rule.outMin, rule.outMax);
          mappedParams := mappedParams + [MappedParam(rule.oscAddress, mapped)];
        }
      }
      assert active[..|active|] == active;
      FrameOfRules(math, active, snapshot.metrics);
      if |tx| < FRAME_CAPACITY {
        tx := tx + [mappedParams];
      }
    }
  }

  // ---------- Laws of the transforms ----------

  /** y lies on the way from a to b, no further than z does; whichever of a and b is the larger. */
  predicate Ordered(a: real, y: real, z: real, b: real) {
    if a <= b then a <= y <= z <= b else a >= y >= z >= b
  }

  lemma BetweenOrdered(a: real, b: real, c: real, d: real)
    requires 0.0 <= c <= d <= 1.0
    ensures Ordered(a, Between(a, b, c), Between(a, b, d), b)
  {
    var y, z := Between(a, b, c), Between(a, b, d);
    assert z - y == (b - a) * (d - c) && y - z == (a - b) * (d - c);
    assert b - z == (b - a) * (1.0 - d) && z - b == (a - b) * (1.0 - d);
    assert a - y == (a - b) * c;
    if a <= b {
      Product(b - a, c);
      Product(b - a, d - c);
      Product(b - a, 1.0 - d);
    } else {
      Product(a - b, c);
      Product(a - b, d - c);
      Product(a - b, 1.0 - d);
    }
  }

  lemma Product(x: real, y: real)
    requires x >= 0.0 && y >= 0.0
    ensures x * y >= 0.0
  {
  }

  lemma Scaled(s: real, c: real, d: real)
    requires s >= 0.0 && c <= d
    ensures s * c <= s * d
  {
    Product(s, d - c);
  }

  lemma SquareOrdered(c: real, d: real)
    requires 0.0 <= c <= d <= 1.0
    ensures 0.0 <= c * c <= d * d <= 1.0
  {
    Product(c, c);
    Product(d - c, d + c);
    assert d * d - c * c == (d - c) * (d + c);
    Product(1.0 - d, 1.0 + d);
    assert 1.0 - d * d == (1.0 - d) * (1.0 + d);
  }

  predicate IsLevel(c: real, level: int) {
    0 <= level <= 5 && c == level as real / 5.0
  }

  /** The staircase has six levels and stays less than one fifth under its argument. */
  lemma SteppedBounds(c: real)
    requires 0.0 <= c <= 1.0
    ensures Stepped(c) <= c < Stepped(c) + 0.2
    ensures exists level :: IsLevel(Stepped(c), level)
    ensures c == 0.0 ==> Stepped(c) == 0.0
    ensures c == 1.0 ==> Stepped(c) == 1.0
  {
    var level := (c * 5.0).Floor;
    assert IsLevel(Stepped(c), level);
  }

  lemma SteppedOrdered(c: real, d: real)
    requires 0.0 <= c <= d <= 1.0
    ensures 0.0 <= Stepped(c) <= Stepped(d) <= 1.0
  {
    assert c * 5.0 <= d * 5.0;
  }

  lemma LogarithmOrdered(math: MathLibrary, c: real, d: real)
    requires 0.0 <= c <= d <= 1.0
    ensures 0.0 <= math.ln(1.0 + c * 9.0) / math.ln(10.0) <= math.ln(1.0 + d * 9.0) / math.ln(10.0) <= 1.0
    ensures math.ln(1.0 + 0.0 * 9.0) / math.ln(10.0) == 0.0 && math.ln(1.0 + 1.0 * 9.0) / math.ln(10.0) == 1.0
  {
    var lc, ld, whole := math.ln(1.0 + c * 9.0), math.ln(1.0 + d * 9.0), math.ln(10.0);
    assert math.ln(1.0) <= lc;
    OrderedFractions(lc, ld, whole);
    FractionOfWhole(whole);
  }

  lemma PowerRuns(pow: (real, real) -> real, base: real, c: real, d: real)
    requires PowerLaws(pow) && base > 0.0 && 0.0 <= c <= d <= 1.0
    ensures base >= 1.0 ==> 1.0 <= pow(base, c) <= pow(base, d) <= base
    ensures base <= 1.0 ==> 1.0 >= pow(base, c) >= pow(base, d) >= base
    ensures (c == 0.0 ==> pow(base, c) == 1.0) && (d == 1.0 ==> pow(base, d) == base)
  {
    var start, end := pow(base, 0.0), pow(base, 1.0);
    assert start == 1.0 && end == base;
  }

  /** Scaling by a nonnegative factor keeps the order; start and end are given as the values they scale to. */
  lemma ScaledRun(a: real, low: real, pc: real, pd: real, high: real, start: real, end: real)
    requires a >= 0.0 && low <= pc <= pd <= high && start == a * low && end == a * high
    ensures start <= a * pc <= a * pd <= end
  {
    Scaled(a, low, pc);
    Scaled(a, pc, pd);
    Scaled(a, pd, high);
  }

  lemma TimesOne(a: real)
    ensures a == a * 1.0
  {
  }

  lemma GeometricRun(pow: (real, real) -> real, a: real, b: real, base: real, c: real, d: real)
    requires PowerLaws(pow) && 0.0 <= c <= d <= 1.0
    requires a > 0.0 && base > 0.0 && b == a * base && (a <= b ==> base >= 1.0) && (b <= a ==> base <= 1.0)
    ensures Ordered(a, a * pow(base, c), a * pow(base, d), b)
    ensures (c == 0.0 ==> a * pow(base, c) == a) && (d == 1.0 ==> a * pow(base, d) == b)
  {
    PowerRuns(pow, base, c, d);
    TimesOne(a);
    var pc, pd := pow(base, c), pow(base, d);
    if a <= b {
      ScaledRun(a, 1.0, pc, pd, base, a, b);
    } else {
      ScaledRun(a, base, pd, pc, 1.0, b, a);
    }
  }

  lemma PowerOrdered(math: MathLibrary, a: real, b: real, c: real, d: real)
    requires a > 0.0 && b > 0.0 && 0.0 <= c <= d <= 1.0
    ensures Ordered(a, Geometric(math, a, b, c), Geometric(math, a, b, d), b)
    ensures c == 0.0 ==> Geometric(math, a, b, c) == a
    ensures d == 1.0 ==> Geometric(math, a, b, d) == b
  {
    QuotientTimes(a, b);
    GeometricRun(math.pow, a, b, b / a, c, d);
  }

  lemma QuotientTimes(a: real, b: real)
    requires a > 0.0 && b > 0.0
    ensures a * (b / a) == b && b / a > 0.0
    ensures a <= b ==> b / a >= 1.0
    ensures b <= a ==> b / a <= 1.0
  {
    FractionOfWhole(a);
    if a <= b {
      FractionMonotone(a, b, a);
    }
    if b <= a {
      FractionMonotone(b, a, a);
    }
  }

  /** Two points of a curve lie in order on the way from one output bound to the other. */
  predicate CurveRuns(math: MathLibrary, curve: Curve, c: real, d: real, outMin: real, outMax: real) {
    var y, z := ApplyCurve(math, curve, c, outMin, outMax), ApplyCurve(math, curve, d, outMin, outMax);
    Ordered(outMin, y, z, outMax) && (c == 0.0 ==> y == outMin) && (d == 1.0 ==> z == outMax)
  }

  lemma ExponentialRuns(math: MathLibrary, c: real, d: real, outMin: real, outMax: real)
    requires 0.0 <= c <= d <= 1.0
    ensures CurveRuns(math, Exponential, c, d, outMin, outMax)
  {
    if outMin > 0.0 && outMax > 0.0 {
      PowerOrdered(math, outMin, outMax, c, d);
    } else {
      QuadraticRuns(c, d, outMin, outMax);
    }
  }

  lemma QuadraticRuns(c: real, d: real, outMin: real, outMax: real)
    requires 0.0 <= c <= d <= 1.0
    ensures Ordered(outMin, Between(outMin, outMax, c * c), Between(outMin, outMax, d * d), outMax)
    ensures c == 0.0 ==> Between(outMin, outMax, c * c) == outMin
    ensures d == 1.0 ==> Between(outMin, outMax, d * d) == outMax
  {
    SquareOrdered(c, d);
    BetweenOrdered(outMin, outMax, c * c, d * d);
  }

  lemma LogarithmicRuns(math: MathLibrary, c: real, d: real, outMin: real, outMax: real)
    requires 0.0 <= c <= d <= 1.0
    ensures CurveRuns(math, Logarithmic, c, d, outMin, outMax)
  {
    LogarithmOrdered(math, c, d);
    BetweenOrdered(outMin, outMax, math.ln(1.0 + c * 9.0) / math.ln(10.0), math.ln(1.0 + d * 9.0) / math.ln(10.0));
  }

  lemma StepRuns(math: MathLibrary, c: real, d: real, outMin: real, outMax: real)
    requires 0.0 <= c <= d <= 1.0
    ensures CurveRuns(math, Step, c, d, outMin, outMax)
  {
    SteppedOrdered(c, d);
    SteppedBounds(c);
    SteppedBounds(d);
    BetweenOrdered(outMin, outMax, Stepped(c), Stepped(d));
  }

  /** Every curve runs monotonically from the first output bound to the second. */
  lemma CurveOrdered(math: MathLibrary, curve: Curve, c: real, d: real, outMin: real, outMax: real)
    requires 0.0 <= c <= d <= 1.0
    ensures CurveRuns(math, curve, c, d, outMin, outMax)
  {
    match curve
    case Exponential => ExponentialRuns(math, c, d, outMin, outMax);
    case Logarithmic => LogarithmicRuns(math, c, d, outMin, outMax);
    case Step => StepRuns(math, c, d, outMin, outMax);
    case Linear => BetweenOrdered(outMin, outMax, c, d);
  }

  /** A rule is monotone in its input, in the direction of its output range, and never leaves that range. */
  lemma RuleMonotone(math: MathLibrary, rule: MappingRule, x: real, y: real)
    requires x <= y && rule.inMin < rule.inMax
    ensures Ordered(rule.outMin, ApplyRule(math, rule, x), ApplyRule(math, rule, y), rule.outMax)
    ensures x <= rule.inMin ==> ApplyRule(math, rule, x) == rule.outMin
    ensures y >= rule.inMax ==> ApplyRule(math, rule, y) == rule.outMax
  {
    var lo, span := rule.inMin, rule.inMax - rule.inMin;
    var u, v := Clamp(x, rule.inMin, rule.inMax) - lo, Clamp(y, rule.inMin, rule.inMax) - lo;
    OrderedFractions(u, v, span);
    FractionOfWhole(span);
    CurveOrdered(math, CurveOf(rule.transform), u / span, v / span, rule.outMin, rule.outMax);
  }

  /** Over an empty input range every transform gives the first output bound. */
  lemma EmptyInputRange(math: MathLibrary, rule: MappingRule, x: real)
    requires rule.inMin >= rule.inMax
    ensures ApplyRule(math, rule, x) == rule.outMin
  {
  }

  /** Where the exponential curve needs a positive range and has none, its share of the output span is the square of the
      linear one. */
  lemma ExponentialFallback(math: MathLibrary, ratio: real, outMin: real, outMax: real)
    requires outMin <= 0.0 || outMax <= 0.0
    ensures var linear, value :=
        ApplyCurve(math, Linear, ratio, outMin, outMax) - outMin, ApplyCurve(math, Exponential, ratio, outMin, outMax) - outMin;
      value * (outMax - outMin) == linear * linear
  {
    var span := outMax - outMin;
    assert ApplyCurve(math, Exponential, ratio, outMin, outMax) - outMin == span * (ratio * ratio);
    assert ApplyCurve(math, Linear, ratio, outMin, outMax) - outMin == span * ratio;
    SquareOfShare(span, ratio);
  }

  lemma SquareOfShare(span: real, ratio: real)
    ensures span * (ratio * ratio) * span == span * ratio * (span * ratio)
  {
  }

  /** Over a positive range, where powers of the ratio of its bounds multiply as they should: the exponential curve takes
      the geometric mean of two of its values wherever the power does. */
  lemma ExponentialIsGeometric(math: MathLibrary, c: real, d: real, mid: real, outMin: real, outMax: real)
    requires outMin > 0.0 && outMax > 0.0
    requires var base := outMax / outMin; math.pow(base, mid) * math.pow(base, mid) == math.pow(base, c) * math.pow(base, d)
    ensures var v, w, m := ApplyCurve(math, Exponential, c, outMin, outMax), ApplyCurve(math, Exponential, d, outMin, outMax),
                           ApplyCurve(math, Exponential, mid, outMin, outMax);
      m * m == v * w
  {
    var base := outMax / outMin;
    ProductOfScaled(outMin, math.pow(base, mid), math.pow(base, c), math.pow(base, d));
  }

  lemma ProductOfScaled(a: real, m: real, x: real, y: real)
    requires m * m == x * y
    ensures a * m * (a * m) == a * x * (a * y)
  {
    assert a * m * (a * m) == a * a * (m * m);
    assert a * x * (a * y) == a * a * (x * y);
  }

  /** Where the logarithm turns a product into a sum, the shares of the output span add up on the logarithmic curve. */
  lemma LogarithmicAdds(math: MathLibrary, c: real, d: real, e: real, outMin: real, outMax: real)
    requires 1.0 + e * 9.0 == (1.0 + c * 9.0) * (1.0 + d * 9.0)
    requires math.ln(1.0 + e * 9.0) == math.ln(1.0 + c * 9.0) + math.ln(1.0 + d * 9.0)
    ensures ApplyCurve(math, Logarithmic, e, outMin, outMax) - outMin
         == (ApplyCurve(math, Logarithmic, c, outMin, outMax) - outMin) + (ApplyCurve(math, Logarithmic, d, outMin, outMax) - outMin)
  {
    SharesAdd(outMax - outMin, math.ln(1.0 + c * 9.0), math.ln(1.0 + d * 9.0), math.ln(10.0));
  }

  lemma SharesAdd(span: real, x: real, y: real, whole: real)
    requires whole > 0.0
    ensures span * ((x + y) / whole) == span * (x / whole) + span * (y / whole)
  {
    assert (x + y) / whole == x / whole + y / whole;
  }

  predicate InRange(v: real, a: real, b: real) {
    a <= v <= b || b <= v <= a
  }

  /** Whatever the input, even with an empty input range, the value lies between the two output bounds. */
  lemma RuleBracketed(math: MathLibrary, rule: MappingRule, x: real)
    ensures InRange(ApplyRule(math, rule, x), rule.outMin, rule.outMax)
  {
    if rule.inMin < rule.inMax {
      RuleMonotone(math, rule, x, x);
    }
  }

  /** Every parameter of a frame belongs to a rule and lies between that rule's output bounds. */
  lemma {:induction false} FrameBracketed(math: MathLibrary, rules: seq<MappingRule>, metrics: MetricMap)
    ensures forall p :: p in MapParams(math, rules, metrics) ==>
      exists rule :: rule in rules && p.oscAddress == rule.oscAddress && InRange(p.value, rule.outMin, rule.outMax)
  {
    if rules == [] {
    } else {
      var n := |rules| - 1;
      FrameBracketed(math, rules[..n], metrics);
      var val := metrics.GetValue(rules[n].sourceMetric);
      if val.Some? {
        RuleBracketed(math, rules[n], val.value);
      }
    }
  }

  /** A frame has one parameter for each active rule, in their order. */
  lemma {:induction false} FrameOfRules(math: MathLibrary, rules: seq<MappingRule>, metrics: MetricMap)
    ensures FrameOf(MapParams(math, rules, metrics), ActiveRules(rules), ValueAt(math, metrics))
  {
    if rules == [] {
    } else {
      var n := |rules| - 1;
      FrameOfRules(math, rules[..n], metrics);
      assert rules == rules[..n] + [rules[n]];
      RetainedSnoc(rules[..n], rules[n], NamesNoMetric());
      ValueOfKnownMetric(metrics, rules[n].sourceMetric);
    }
  }

  /** A frame is determined by its rules and their values. */
  lemma FrameUnique(p: seq<MappedParam>, q: seq<MappedParam>, active: seq<MappingRule>, value: RuleValue)
    requires FrameOf(p, active, value) && FrameOf(q, active, value)
    ensures p == q
  {
  }

  /** The active rules: each rule that names an existing metric, once, after those before it. */
  lemma ActiveRulesExactly(rules: seq<MappingRule>, i: nat)
    requires i < |rules| && KnownMetric(rules[i].sourceMetric).Some?
    ensures |ActiveRules(rules[..i])| < |ActiveRules(rules)|
    ensures ActiveRules(rules)[|ActiveRules(rules[..i])|] == rules[i]
    ensures |ActiveRules(rules)| == Sum(rules, Remains(NamesNoMetric()))
  {
    RetainedAt(rules, NamesNoMetric(), i);
    RetainedSize(rules, NamesNoMetric());
  }

  /** A step rule takes one of six values and differs from the linear rule by at most a fifth of the output span. */
  lemma StepNearLinear(math: MathLibrary, ratio: real, outMin: real, outMax: real)
    requires 0.0 <= ratio <= 1.0
    ensures exists level :: IsLevel(Stepped(ratio), level)
    ensures ApplyCurve(math, Step, ratio, outMin, outMax) == Between(outMin, outMax, Stepped(ratio))
    ensures Abs(ApplyCurve(math, Linear, ratio, outMin, outMax) - ApplyCurve(math, Step, ratio, outMin, outMax))
         <= Abs(outMax - outMin) * 0.2
  {
    SteppedBounds(ratio);
    ShareOfDifference(outMin, outMax, ratio, Stepped(ratio), 0.2);
  }

  predicate LinearRule(rule: MappingRule) {
    CurveOf(rule.transform) == Linear && rule.inMin < rule.inMax
  }

  /** A difference of at most `most` in the input, times output span over input span. */
  function Amplified(rule: MappingRule, most: real): real
    requires rule.inMin < rule.inMax
  {
    Abs(rule.outMax - rule.outMin) * (most / (rule.inMax - rule.inMin))
  }

  lemma NormalizedApart(x: real, y: real, min: real, max: real, most: real)
    requires min < max && Abs(x - y) <= most
    ensures Abs(NormalizeMinMax(x, min, max) - NormalizeMinMax(y, min, max)) <= most / (max - min)
  {
    NormalizeLipschitz(x, y, min, max);
    FractionMonotone(Abs(x - y), most, max - min);
  }

  lemma LinearValue(math: MathLibrary, rule: MappingRule, x: real)
    requires LinearRule(rule)
    ensures ApplyRule(math, rule, x) == Between(rule.outMin, rule.outMax, NormalizeMinMax(x, rule.inMin, rule.inMax))
  {
  }

  /** A linear rule amplifies a difference of inputs by at most its output span over its input span. */
  lemma LinearSensitivity(math: MathLibrary, rule: MappingRule, x: real, y: real, most: real)
    requires LinearRule(rule) && Abs(x - y) <= most
    ensures Abs(ApplyRule(math, rule, x) - ApplyRule(math, rule, y)) <= Amplified(rule, most)
  {
    var lo, hi := rule.inMin, rule.inMax;
    LinearValue(math, rule, x);
    LinearValue(math, rule, y);
    NormalizedApart(x, y, lo, hi, most);
    ShareOfDifference(rule.outMin, rule.outMax, NormalizeMinMax(x, lo, hi), NormalizeMinMax(y, lo, hi), most / (hi - lo));
  }

  lemma ShareOfDifference(a: real, b: real, r: real, s: real, most: real)
    requires Abs(r - s) <= most
    ensures Abs(Between(a, b, r) - Between(a, b, s)) <= Abs(b - a) * most
  {
    assert Between(a, b, r) - Between(a, b, s) == (b - a) * (r - s);
    AbsProduct(b - a, r - s);
    Scaled(Abs(b - a), Abs(r - s), most);
  }

  lemma AbsProduct(x: real, y: real)
    ensures Abs(x * y) == Abs(x) * Abs(y)
  {
  }
}

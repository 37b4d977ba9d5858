/** Binary floating point: rounding to the nearest value of a given precision, ties to even. Only the range of exponents
    is not modelled: nothing overflows and nothing is subnormal. */
module Rounding {

  // The least significand of a normalised double and of a normalised single.
  const DOUBLE: nat := 0x10_0000_0000_0000
  const SINGLE: nat := 0x80_0000

  /** The nearest integer, an even one if there are two. */
  function HalfEven(x: real): (n: int)
    ensures x - 0.5 <= n as real <= x + 0.5
  {
    var n, rest := x.Floor, x - x.Floor as real;
    if rest < 0.5 || (rest == 0.5 && n % 2 == 0) then n else n + 1
  }

  /** How many doublings or halvings at most bring x into the binade of integral significands. */
  function Distance(w: real, x: real): nat
    requires w > 0.0 && x > 0.0
  {
    if x < w then 1 + (w / x).Floor else if x < 2.0 * w then 0 else x.Floor
  }

  lemma DoublingApproaches(w: real, x: real)
    requires 0.0 < x < w
    ensures Distance(w, 2.0 * x) < Distance(w, x)
  {
    var t := w / x;
    QuotientExceedsOne(w, x);
    if 2.0 * x < w {
      HalfQuotient(w, x);
      assert (t / 2.0).Floor < t.Floor;
    }
  }

  lemma QuotientExceedsOne(w: real, x: real)
    requires 0.0 < x < w
    ensures w / x > 1.0
  {
  }

  lemma HalfQuotient(w: real, x: real)
    requires x > 0.0
    ensures w / (2.0 * x) == w / x / 2.0
  {
  }

  lemma HalvingApproaches(w: real, x: real)
    requires w >= 1.0 && x >= 2.0 * w
    ensures Distance(w, x / 2.0) < Distance(w, x)
  {
  }

  /** Rounding a value that is not negative: those with least <= x < 2 * least are rounded to integers, all others are
      scaled there by a power of two. */
  function Magnitude(least: nat, x: real): (r: real)
    requires least > 0 && x >= 0.0
    ensures r >= 0.0
    decreases if x > 0.0 then Distance(least as real, x) else 0
  {
    var w := least as real;
    if x == 0.0 then 0.0
    else if x < w then DoublingApproaches(w, x); Magnitude(least, 2.0 * x) / 2.0
    else if x < 2.0 * w then HalfEven(x) as real
    else HalvingApproaches(w, x); 2.0 * Magnitude(least, x / 2.0)
  }

  function Rounded(least: nat, x: real): real
    requires least > 0
  {
    if x < 0.0 then -Magnitude(least, -x) else Magnitude(least, x)
  }

  /** The nearest double, and the nearest single. */
  function Double(x: real): real {
    Rounded(DOUBLE, x)
  }

  function Single(x: real): real {
    Rounded(SINGLE, x)
  }

  // ---------- Laws of rounding ----------

  /** Rounding commutes with powers of two. */
  lemma MagnitudeDoubles(least: nat, x: real)
    requires least > 0 && x >= 0.0
    ensures Magnitude(least, 2.0 * x) == 2.0 * Magnitude(least, x)
  {
  }

  /** What holds of zero and of the binade of integral significands, and passes down by halving and up by doubling,
      holds of every value that is not negative. */
  lemma {:induction false} OverAllBinades(least: nat, holds: real -> bool, x: real)
    requires least > 0 && x >= 0.0 && holds(0.0)
    requires forall y :: least as real <= y < 2.0 * least as real ==> holds(y)
    requires forall y :: 0.0 < y < least as real && holds(2.0 * y) ==> holds(y)
    requires forall y :: y >= 2.0 * least as real && holds(y / 2.0) ==> holds(y)
    ensures holds(x)
    decreases if x > 0.0 then Distance(least as real, x) else 0
  {
    var w := least as real;
    if 0.0 < x < w {
      DoublingApproaches(w, x);
      OverAllBinades(least, holds, 2.0 * x);
    } else if x >= 2.0 * w {
      HalvingApproaches(w, x);
      OverAllBinades(least, holds, x / 2.0);
    }
  }

  predicate BoundedBy(least: nat, x: real, n: nat)
    requires least > 0
  {
    x >= 0.0 ==>
      && (n as real <= x ==> n as real <= Magnitude(least, x))
      && (x <= n as real ==> Magnitude(least, x) <= n as real)
  }

  ghost predicate KeepsIntegers(least: nat, x: real)
    requires least > 0
  {
    forall n: nat | n <= 2 * least :: BoundedBy(least, x, n)
  }

  lemma KeptDownwards(least: nat, x: real)
    requires least > 0 && 0.0 < x < least as real && KeepsIntegers(least, 2.0 * x)
    ensures KeepsIntegers(least, x)
  {
    forall n: nat | n <= 2 * least ensures BoundedBy(least, x, n) {
      var m := if n <= least then 2 * n else 2 * least;
      assert BoundedBy(least, 2.0 * x, m);
    }
  }

  lemma KeptUpwards(least: nat, x: real)
    requires least > 0 && x >= 2.0 * least as real && KeepsIntegers(least, x / 2.0)
    ensures KeepsIntegers(least, x)
  {
    assert BoundedBy(least, x / 2.0, least);
  }

  lemma HalfEvenBounded(x: real, n: int)
    ensures n as real <= x ==> n <= HalfEven(x)
    ensures x <= n as real ==> HalfEven(x) <= n
  {
  }

  lemma KeptInside(least: nat, x: real)
    requires least > 0 && least as real <= x < 2.0 * least as real
    ensures KeepsIntegers(least, x)
  {
    forall n: nat | n <= 2 * least ensures BoundedBy(least, x, n) {
      HalfEvenBounded(x, n);
      assert Magnitude(least, x) == HalfEven(x) as real;
    }
  }

  lemma KeptAtZero(least: nat)
    requires least > 0
    ensures KeepsIntegers(least, 0.0)
  {
  }

  /** Integers with few enough digits are bounds that rounding respects. */
  lemma IntegerBounds(least: nat, x: real, n: nat)
    requires least > 0 && x >= 0.0 && n <= 2 * least
    ensures n as real <= x ==> n as real <= Magnitude(least, x)
    ensures x <= n as real ==> Magnitude(least, x) <= n as real
  {
    KeptAtZero(least);
    forall y | least as real <= y < 2.0 * least as real ensures KeepsIntegers(least, y) {
      KeptInside(least, y);
    }
    forall y | 0.0 < y < least as real && KeepsIntegers(least, 2.0 * y) ensures KeepsIntegers(least, y) {
      KeptDownwards(least, y);
    }
    forall y | y >= 2.0 * least as real && KeepsIntegers(least, y / 2.0) ensures KeepsIntegers(least, y) {
      KeptUpwards(least, y);
    }
    OverAllBinades(least, y => KeepsIntegers(least, y), x);
    assert BoundedBy(least, x, n);
  }

  predicate ErrsLittle(least: nat, x: real)
    requires least > 0
  {
    0.0 <= x < 2.0 * least as real ==>
      && x - 0.5 <= Magnitude(least, x) <= x + 0.5
      && (x < least as real ==> x - 0.25 <= Magnitude(least, x) <= x + 0.25)
  }

  /** Below 2 * least rounding moves a value by at most one half, below least by at most a quarter. */
  lemma MagnitudeError(least: nat, x: real)
    requires least > 0 && 0.0 <= x < 2.0 * least as real
    ensures x - 0.5 <= Magnitude(least, x) <= x + 0.5
    ensures x < least as real ==> x - 0.25 <= Magnitude(least, x) <= x + 0.25
  {
    OverAllBinades(least, y => ErrsLittle(least, y), x);
  }

  ghost predicate Monotone(least: nat, x: real)
    requires least > 0
  {
    forall y :: 0.0 <= x <= y ==> Magnitude(least, x) <= Magnitude(least, y)
  }

  lemma MonotoneDownwards(least: nat, x: real)
    requires least > 0 && 0.0 < x < least as real && Monotone(least, 2.0 * x)
    ensures Monotone(least, x)
  {
    forall y | x <= y ensures Magnitude(least, x) <= Magnitude(least, y) {
      if y < least as real {
        assert Magnitude(least, 2.0 * x) <= Magnitude(least, 2.0 * y);
      } else {
        IntegerBounds(least, x, least);
        IntegerBounds(least, y, least);
      }
    }
  }

  lemma MonotoneUpwards(least: nat, x: real)
    requires least > 0 && x >= 2.0 * least as real && Monotone(least, x / 2.0)
    ensures Monotone(least, x)
  {
    forall y | x <= y ensures Magnitude(least, x) <= Magnitude(least, y) {
      assert Magnitude(least, x / 2.0) <= Magnitude(least, y / 2.0);
    }
  }

  lemma HalfEvenMonotone(x: real, y: real)
    requires x <= y
    ensures HalfEven(x) <= HalfEven(y)
  {
  }

  lemma MonotoneInside(least: nat, x: real)
    requires least > 0 && least as real <= x < 2.0 * least as real
    ensures Monotone(least, x)
  {
    forall y | x <= y ensures Magnitude(least, x) <= Magnitude(least, y) {
      if y >= 2.0 * least as real {
        IntegerBounds(least, x, 2 * least);
        IntegerBounds(least, y, 2 * least);
      } else {
        HalfEvenMonotone(x, y);
        assert Magnitude(least, x) == HalfEven(x) as real && Magnitude(least, y) == HalfEven(y) as real;
      }
    }
  }

  lemma MagnitudeMonotone(least: nat, x: real, y: real)
    requires least > 0 && 0.0 <= x <= y
    ensures Magnitude(least, x) <= Magnitude(least, y)
  {
    forall z | least as real <= z < 2.0 * least as real ensures Monotone(least, z) {
      MonotoneInside(least, z);
    }
    forall z | 0.0 < z < least as real && Monotone(least, 2.0 * z) ensures Monotone(least, z) {
      MonotoneDownwards(least, z);
    }
    forall z | z >= 2.0 * least as real && Monotone(least, z / 2.0) ensures Monotone(least, z) {
      MonotoneUpwards(least, z);
    }
    OverAllBinades(least, z => Monotone(least, z), x);
  }

  lemma RoundedMonotone(least: nat, x: real, y: real)
    requires least > 0 && x <= y
    ensures Rounded(least, x) <= Rounded(least, y)
  {
    if x >= 0.0 {
      MagnitudeMonotone(least, x, y);
    } else if y < 0.0 {
      MagnitudeMonotone(least, -y, -x);
    }
  }

  // ---------- What a rounded value is ----------

  /** A value scaled by a power of two into the binade of integral significands. */
  function ScaledSignificand(least: nat, x: real): real
    requires least > 0 && x >= 0.0
    decreases if x > 0.0 then Distance(least as real, x) else 0
  {
    var w := least as real;
    if x == 0.0 then 0.0
    else if x < w then DoublingApproaches(w, x); ScaledSignificand(least, 2.0 * x)
    else if x < 2.0 * w then x
    else HalvingApproaches(w, x); ScaledSignificand(least, x / 2.0)
  }

  /** A value of the given precision: scaled into that binade, it is an integer. */
  predicate Representable(least: nat, z: real)
    requires least > 0
  {
    var m := ScaledSignificand(least, if z < 0.0 then -z else z);
    m.Floor as real == m
  }

  lemma SignificandDoubles(least: nat, x: real)
    requires least > 0 && x >= 0.0
    ensures ScaledSignificand(least, 2.0 * x) == ScaledSignificand(least, x)
  {
  }

  function Apart(x: real, y: real): real {
    if x <= y then y - x else x - y
  }

  predicate NoFurther(least: nat, x: real, z: real)
    requires least > 0 && x >= 0.0
  {
    z >= 0.0 && Representable(least, z) ==> Apart(x, Magnitude(least, x)) <= Apart(x, z)
  }

  /** The rounded value is representable, none is nearer, and it errs by at most one part in 2 * least. */
  ghost predicate RoundsToNearest(least: nat, x: real)
    requires least > 0
  {
    x >= 0.0 ==>
      && Representable(least, Magnitude(least, x))
      && NothingNearer(least, x)
      && SmallError(least as real, x, Magnitude(least, x))
  }

  ghost predicate NothingNearer(least: nat, x: real)
    requires least > 0 && x >= 0.0
  {
    forall z :: NoFurther(least, x, z)
  }

  predicate SmallError(w: real, x: real, r: real) {
    2.0 * w * Apart(x, r) <= x
  }

  lemma NearerNeighbour(x: real, f: int, n: int)
    requires f == x.Floor && n == HalfEven(x)
    ensures Apart(x, n as real) <= x - f as real && Apart(x, n as real) <= f as real + 1.0 - x
  {
  }

  lemma NearestInteger(x: real, n: int)
    ensures Apart(x, HalfEven(x) as real) <= Apart(x, n as real)
  {
    var f := x.Floor;
    NearerNeighbour(x, f, HalfEven(x));
    if n <= f {
      assert n as real <= f as real <= x;
    } else {
      assert f as real + 1.0 <= n as real && x < f as real + 1.0;
    }
  }

  lemma IntegersRepresentable(least: nat, n: nat)
    requires least > 0 && least <= n <= 2 * least
    ensures Representable(least, n as real)
  {
    if n == 2 * least {
      SignificandDoubles(least, least as real);
    }
  }

  lemma NearestInside(least: nat, x: real)
    requires least > 0 && least as real <= x < 2.0 * least as real
    ensures RoundsToNearest(least, x)
  {
    var n := HalfEven(x);
    HalfEvenBounded(x, least);
    HalfEvenBounded(x, 2 * least);
    IntegersRepresentable(least, n);
    assert Magnitude(least, x) == n as real;
    forall z ensures NoFurther(least, x, z) {
      if z >= 0.0 && Representable(least, z) {
        if z < least as real {
          NearestInteger(x, least);
        } else if z < 2.0 * least as real {
          NearestInteger(x, z.Floor);
        } else {
          NearestInteger(x, 2 * least);
        }
      }
    }
    SmallShare(least as real, x, Apart(x, n as real));
  }

  lemma SmallShare(w: real, x: real, error: real)
    requires 0.0 < w <= x && 0.0 <= error <= 0.5
    ensures 2.0 * w * error <= x
  {
    assert w * (0.5 - error) >= 0.0;
  }

  lemma ErrorDoubled(w: real, x: real, r: real)
    ensures SmallError(w, x, r) <==> SmallError(w, 2.0 * x, 2.0 * r)
  {
    assert Apart(2.0 * x, 2.0 * r) == 2.0 * Apart(x, r);
    Twice(w, Apart(x, r));
  }

  lemma Twice(w: real, error: real)
    ensures 2.0 * w * (2.0 * error) == 2.0 * (2.0 * w * error)
  {
  }

  lemma NoFurtherDoubled(least: nat, x: real, z: real)
    requires least > 0 && x >= 0.0
    ensures NoFurther(least, x, z) <==> NoFurther(least, 2.0 * x, 2.0 * z)
  {
    MagnitudeDoubles(least, x);
    if z >= 0.0 {
      SignificandDoubles(least, z);
    }
  }

  lemma NothingNearerDoubled(least: nat, x: real, y: real)
    requires least > 0 && x > 0.0 && y == 2.0 * x
    ensures NothingNearer(least, x) <==> NothingNearer(least, y)
  {
    if NothingNearer(least, y) {
      forall z ensures NoFurther(least, x, z) {
        NoFurtherDoubled(least, x, z);
        assert NoFurther(least, y, 2.0 * z);
      }
    }
    if NothingNearer(least, x) {
      forall z ensures NoFurther(least, y, z) {
        NoFurtherDoubled(least, x, z / 2.0);
        assert NoFurther(least, x, z / 2.0) && 2.0 * (z / 2.0) == z;
      }
    }
  }

  /** Nearest for x exactly if nearest for y, twice x. */
  lemma NearestDoubles(least: nat, x: real, y: real)
    requires least > 0 && x > 0.0 && y == 2.0 * x
    ensures RoundsToNearest(least, x) <==> RoundsToNearest(least, y)
  {
    MagnitudeDoubles(least, x);
    SignificandDoubles(least, Magnitude(least, x));
    ErrorDoubled(least as real, x, Magnitude(least, x));
    NothingNearerDoubled(least, x, y);
  }

  lemma NearestAtZero(least: nat)
    requires least > 0
    ensures RoundsToNearest(least, 0.0)
  {
  }

  lemma MagnitudeNearest(least: nat, x: real)
    requires least > 0 && x >= 0.0
    ensures RoundsToNearest(least, x)
  {
    NearestAtZero(least);
    forall y | least as real <= y < 2.0 * least as real ensures RoundsToNearest(least, y) {
      NearestInside(least, y);
    }
    forall y | 0.0 < y < least as real && RoundsToNearest(least, 2.0 * y) ensures RoundsToNearest(least, y) {
      NearestDoubles(least, y, 2.0 * y);
    }
    forall y | y >= 2.0 * least as real && RoundsToNearest(least, y / 2.0) ensures RoundsToNearest(least, y) {
      NearestDoubles(least, y / 2.0, y);
    }
    OverAllBinades(least, y => RoundsToNearest(least, y), x);
  }

  /** The cast to single: the result has 24 significant bits, lies on the side of zero of its argument, is as near to it
      as any such value, and errs by at most one part in 2^24. */
  lemma SingleIsNearest(x: real)
    ensures Representable(SINGLE, Single(x)) && (x >= 0.0 ==> Single(x) >= 0.0) && (x <= 0.0 ==> Single(x) <= 0.0)
    ensures forall z :: (z >= 0.0 <==> x >= 0.0) && Representable(SINGLE, z) ==> Apart(x, Single(x)) <= Apart(x, z)
    ensures 16777216.0 * Apart(x, Single(x)) <= if x < 0.0 then -x else x
  {
    var size := if x < 0.0 then -x else x;
    MagnitudeNearest(SINGLE, size);
    forall z | (z >= 0.0 <==> x >= 0.0) && Representable(SINGLE, z) ensures Apart(x, Single(x)) <= Apart(x, z) {
      assert NoFurther(SINGLE, size, if x < 0.0 then -z else z);
    }
  }

  // ---------- Microseconds to milliseconds and back ----------

  /** A latency as the histogram is given it: microseconds to a double, divided by 1000. */
  function Millis(us: nat): real {
    Double(Double(us as real) / 1000.0)
  }

  /** The microseconds the histogram makes of it before it cuts off the fraction. */
  function Back(x: real): real {
    Double(Double(x / 1000.0) * 1000.0)
  }

  /** The significand of a latency as a double. */
  function Significand(us: nat): (m: nat)
    requires 0 < us < 2 * DOUBLE
    ensures DOUBLE <= m < 2 * DOUBLE
    decreases 2 * DOUBLE - us
  {
    if us < DOUBLE then Significand(2 * us) else us
  }

  /** The significands of latencies that come back one microsecond short. */
  predicate Lossy(m: nat) {
    m >= 1000 * 0x800_0000_0000 && 256 < 512 * m % 1000 < 500
  }

  predicate LosesOne(us: nat)
    requires us < DOUBLE
  {
    us > 0 && Lossy(Significand(us))
  }

  lemma BackDoubles(x: real)
    requires x >= 0.0
    ensures Back(2.0 * x) == 2.0 * Back(x)
  {
    var y := x / 1000.0;
    assert 2.0 * x / 1000.0 == 2.0 * y;
    MagnitudeDoubles(DOUBLE, y);
    MagnitudeDoubles(DOUBLE, Double(y) * 1000.0);
  }

  lemma IntegralBinade(x: real)
    requires DOUBLE as real <= x < 2.0 * DOUBLE as real
    ensures Double(x) == HalfEven(x) as real
  {
  }

  lemma ScaledBinade(x: real, half: real, quarter: real)
    requires half == x / 2.0 && quarter == x / 4.0 && x >= 0.0
    ensures Double(half) == Double(x) / 2.0 && Double(quarter) == Double(x) / 4.0
  {
    MagnitudeDoubles(DOUBLE, half);
    MagnitudeDoubles(DOUBLE, quarter);
  }

  /** A quotient scaled up by ten or by nine binades. */
  lemma TenBinades(x: real)
    requires x >= 0.0
    ensures Double(512.0 * x) == 512.0 * Double(x) && Double(1024.0 * x) == 1024.0 * Double(x)
  {
    ScaledBinade(4.0 * x, 2.0 * x, x);
    ScaledBinade(16.0 * x, 8.0 * x, 4.0 * x);
    ScaledBinade(64.0 * x, 32.0 * x, 16.0 * x);
    ScaledBinade(256.0 * x, 128.0 * x, 64.0 * x);
    ScaledBinade(1024.0 * x, 512.0 * x, 256.0 * x);
  }

  lemma HalfEvenNear(x: real, n: int)
    requires n as real - 0.5 < x < n as real + 0.5
    ensures HalfEven(x) == n
  {
  }

  /** A quotient that lies ten, or nine, binades below the integral one has the significand it has there. */
  lemma TenBinadesDown(x: real)
    requires DOUBLE as real <= 1024.0 * x < 2.0 * DOUBLE as real
    ensures Double(x) == HalfEven(1024.0 * x) as real / 1024.0
  {
    TenBinades(x);
    IntegralBinade(1024.0 * x);
  }

  lemma NineBinadesDown(x: real)
    requires DOUBLE as real <= 512.0 * x < 2.0 * DOUBLE as real
    ensures Double(x) == HalfEven(512.0 * x) as real / 512.0
  {
    TenBinades(x);
    IntegralBinade(512.0 * x);
  }

  /** Significands below 1000 * 2^43: the quotient lies ten binades down and comes back exactly. */
  lemma BackExactly(m: nat)
    requires DOUBLE <= m < 1000 * 0x800_0000_0000
    ensures Back(m as real) == m as real
  {
    TenBinadesDown(m as real / 1000.0);
    var x := 1024.0 * (m as real / 1000.0);
    var y := HalfEven(x) as real / 1024.0 * 1000.0;
    NearlyBack(m, x, HalfEven(x), y);
    HalfEvenNear(y, m);
    IntegralBinade(y);
  }

  lemma NearlyBack(m: nat, x: real, q: int, y: real)
    requires DOUBLE <= m && x == 1024.0 * (m as real / 1000.0) && x - 0.5 <= q as real <= x + 0.5
    requires y == q as real / 1024.0 * 1000.0
    ensures m as real - 0.5 < y < m as real + 0.5 && y >= DOUBLE as real
  {
    if m == DOUBLE {
      assert q == 4611686018427388;
    }
  }

  lemma QuotientRounds(m: nat)
    ensures var r := 512 * m % 1000;
      HalfEven(512.0 * (m as real / 1000.0)) == 512 * m / 1000 + if r < 500 then 0 else 1
  {
    var r, n := 512 * m % 1000, 512 * m / 1000;
    var x := 512.0 * (m as real / 1000.0);
    assert x == n as real + r as real / 1000.0;
    assert r != 500;
    HalfEvenNear(x, if r < 500 then n else n + 1);
  }

  lemma ProductRounds(m: nat, r: nat, y: real)
    requires m % 2 == 0 && r < 1000
    requires y == m as real + if r < 500 then -(r as real / 512.0) else (1000 - r) as real / 512.0
    ensures HalfEven(y) == m + if 256 < r < 500 then -1 else if 500 <= r < 744 then 1 else 0
  {
    if r != 256 && r != 744 {
      HalfEvenNear(y, m + if 256 < r < 500 then -1 else if 500 <= r < 744 then 1 else 0);
    }
  }

  lemma ProductInBinade(m: nat, n: int, r: nat, y: real)
    requires 1000 * 0x800_0000_0000 <= m < 2 * DOUBLE && 512 * m == 1000 * n + r && r < 1000
    requires y == (if r < 500 then n else n + 1) as real / 512.0 * 1000.0
    ensures y == m as real + if r < 500 then -(r as real / 512.0) else (1000 - r) as real / 512.0
    ensures DOUBLE as real <= y < 2.0 * DOUBLE as real
  {
  }

  /** The other significands: the quotient lies nine binades down, and what it lost can show. */
  lemma BackNearly(m: nat)
    requires 1000 * 0x800_0000_0000 <= m < 2 * DOUBLE && m % 2 == 0
    ensures var r := 512 * m % 1000;
      Back(m as real) == m as real + if 256 < r < 500 then -1.0 else if 500 <= r < 744 then 1.0 else 0.0
  {
    NineBinadesDown(m as real / 1000.0);
    QuotientRounds(m);
    var r, n := 512 * m % 1000, 512 * m / 1000;
    var y := Double(m as real / 1000.0) * 1000.0;
    ProductInBinade(m, n, r, y);
    ProductRounds(m, r, y);
    IntegralBinade(y);
  }

  /** What the conversions leave of x is short of it, by at most `most`, exactly if something is lost. */
  predicate Leaves(lost: bool, x: real, back: real, most: real) {
    if lost then -most <= back - x < 0.0 else 0.0 <= back - x <= most
  }

  lemma BackOfSignificand(m: nat)
    requires DOUBLE <= m < 2 * DOUBLE && m % 2 == 0
    ensures Leaves(Lossy(m), m as real, Back(m as real), 1.0)
  {
    if m < 1000 * 0x800_0000_0000 {
      BackExactly(m);
    } else {
      BackNearly(m);
    }
  }

  lemma {:induction false} BackOfInteger(lossy: nat -> bool, back: real -> real, us: nat)
    requires 0 < us < DOUBLE
    requires forall x :: x >= 0.0 ==> back(2.0 * x) == 2.0 * back(x)
    requires forall m: nat :: DOUBLE <= m < 2 * DOUBLE && m % 2 == 0 ==> Leaves(lossy(m), m as real, back(m as real), 1.0)
    ensures Leaves(lossy(Significand(us)), us as real, back(us as real), 0.5)
    decreases DOUBLE - us
  {
    assert 2.0 * us as real == (2 * us) as real;
    if 2 * us < DOUBLE {
      BackOfInteger(lossy, back, 2 * us);
    } else {
      assert Significand(us) == Significand(2 * us) == 2 * us;
      assert Leaves(lossy(2 * us), (2 * us) as real, back((2 * us) as real), 1.0);
    }
  }

  lemma IntegersAreDoubles(n: nat)
    requires n <= 2 * DOUBLE
    ensures Double(n as real) == n as real
  {
    IntegerBounds(DOUBLE, n as real, n);
  }

  lemma FloorNearInteger(n: nat, y: real, lost: bool)
    requires Leaves(lost, n as real, y, 0.5)
    ensures y.Floor == n - if lost then 1 else 0
  {
  }

  /** A latency of whole microseconds, up to 142 years, comes out of the two conversions as it was or one microsecond
      short; which, is decided by 512 times its significand modulo 1000. */
  lemma MillisAndBack(us: nat)
    requires us < DOUBLE
    ensures Double(Millis(us) * 1000.0).Floor == us - if LosesOne(us) then 1 else 0
  {
    IntegersAreDoubles(us);
    if us > 0 {
      forall x | x >= 0.0 ensures Back(2.0 * x) == 2.0 * Back(x) {
        BackDoubles(x);
      }
      forall m: nat | DOUBLE <= m < 2 * DOUBLE && m % 2 == 0
        ensures Leaves(Lossy(m), m as real, Back(m as real), 1.0)
      {
        BackOfSignificand(m);
      }
      BackOfInteger(Lossy, Back, us);
      FloorNearInteger(us, Back(us as real), LosesOne(us));
    }
  }

  lemma SignificandScaled(us: nat)
    requires 0 < us && 64 * us < 2 * DOUBLE
    ensures Significand(us) == Significand(64 * us)
  {
    assert Significand(us) == Significand(2 * us) == Significand(4 * us) == Significand(8 * us);
    assert Significand(8 * us) == Significand(16 * us) == Significand(32 * us) == Significand(64 * us);
  }

  /** 1001 microseconds come back as 1000. */
  lemma LostMicrosecond()
    ensures Double(Millis(1001) * 1000.0).Floor == 1000
  {
    SignificandScaled(1001);
    SignificandScaled(64064);
    SignificandScaled(4100096);
    SignificandScaled(262406144);
    SignificandScaled(16793993216);
    SignificandScaled(1074815565824);
    SignificandScaled(68788196212736);
    assert Significand(1001) == 8804889115230208;
    MillisAndBack(1001);
  }

  /** Rounding the milliseconds does not carry a latency across a bound of whole milliseconds. */
  lemma MillisBound(us: nat, bound: nat)
    requires bound <= 1000
    ensures Millis(us) <= bound as real <==> us <= 1000 * bound
  {
    var n := 1000 * bound;
    var x := Double(us as real);
    IntegerBounds(DOUBLE, us as real, n);
    IntegerBounds(DOUBLE, us as real, n + 1);
    if us <= n {
      assert x / 1000.0 <= bound as real;
      IntegerBounds(DOUBLE, x / 1000.0, bound);
    } else {
      assert 1024.0 * (x / 1000.0) >= (1024 * bound + 1) as real;
      TenBinades(x / 1000.0);
      IntegerBounds(DOUBLE, 1024.0 * (x / 1000.0), 1024 * bound + 1);
    }
  }

  lemma FloorAtLeast(n: int, y: real)
    requires n as real <= y
    ensures n <= y.Floor
  {
  }

  /** Truncating a rounded value: never below the whole part, never above the value by more than a half. */
  lemma TruncationBounds(x: real)
    requires 0.0 <= x < 2.0 * DOUBLE as real
    ensures x - 1.0 < Double(x).Floor as real <= x + 0.5
  {
    var n: nat := x.Floor;
    assert n <= 2 * DOUBLE;
    IntegerBounds(DOUBLE, x, n);
    MagnitudeError(DOUBLE, x);
    FloorAtLeast(n, Double(x));
  }

  // ---------- Nineteen twentieths ----------

  // 2^53 times the double nearest to 0.95.
  const NINETEEN_TWENTIETHS: nat := 8556839292003942

  lemma NearestToNineteenTwentieths()
    ensures Double(0.95) == NINETEEN_TWENTIETHS as real / 9007199254740992.0
  {
    TenBinades(0.95);
    TenBinades(972.8);
    TenBinades(996147.2);
    TenBinades(1020054732.8);
    TenBinades(1044536046387.2);
    TenBinades(1069604911500492.8);
    var x := 1069604911500492.8;
    MagnitudeDoubles(DOUBLE, x);
    MagnitudeDoubles(DOUBLE, 2.0 * x);
    MagnitudeDoubles(DOUBLE, 4.0 * x);
    HalfEvenNear(8.0 * x, NINETEEN_TWENTIETHS);
    IntegralBinade(8.0 * x);
  }

  /** The product of that double with 20 / 19 of v. */
  function Shrunk(v: real): real {
    v - v * 8.0 / 171136785840078848.0
  }

  /** Multiples of 19 are not powers of two, so a relative error below 2^-54 rounds away. */
  lemma {:induction false} ShrinkingRoundsAway(v: nat)
    requires 0 < v < 2 * DOUBLE && v % 19 == 0
    ensures Double(Shrunk(v as real)) == v as real
    decreases 2 * DOUBLE - v
  {
    var x := Shrunk(v as real);
    if v < DOUBLE {
      ShrinkingRoundsAway(2 * v);
      assert Shrunk((2 * v) as real) == 2.0 * x;
      MagnitudeDoubles(DOUBLE, x);
    } else {
      assert v as real - 0.5 < x <= v as real;
      HalfEvenNear(x, v);
      IntegralBinade(x);
    }
  }

  lemma ProductOfMultiple(x: real, k: nat)
    requires 0 < k < 0x10_0000_0000
    requires x == NINETEEN_TWENTIETHS as real / 9007199254740992.0 * (20 * k) as real
    ensures Double(x) == (19 * k) as real
  {
    ShrinkingRoundsAway(19 * k);
    assert x == Shrunk((19 * k) as real);
  }

  lemma ProductOfOther(x: real, n: nat)
    requires n < 0x100_0000_0000 && n % 20 != 0
    requires x == NINETEEN_TWENTIETHS as real / 9007199254740992.0 * n as real
    ensures Double(x).Floor == 19 * n / 20
  {
    var whole := 19 * n / 20;
    assert whole as real <= x;
    assert 1024.0 * x <= (1024 * whole + 1023) as real;
    IntegerBounds(DOUBLE, x, whole);
    TenBinades(x);
    IntegerBounds(DOUBLE, 1024.0 * x, 1024 * whole + 1023);
  }

  /** In doubles, too, 0.95 * n cut off to an integer is floor(19n/20). */
  lemma ProductCutOff(n: nat)
    requires n < 0x100_0000_0000
    ensures Double(Double(0.95) * n as real).Floor == 19 * n / 20
  {
    NearestToNineteenTwentieths();
    if n % 20 != 0 {
      ProductOfOther(Double(0.95) * n as real, n);
    } else if n > 0 {
      ProductOfMultiple(Double(0.95) * n as real, n / 20);
    }
  }
}

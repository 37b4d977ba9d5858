/** Exponential smoothing, with weight 0.3 for the newest value, over a whole run of values: the recurrence against its
    closed form. */
module Smoothing {
  import opened Prelude
  import opened Metrics

  /** The smoothed value after a run of raw values, starting from zero. */
  function Ema(raws: seq<real>): real {
    if raws == [] then 0.0
    else ComputeEma(raws[|raws| - 1], Ema(raws[..|raws| - 1]), 0.3)
  }

  /** What is left of a value after k windows. */
  function Decayed(k: nat, x: real): real {
    if k == 0 then x else 0.7 * Decayed(k - 1, x)
  }

  /** The k-th power of 0.7. */
  function Decay(k: nat): (d: real)
    ensures 0.0 < d <= 1.0
  {
    if k == 0 then 1.0 else 0.7 * Decay(k - 1)
  }

  /** k windows scale a value by the k-th power of 0.7. */
  lemma {:induction false} DecayedIsScaled(k: nat, x: real)
    ensures Decayed(k, x) == Decay(k) * x
  {
    if k == 0 {
    } else {
      DecayedIsScaled(k - 1, x);
    }
  }

  lemma {:induction false} DecayedOrdered(k: nat, x: real)
    requires 0.0 <= x
    ensures 0.0 <= Decayed(k, x) <= x
  {
    if k == 0 {
    } else {
      DecayedOrdered(k - 1, x);
    }
  }

  /** The contributions of the first `upto` values to the smoothed value after n values: a value aged k contributes its
      decayed 0.3-fold. */
  function WeightedSum(raws: seq<real>, n: nat, upto: nat): real
    requires upto <= |raws| && upto <= n
  {
    if upto == 0 then 0.0
    else WeightedSum(raws, n, upto - 1) + Decayed(n - upto, 0.3 * raws[upto - 1])
  }

  lemma {:induction false} WeightedSumAges(raws: seq<real>, n: nat, upto: nat)
    requires upto <= |raws| && upto <= n
    ensures WeightedSum(raws, n + 1, upto) == 0.7 * WeightedSum(raws, n, upto)
  {
    if upto == 0 {
    } else {
      WeightedSumAges(raws, n, upto - 1);
    }
  }

  lemma {:induction false} WeightedSumOfPrefix(raws: seq<real>, n: nat, upto: nat, cut: nat)
    requires upto <= cut <= |raws| && upto <= n
    ensures WeightedSum(raws[..cut], n, upto) == WeightedSum(raws, n, upto)
  {
    if upto == 0 {
    } else {
      WeightedSumOfPrefix(raws, n, upto - 1, cut);
    }
  }

  /** The recurrence equals the weighted sum of everything seen. */
  lemma {:induction false} EmaClosedForm(raws: seq<real>)
    ensures Ema(raws) == WeightedSum(raws, |raws|, |raws|)
  {
    if raws == [] {
    } else {
      var n := |raws| - 1;
      EmaClosedForm(raws[..n]);
      WeightedSumOfPrefix(raws, n, n, n);
      WeightedSumAges(raws, n, n);
    }
  }

  /** The smoothed value stays between 0 and the largest raw value, and approaches it no faster than by the decay of the
      whole distance. */
  lemma {:induction false} EmaBounded(raws: seq<real>, most: real)
    requires 0.0 <= most && forall i :: 0 <= i < |raws| ==> 0.0 <= raws[i] <= most
    ensures 0.0 <= Ema(raws) <= most - Decayed(|raws|, most) <= most
  {
    DecayedOrdered(|raws|, most);
    if raws == [] {
    } else {
      EmaBounded(raws[..|raws| - 1], most);
    }
  }

  function Zeros(k: nat): (z: seq<real>)
    ensures |z| == k
  {
    seq(k, _ => 0.0)
  }

  /** Over k windows without input the smoothed value decays by exactly 0.7^k; it is not reset. */
  lemma {:induction false} EmaOfSilence(raws: seq<real>, k: nat)
    ensures Ema(raws + Zeros(k)) == Decayed(k, Ema(raws))
  {
    if k == 0 {
      assert raws + Zeros(0) == raws;
    } else {
      EmaOfSilence(raws, k - 1);
      assert (raws + Zeros(k))[..|raws| + k - 1] == raws + Zeros(k - 1);
    }
  }

  /** What is left, after n values, of a change of d in value i. */
  function Influence(n: nat, i: nat, d: real): real
    requires i < n
  {
    Decayed(n - 1 - i, 0.3 * d)
  }

  /** Changing one raw value by d changes the smoothed value by exactly that much. */
  lemma {:induction false} EmaSensitivity(raws: seq<real>, changed: seq<real>, i: nat, d: real)
    requires i < |raws| && changed == raws[i := raws[i] + d]
    ensures Ema(changed) == Ema(raws) + Influence(|raws|, i, d)
  {
    var n := |raws| - 1;
    if i == n {
      assert changed[..n] == raws[..n];
    } else {
      assert changed[..n] == raws[..n][i := raws[..n][i] + d];
      EmaSensitivity(raws[..n], changed[..n], i, d);
    }
  }
}

/** Words of fixed width, optional values, and the sequence operations the rest of the model shares. */
module Prelude {

  datatype Option<+T> = None | Some(value: T)

  const TWO_TO_THE_32: nat := 0x1_0000_0000
  const TWO_TO_THE_64: nat := 0x1_0000_0000_0000_0000

  type U8 = x: int | 0 <= x < 256
  type U32 = x: int | 0 <= x < 0x1_0000_0000
  type U64 = x: int | 0 <= x < 0x1_0000_0000_0000_0000

  function Power(base: nat, k: nat): (p: nat)
    ensures base > 0 ==> p > 0
  {
    if k == 0 then 1 else base * Power(base, k - 1)
  }

  /** Concatenation of a sequence of sequences. */
  function Flatten<T>(parts: seq<seq<T>>): seq<T> {
    if parts == [] then [] else Flatten(parts[..|parts| - 1]) + parts[|parts| - 1]
  }

  /** A bounded channel after a non-blocking send: the item is queued if there is room and dropped otherwise. */
  function Offered<T>(queue: seq<T>, capacity: nat, item: T): (q: seq<T>)
    ensures |queue| <= capacity ==> |q| <= capacity
  {
    if |queue| < capacity then queue + [item] else queue
  }

  /** Total weight of a sequence. */
  function Sum<T>(xs: seq<T>, weight: T -> nat): nat {
    if xs == [] then 0 else Sum(xs[..|xs| - 1], weight) + weight(xs[|xs| - 1])
  }

  lemma SumSnoc<T>(xs: seq<T>, x: T, weight: T -> nat)
    ensures Sum(xs + [x], weight) == Sum(xs, weight) + weight(x)
  {
    assert (xs + [x])[..|xs|] == xs;
  }

  lemma FlattenSnoc<T>(parts: seq<seq<T>>, part: seq<T>)
    ensures Flatten(parts + [part]) == Flatten(parts) + part
  {
    assert (parts + [part])[..|parts|] == parts;
  }

  lemma {:induction false} SumConcat<T>(xs: seq<T>, ys: seq<T>, weight: T -> nat)
    ensures Sum(xs + ys, weight) == Sum(xs, weight) + Sum(ys, weight)
  {
    if ys == [] {
      assert xs + ys == xs;
    } else {
      var n := |ys| - 1;
      assert (xs + ys)[..|xs + ys| - 1] == xs + ys[..n];
      SumConcat(xs, ys[..n], weight);
    }
  }

  /** The weight of a flattened sequence is the sum of the weights of its parts. */
  lemma {:induction false} SumFlatten<T>(parts: seq<seq<T>>, weight: T -> nat)
    ensures Sum(Flatten(parts), weight) == Sum(parts, part => Sum(part, weight))
  {
    if parts == [] {
    } else {
      var n := |parts| - 1;
      SumFlatten(parts[..n], weight);
      SumConcat(Flatten(parts[..n]), parts[n], weight);
    }
  }

  /** Replacing one element exchanges its weight. */
  lemma {:induction false} SumUpdated<T>(xs: seq<T>, i: nat, x: T, weight: T -> nat)
    requires i < |xs|
    ensures Sum(xs[i := x], weight) == Sum(xs, weight) - weight(xs[i]) + weight(x)
  {
    var n := |xs| - 1;
    if i == n {
      assert xs[i := x][..n] == xs[..n];
    } else {
      SumUpdated(xs[..n], i, x, weight);
      assert xs[i := x][..n] == xs[..n][i := x];
    }
  }

  /** Rearranging a sequence does not change its weight. */
  lemma {:induction false} SumRearranged<T>(xs: seq<T>, ys: seq<T>, weight: T -> nat)
    requires multiset(xs) == multiset(ys)
    ensures Sum(xs, weight) == Sum(ys, weight)
    decreases |xs|
  {
    if xs == [] {
      assert |multiset(ys)| == 0;
    } else {
      var n := |xs| - 1;
      assert xs == xs[..n] + [xs[n]];
      assert xs[n] in multiset(ys);
      var i :| 0 <= i < |ys| && ys[i] == xs[n];
      var rest := ys[..i] + ys[i + 1..];
      assert ys == ys[..i] + [ys[i]] + ys[i + 1..];
      assert multiset(rest) == multiset(ys) - multiset{ys[i]};
      assert multiset(xs[..n]) == multiset(xs) - multiset{xs[n]};
      SumRearranged(xs[..n], rest, weight);
      SumConcat(ys[..i], ys[i + 1..], weight);
      SumConcat(ys[..i] + [ys[i]], ys[i + 1..], weight);
      SumSnoc(ys[..i], ys[i], weight);
    }
  }

  /** Sums are monotone in the weight. */
  lemma {:induction false} SumMonotone<T>(xs: seq<T>, small: T -> nat, large: T -> nat)
    requires forall x :: x in xs ==> small(x) <= large(x)
    ensures Sum(xs, small) <= Sum(xs, large)
  {
    if xs == [] {
    } else {
      SumMonotone(xs[..|xs| - 1], small, large);
    }
  }

  /** The rows that are not erased, in order. */
  function Retained<R>(rows: seq<R>, erased: R -> bool): seq<R> {
    if rows == [] then []
    else
      var n := |rows| - 1;
      Retained(rows[..n], erased) + if erased(rows[n]) then [] else [rows[n]]
  }

  lemma RetainedSnoc<R>(rows: seq<R>, row: R, erased: R -> bool)
    ensures Retained(rows + [row], erased) == Retained(rows, erased) + if erased(row) then [] else [row]
  {
    assert (rows + [row])[..|rows|] == rows;
  }

  lemma {:induction false} RetainedAll<R>(rows: seq<R>, erased: R -> bool)
    requires forall r :: !erased(r)
    ensures Retained(rows, erased) == rows
  {
    if rows == [] {
    } else {
      var n := |rows| - 1;
      RetainedAll(rows[..n], erased);
      assert !erased(rows[n]) && rows == rows[..n] + [rows[n]];
    }
  }

  lemma {:induction false} RetainedNone<R>(rows: seq<R>, erased: R -> bool)
    requires forall r :: erased(r)
    ensures Retained(rows, erased) == []
  {
    if rows == [] {
    } else {
      RetainedNone(rows[..|rows| - 1], erased);
    }
  }

  lemma {:induction false} RetainedSame<R>(rows: seq<R>, a: R -> bool, b: R -> bool)
    requires forall r :: a(r) == b(r)
    ensures Retained(rows, a) == Retained(rows, b)
  {
    if rows == [] {
    } else {
      RetainedSame(rows[..|rows| - 1], a, b);
    }
  }

  lemma {:induction false} RetainedConcat<R>(a: seq<R>, b: seq<R>, erased: R -> bool)
    ensures Retained(a + b, erased) == Retained(a, erased) + Retained(b, erased)
  {
    if b == [] {
      assert a + b == a;
    } else {
      var n := |b| - 1;
      assert (a + b)[..|a| + n] == a + b[..n];
      RetainedConcat(a, b[..n], erased);
    }
  }

  lemma {:induction false} RetainedTwice<R>(rows: seq<R>, a: R -> bool, b: R -> bool, either: R -> bool)
    requires forall r :: either(r) == (a(r) || b(r))
    ensures Retained(Retained(rows, a), b) == Retained(rows, either)
  {
    if rows == [] {
    } else {
      var n := |rows| - 1;
      RetainedTwice(rows[..n], a, b, either);
      if a(rows[n]) {
        assert Retained(rows, a) == Retained(rows[..n], a);
      } else {
        RetainedSnoc(Retained(rows[..n], a), rows[n], b);
      }
    }
  }

  lemma {:induction false} RetainedMembers<R>(rows: seq<R>, erased: R -> bool, row: R)
    ensures row in Retained(rows, erased) <==> row in rows && !erased(row)
  {
    if rows == [] {
    } else {
      var n := |rows| - 1;
      RetainedMembers(rows[..n], erased, row);
      assert rows == rows[..n] + [rows[n]];
    }
  }

  /** Each row that is not erased is found at the place the earlier ones leave it. */
  lemma {:induction false} RetainedAt<R>(rows: seq<R>, erased: R -> bool, i: nat)
    requires i < |rows| && !erased(rows[i])
    ensures |Retained(rows[..i], erased)| < |Retained(rows, erased)|
    ensures Retained(rows, erased)[|Retained(rows[..i], erased)|] == rows[i]
  {
    var n := |rows| - 1;
    if i == n {
    } else {
      RetainedAt(rows[..n], erased, i);
      assert rows[..n][..i] == rows[..i];
    }
  }

  /** One for each row that is not erased. */
  function Remains<R>(erased: R -> bool): R -> nat {
    row => if erased(row) then 0 else 1
  }

  /** There are no other rows. */
  lemma {:induction false} RetainedSize<R>(rows: seq<R>, erased: R -> bool)
    ensures |Retained(rows, erased)| == Sum(rows, Remains(erased))
  {
    if rows == [] {
    } else {
      RetainedSize(rows[..|rows| - 1], erased);
    }
  }
}

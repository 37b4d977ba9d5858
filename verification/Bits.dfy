/** Exclusive or on natural numbers, bit by bit, and what it does to words made of a high and a low part. */
module Bits {
  import opened Prelude

  function Xor(a: nat, b: nat): nat
    decreases a + b
  {
    if a == 0 && b == 0 then 0
    else (if a % 2 == b % 2 then 0 else 1) + 2 * Xor(a / 2, b / 2)
  }

  lemma {:induction false} XorCommutes(a: nat, b: nat)
    ensures Xor(a, b) == Xor(b, a)
    decreases a + b
  {
    if a == 0 && b == 0 {
    } else {
      XorCommutes(a / 2, b / 2);
    }
  }

  /** Applying the same mask twice restores the word. */
  lemma {:induction false} XorUndoes(a: nat, b: nat)
    ensures Xor(Xor(a, b), b) == a
    decreases a + b
  {
    if a == 0 && b == 0 {
    } else {
      XorUndoes(a / 2, b / 2);
      var x := Xor(a, b);
      assert x / 2 == Xor(a / 2, b / 2);
      assert x % 2 == if a % 2 == b % 2 then 0 else 1;
    }
  }

  /** For a fixed word, different masks give different results, and the other way round. */
  lemma XorCancels(a: nat, b: nat, c: nat)
    ensures Xor(a, b) == Xor(a, c) ==> b == c
    ensures Xor(b, a) == Xor(c, a) ==> b == c
  {
    XorUndoes(b, a);
    XorUndoes(c, a);
    XorCommutes(a, b);
    XorCommutes(a, c);
  }

  lemma {:induction false} XorStaysBelow(a: nat, b: nat, k: nat)
    requires a < Power(2, k) && b < Power(2, k)
    ensures Xor(a, b) < Power(2, k)
    decreases k
  {
    if k == 0 || (a == 0 && b == 0) {
    } else {
      XorStaysBelow(a / 2, b / 2, k - 1);
    }
  }

  lemma FourMoreBits(k: nat)
    ensures Power(2, k + 4) == 16 * Power(2, k)
  {
    assert Power(2, k + 1) == 2 * Power(2, k);
    assert Power(2, k + 2) == 2 * Power(2, k + 1);
    assert Power(2, k + 3) == 2 * Power(2, k + 2);
    assert Power(2, k + 4) == 2 * Power(2, k + 3);
  }

  lemma SixteenMoreBits(k: nat)
    ensures Power(2, k + 16) == 0x1_0000 * Power(2, k)
  {
    FourMoreBits(k);
    FourMoreBits(k + 4);
    FourMoreBits(k + 8);
    FourMoreBits(k + 12);
  }

  lemma WordBound(bits: nat)
    requires bits == 64
    ensures Power(2, bits) == 0x1_0000_0000_0000_0000
  {
    var none := bits - 64;
    SixteenMoreBits(none);
    SixteenMoreBits(none + 16);
    SixteenMoreBits(none + 32);
    SixteenMoreBits(none + 48);
  }

  lemma ByteShortOfWord(bits: nat)
    requires bits == 56
    ensures Power(2, bits) == 0x100_0000_0000_0000
  {
    WordBound(bits + 8);
    FourMoreBits(bits);
    FourMoreBits(bits + 4);
  }

  /** One binary digit of the exclusive or. */
  lemma XorHalves(a: nat, b: nat)
    ensures Xor(a, b) / 2 == Xor(a / 2, b / 2)
    ensures Xor(a, b) % 2 == if a % 2 == b % 2 then 0 else 1
  {
  }

  lemma {:induction false} XorZero(a: nat)
    ensures Xor(a, 0) == a
  {
    if a == 0 {
    } else {
      XorZero(a / 2);
    }
  }

  /** Mixing a byte into a word leaves everything above the low byte alone. */
  lemma XorWithByte(h: nat, b: nat)
    requires b < 256
    ensures Xor(h, b) == 256 * (h / 256) + Xor(h % 256, b)
    ensures Xor(h % 256, b) < 256 && Xor(h, b) / 256 == h / 256 && Xor(h, b) % 256 == Xor(h % 256, b)
  {
    var none: nat, byte: nat := b / 256, b % 256;
    assert none == 0 && byte == b;
    XorByBytes(h, b);
    XorZero(h / 256);
    RemainderAndQuotient(h / 256, Xor(h % 256, b));
  }

  lemma RemainderAndQuotient(high: nat, low: nat)
    requires low < 256
    ensures (256 * high + low) / 256 == high && (256 * high + low) % 256 == low
  {
  }

  lemma {:induction false} XorAssociates(a: nat, b: nat, c: nat)
    ensures Xor(Xor(a, b), c) == Xor(a, Xor(b, c))
    decreases a + b + c
  {
    if a + b + c == 0 {
    } else {
      XorHalves(a, b);
      XorHalves(b, c);
      XorHalves(Xor(a, b), c);
      XorHalves(a, Xor(b, c));
      XorAssociates(a / 2, b / 2, c / 2);
    }
  }

  // The next two lemmas speak of any operation that treats every binary digit as exclusive or does.

  type Operation = (nat, nat) -> nat

  predicate DigitLaw(op: Operation, a: nat, b: nat) {
    op(a, b) == 2 * op(a / 2, b / 2) + if a % 2 == b % 2 then 0 else 1
  }

  ghost predicate Digitwise(op: Operation) {
    op(0, 0) == 0 && forall a: nat, b: nat :: DigitLaw(op, a, b)
  }

  lemma XorDigitwise()
    ensures Digitwise(Xor)
  {
  }

  lemma HalfOfSum(x: nat, low: nat)
    ensures (2 * x + low) / 2 == x + low / 2 && (2 * x + low) % 2 == low % 2
  {
  }

  lemma {:induction false} Complements(op: Operation, x: nat, k: nat)
    requires Digitwise(op) && x < Power(2, k)
    ensures op(x, Power(2, k) - 1) == Power(2, k) - 1 - x
    decreases k
  {
    if k == 0 {
    } else {
      var ones := Power(2, k - 1) - 1;
      HalfOfSum(ones, 1);
      assert DigitLaw(op, x, 2 * ones + 1);
      Complements(op, x / 2, k - 1);
    }
  }

  lemma DigitOff(op: Operation, x: nat, y: nat, low: nat, mask: nat)
    requires Digitwise(op)
    ensures op(2 * x + low, 2 * y + mask) - op(low, mask) == 2 * (op(x + low / 2, y + mask / 2) - op(low / 2, mask / 2))
  {
    assert DigitLaw(op, 2 * x + low, 2 * y + mask) && DigitLaw(op, low, mask);
    HalfOfSum(x, low);
    HalfOfSum(y, mask);
  }

  lemma {:induction false} SplitsAnywhere(op: Operation, a: nat, b: nat, low: nat, mask: nat, k: nat)
    requires Digitwise(op)
    requires low < Power(2, k) && mask < Power(2, k)
    ensures op(Power(2, k) * a + low, Power(2, k) * b + mask) == Power(2, k) * op(a, b) + op(low, mask)
    decreases k
  {
    if k == 0 {
    } else {
      var half := Power(2, k - 1);
      SplitsAnywhere(op, a, b, low / 2, mask / 2, k - 1);
      DigitOff(op, half * a, half * b, low, mask);
      Doubled(half, a);
      Doubled(half, b);
      Doubled(half, op(a, b));
    }
  }

  lemma Doubled(half: nat, a: nat)
    ensures 2 * half * a == 2 * (half * a)
  {
  }

  /** Exclusive or with all ones is the complement. */
  lemma XorWithOnes(x: nat, k: nat)
    requires x < Power(2, k)
    ensures Xor(x, Power(2, k) - 1) == Power(2, k) - 1 - x
  {
    XorDigitwise();
    Complements(Xor, x, k);
  }

  lemma TwoHundredFiftySix(bits: nat)
    requires bits == 8
    ensures Power(2, bits) == 256
  {
    var none := bits - 8;
    FourMoreBits(none);
    FourMoreBits(none + 4);
  }

  lemma SplitsAtByte(op: Operation, a: nat, b: nat, bits: nat)
    requires Digitwise(op) && bits == 8
    ensures op(a, b) == 256 * op(a / 256, b / 256) + op(a % 256, b % 256)
  {
    TwoHundredFiftySix(bits);
    SplitsAnywhere(op, a / 256, b / 256, a % 256, b % 256, bits);
  }

  lemma XorOfBytes(a: nat, b: nat, bits: nat)
    requires a < 256 && b < 256 && bits == 8
    ensures Xor(a, b) < 256
  {
    TwoHundredFiftySix(bits);
    XorStaysBelow(a, b, bits);
  }

  /** High and low byte of an exclusive or come from the high parts and from the low bytes alone. */
  lemma XorByBytes(a: nat, b: nat)
    ensures Xor(a, b) == 256 * Xor(a / 256, b / 256) + Xor(a % 256, b % 256)
    ensures Xor(a % 256, b % 256) < 256
  {
    XorDigitwise();
    SplitsAtByte(Xor, a, b, 8);
    XorOfBytes(a % 256, b % 256, 8);
  }
}

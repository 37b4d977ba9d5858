/** The kernel's hash of a command name against user space's. They differ in what a character above 127 does, because the
    kernel's char is signed. */
module CommandNames {
  import opened Prelude
  import opened Bits
  import opened Fnv

  predicate Ascii(bytes: seq<U8>) {
    forall i :: 0 <= i < |bytes| ==> bytes[i] < 128
  }

  /** On names made of 7-bit characters the kernel and user space compute the same hash. */
  lemma CStringHashAgrees(text: seq<U8>)
    requires Ascii(text)
    ensures KernelHash(text) == Hash(text)
  {
    assert SignExtendAll(text) == text;
  }

  /** The word with the bits of the low byte kept and all others complemented. */
  function Mirror(x: U64): (m: U64)
    ensures x + m == TWO_TO_THE_64 - 256 + 2 * (x % 256)
    ensures m % 256 == x % 256
  {
    256 * (0xFF_FFFF_FFFF_FFFF - x / 256) + x % 256
  }

  const HIGH_BITS: U64 := TWO_TO_THE_64 - 256

  lemma OnesComplement(x: nat, bits: nat)
    requires bits == 56 && x <= 0xFF_FFFF_FFFF_FFFF
    ensures Xor(x, 0xFF_FFFF_FFFF_FFFF) == 0xFF_FFFF_FFFF_FFFF - x
  {
    ByteShortOfWord(bits);
    XorWithOnes(x, bits);
  }

  lemma MirrorIsXor(x: U64)
    ensures Mirror(x) == Xor(x, HIGH_BITS)
  {
    var ones: nat, none: nat := HIGH_BITS / 256, HIGH_BITS % 256;
    assert ones == 0xFF_FFFF_FFFF_FFFF && none == 0;
    XorByBytes(x, HIGH_BITS);
    OnesComplement(x / 256, 56);
    XorZero(x % 256);
  }

  /** Exclusive or with a sign-extended high character mirrors what user space gets. */
  lemma SignExtensionMirrors(h: U64, b: U8)
    requires b >= 128
    ensures Xor(h, b) < TWO_TO_THE_64 && Xor(h, SignExtend(b)) == Mirror(Xor(h, b))
    ensures forall g: U64 :: Xor(g, SignExtend(b)) == Xor(h, b) <==> g == Mirror(h)
  {
    XorIsWord(h, b);
    MirrorIsXor(b);
    assert SignExtend(b) == Mirror(b);
    XorAssociates(h, b, HIGH_BITS);
    MirrorIsXor(Xor(h, b));
    forall g: U64 ensures Xor(g, SignExtend(b)) == Xor(h, b) <==> g == Mirror(h) {
      MirrorIsXor(h);
      XorAssociates(h, HIGH_BITS, SignExtend(b));
      XorAssociates(HIGH_BITS, b, HIGH_BITS);
      XorCommutes(HIGH_BITS, b);
      XorUndoes(b, HIGH_BITS);
      XorCommutes(HIGH_BITS, SignExtend(b));
      assert Xor(Mirror(h), SignExtend(b)) == Xor(h, b);
      XorCancels(SignExtend(b), g, Mirror(h));
    }
  }

  lemma {:induction false} FoldSplits(step: Mixer, h: U64, xs: seq<U64>, ys: seq<U64>)
    ensures FoldLeft(step, h, xs + ys) == FoldLeft(step, FoldLeft(step, h, xs), ys)
    decreases |xs|
  {
    if xs == [] {
      assert xs + ys == ys;
    } else {
      assert (xs + ys)[1..] == xs[1..] + ys;
      FoldSplits(step, step(h, xs[0]), xs[1..], ys);
    }
  }

  lemma StatesAfterOneMore(text: seq<U8>, b: U8)
    ensures Hash(text + [b]) == Mix(Hash(text), b)
    ensures KernelHash(text + [b]) == Mix(KernelHash(text), SignExtend(b))
  {
    assert SignExtendAll(text + [b]) == SignExtendAll(text) + [SignExtend(b)];
    FoldSplits(Mix, OFFSET_BASIS, SignExtendAll(text), [SignExtend(b)]);
    FoldSplits(Mix, OFFSET_BASIS, text, [b]);
  }

  lemma AsciiTail(text: seq<U8>, tail: seq<U8>)
    requires Ascii(tail)
    ensures KernelHash(text + tail) == Hash(text + tail) <==> KernelHash(text) == Hash(text)
  {
    assert SignExtendAll(text + tail) == SignExtendAll(text) + tail;
    FoldSplits(Mix, OFFSET_BASIS, SignExtendAll(text), tail);
    FoldSplits(Mix, OFFSET_BASIS, text, tail);
    SuffixKeepsStatesApart(KernelHash(text), Hash(text), tail);
  }

  lemma MixOfHigh(g: U64, h: U64, b: U8)
    requires b >= 128
    ensures Mix(g, SignExtend(b)) == Mix(h, b) <==> g == Mirror(h)
  {
    SignExtensionMirrors(h, b);
    if Mix(g, SignExtend(b)) == Mix(h, b) {
      MixInjective(g, h, SignExtend(b), b);
    }
  }

  /** The last character above 127 decides: the hashes of a name agree exactly if it finds the kernel's state to be the
      mirror of user space's. */
  lemma LastHighCharacterDecides(text: seq<U8>, last: nat)
    requires last < |text| && text[last] >= 128 && Ascii(text[last + 1..])
    ensures KernelHash(text) == Hash(text) <==> KernelHash(text[..last]) == Mirror(Hash(text[..last]))
  {
    var b := text[last];
    assert text == text[..last] + [b] + text[last + 1..];
    AsciiTail(text[..last] + [b], text[last + 1..]);
    StatesAfterOneMore(text[..last], b);
    MixOfHigh(KernelHash(text[..last]), Hash(text[..last]), b);
  }

  /** Two states as a pair whose sum is known up to a multiple of 2^64, with the same low byte. */
  predicate Paired(g: U64, h: U64, sum: int, k: int) {
    g + h == sum + TWO_TO_THE_64 * k && g % 256 == h % 256
  }

  lemma LowByteOfSum(u: int, z: int)
    ensures (u + 256 * z) % 256 == u % 256
  {
  }

  lemma LowByteOfProduct(x: nat)
    ensures x * PRIME % TWO_TO_THE_64 % 256 == x % 256 * PRIME % 256
  {
    var q := x * PRIME / TWO_TO_THE_64;
    LowByteOfSum(x % 256 * PRIME, x / 256 * PRIME - 0x100_0000_0000_0000 * q);
  }

  lemma SameLowByte(x: nat, y: nat)
    requires x % 256 == y % 256
    ensures x * PRIME % TWO_TO_THE_64 % 256 == y * PRIME % TWO_TO_THE_64 % 256
    ensures x % 256 == 128 ==> x * PRIME % TWO_TO_THE_64 % 256 == 128
  {
    LowByteOfProduct(x);
    LowByteOfProduct(y);
  }

  /** A state and its mirror, after multiplication by the prime. */
  lemma MirroredPair(x: U64) returns (k: int)
    ensures Paired(Mirror(x) * PRIME % TWO_TO_THE_64, x * PRIME % TWO_TO_THE_64, 2 * (x % 256 - 128) * PRIME, k)
  {
    SameLowByte(x, Mirror(x));
    var m := Mirror(x);
    k := PRIME - x * PRIME / TWO_TO_THE_64 - m * PRIME / TWO_TO_THE_64;
    assert m * PRIME + x * PRIME == (TWO_TO_THE_64 - 256 + 2 * (x % 256)) * PRIME;
  }

  /** A pair consists of a state and its mirror exactly if its sum tells so modulo 2^64. */
  lemma MirroredPairSum(g: U64, h: U64, sum: int, k: int) returns (j: int)
    requires Paired(g, h, sum, k) && g == Mirror(h)
    ensures sum - 2 * (h % 256 - 128) == TWO_TO_THE_64 * j
  {
    j := 1 - k;
  }

  lemma SumMakesMirroredPair(g: U64, h: U64, sum: int, k: int, j: int)
    requires Paired(g, h, sum, k) && sum - 2 * (h % 256 - 128) == TWO_TO_THE_64 * j
    ensures g == Mirror(h)
  {
    var r := h % 256;
    assert g == 256 * (g / 256) + r && h == 256 * (h / 256) + r;
    assert 256 * (g / 256 + h / 256 + 1) == TWO_TO_THE_64 * (j + k);
    assert j + k == 1;
  }

  /** A pair from one high character is mirrored exactly if that character made the low byte 128. */
  lemma MirroredExactly(kernel: U64, user: U64, low: U8, k: int)
    requires Paired(kernel, user, 2 * (low - 128) * PRIME, k)
    requires low == 128 ==> user % 256 == 128
    ensures kernel == Mirror(user) <==> low == 128
  {
    if kernel == Mirror(user) {
      var j := MirroredPairSum(kernel, user, 2 * (low - 128) * PRIME, k);
      DifferencePolynomial(0, 0, 2 * (low - 128), -2 * (user % 256 - 128), j);
    }
    if low == 128 {
      SumMakesMirroredPair(kernel, user, 0, k, 0);
    }
  }

  /** On names whose only two characters above 127 are neighbours the hashes agree exactly if the first of them meets a
      state whose low byte it turns into 128. */
  lemma NeighboursAgree(text: seq<U8>, i: nat)
    requires i + 1 < |text| && text[i] >= 128 && text[i + 1] >= 128
    requires Ascii(text[..i]) && Ascii(text[i + 2..])
    ensures KernelHash(text) == Hash(text) <==> Xor(Hash(text[..i]), text[i]) % 256 == 128
  {
    var h := Hash(text[..i]);
    var x := Xor(h, text[i]);
    LastHighCharacterDecides(text, i + 1);
    assert text[..i + 1] == text[..i] + [text[i]];
    CStringHashAgrees(text[..i]);
    StatesAfterOneMore(text[..i], text[i]);
    SignExtensionMirrors(h, text[i]);
    var k := MirroredPair(x);
    SameLowByte(x, x);
    MirroredExactly(KernelHash(text[..i + 1]), Hash(text[..i + 1]), x % 256, k);
  }

  lemma MaskedBasis()
    ensures Xor(0x25, 0xA5) == 128
  {
    assert Xor(0, 2) == 2 && Xor(1, 5) == 4 && Xor(2, 10) == 8 && Xor(4, 20) == 16;
    assert Xor(9, 41) == 32 && Xor(18, 82) == 64;
  }

  lemma OnlyMask(low: nat, mask: nat, a: nat)
    requires Xor(low, mask) == 128
    ensures Xor(low, a) == 128 <==> a == mask
  {
    XorCancels(low, a, mask);
  }

  lemma OnlyMaskTo128(h: U64, a: U8)
    requires h % 256 == 0x25
    ensures Xor(h, a) % 256 == 128 <==> a == 0xA5
  {
    XorWithByte(h, a);
    MaskedBasis();
    OnlyMask(0x25, 0xA5, a);
  }

  lemma HighsOfTwo(a: U8, b: U8)
    ensures Highs([a, b]) == (if a >= 128 then 1 else 0) + if b >= 128 then 1 else 0
  {
    var none: seq<U8> := [];
    SumSnoc(none, a, IsHigh());
    SumSnoc([a], b, IsHigh());
    assert none + [a] == [a] && [a] + [b] == [a, b];
  }

  /** Two characters: besides the 7-bit names, 0xA5 followed by any of the 128 high characters. */
  lemma TwoCharacterNames(a: U8, b: U8)
    ensures KernelHash([a, b]) == Hash([a, b]) <==> (a < 128 && b < 128) || (a == 0xA5 && b >= 128)
  {
    var text := [a, b];
    if a < 128 && b < 128 {
      CStringHashAgrees(text);
    } else if a >= 128 && b >= 128 {
      assert text[..0] == [] && text[2..] == [];
      NeighboursAgree(text, 0);
      OnlyMaskTo128(OFFSET_BASIS, a);
    } else {
      HighsOfTwo(a, b);
      CStringHashDiffers(text);
    }
  }

  lemma PairMultiplied(x: U64, y: U64, sum: int, k: int) returns (k': int)
    requires Paired(x, y, sum, k)
    ensures Paired(x * PRIME % TWO_TO_THE_64, y * PRIME % TWO_TO_THE_64, sum * PRIME, k')
  {
    SameLowByte(x, y);
    k' := k * PRIME - x * PRIME / TWO_TO_THE_64 - y * PRIME / TWO_TO_THE_64;
    assert x * PRIME + y * PRIME == sum * PRIME + TWO_TO_THE_64 * (k * PRIME);
  }

  /** How far a mask moves a word is told by its low byte. */
  lemma MaskedByLowByte(h: U64, c: U8)
    ensures Xor(h, c) < TWO_TO_THE_64 && Xor(h, c) % 256 == Xor(h % 256, c)
    ensures Xor(h, c) - h == Xor(h % 256, c) - h % 256
    ensures -255 <= Xor(h, c) - h <= 255
  {
    XorIsWord(h, c);
    XorWithByte(h, c);
  }

  lemma MaskMoves(h: nat, c: nat)
    requires c > 0
    ensures Xor(h, c) != h
  {
    XorCancels(h, c, 0);
    XorZero(h);
  }

  lemma PairMasked(g: U64, h: U64, sum: int, k: int, c: U8) returns (delta: int)
    requires Paired(g, h, sum, k)
    ensures Xor(g, c) < TWO_TO_THE_64 && Xor(h, c) < TWO_TO_THE_64
    ensures Paired(Xor(g, c), Xor(h, c), sum + 2 * delta, k)
    ensures -255 <= delta <= 255 && (c > 0 ==> delta != 0)
  {
    MaskedByLowByte(g, c);
    MaskedByLowByte(h, c);
    delta := Xor(h, c) - h;
    if c > 0 {
      MaskMoves(h, c);
    }
  }

  /** One 7-bit character takes a pair of states to a pair. */
  lemma PairStep(text: seq<U8>, sum: int, k: int, c: U8) returns (delta: int, k': int)
    requires Paired(KernelHash(text), Hash(text), sum, k) && c < 128
    ensures Paired(KernelHash(text + [c]), Hash(text + [c]), (sum + 2 * delta) * PRIME, k')
    ensures -255 <= delta <= 255 && (c > 0 ==> delta != 0)
  {
    StatesAfterOneMore(text, c);
    delta := PairMasked(KernelHash(text), Hash(text), sum, k, c);
    k' := PairMultiplied(Xor(KernelHash(text), c), Xor(Hash(text), c), sum + 2 * delta, k);
  }

  /** The first high character makes a pair. */
  lemma PairStarts(text: seq<U8>, b: U8) returns (d: int, k: int)
    requires Ascii(text) && b >= 128
    ensures Paired(KernelHash(text + [b]), Hash(text + [b]), d * PRIME, k) && -256 <= d <= 256
  {
    var h := Hash(text);
    CStringHashAgrees(text);
    StatesAfterOneMore(text, b);
    SignExtensionMirrors(h, b);
    d := 2 * (Xor(h, b) % 256 - 128);
    k := MirroredPair(Xor(h, b));
  }

  lemma NotMirrored(g: U64, h: U64, a: int, b: int, c: int, k: int)
    requires Paired(g, h, ((a * PRIME + b) * PRIME + c) * PRIME, k)
    requires -256 <= a <= 256 && -510 <= b <= 510 && -510 <= c <= 510 && c != 0
    ensures g != Mirror(h)
  {
    if g == Mirror(h) {
      var m := MirroredPairSum(g, h, ((a * PRIME + b) * PRIME + c) * PRIME, k);
      DifferencePolynomial(a, b, c, -2 * (h % 256 - 128), m);
    }
  }

  lemma OneBetween(text: seq<U8>, b: U8, c: U8)
    requires Ascii(text) && b >= 128 && 0 < c < 128
    ensures KernelHash(text + [b] + [c]) != Mirror(Hash(text + [b] + [c]))
  {
    var d, k := PairStarts(text, b);
    var e, k1 := PairStep(text + [b], d * PRIME, k, c);
    NotMirrored(KernelHash(text + [b] + [c]), Hash(text + [b] + [c]), 0, d, 2 * e, k1);
  }

  lemma TwoBetween(text: seq<U8>, b: U8, c1: U8, c2: U8)
    requires Ascii(text) && b >= 128 && 0 < c1 < 128 && 0 < c2 < 128
    ensures KernelHash(text + [b] + [c1] + [c2]) != Mirror(Hash(text + [b] + [c1] + [c2]))
  {
    var d, k := PairStarts(text, b);
    var e, k1 := PairStep(text + [b], d * PRIME, k, c1);
    var f, k2 := PairStep(text + [b] + [c1], (d * PRIME + 2 * e) * PRIME, k1, c2);
    NotMirrored(KernelHash(text + [b] + [c1] + [c2]), Hash(text + [b] + [c1] + [c2]), d, 2 * e, 2 * f, k2);
  }

  /** On names whose only two characters above 127 have one or two others between them, the hashes always differ. */
  lemma CloseCharactersDiffer(text: seq<U8>, i: nat, j: nat)
    requires i + 2 <= j <= i + 3 && j < |text| && text[i] >= 128 && text[j] >= 128
    requires Ascii(text[..i]) && Ascii(text[i + 1..j]) && Ascii(text[j + 1..])
    requires 0 !in text
    ensures KernelHash(text) != Hash(text)
  {
    LastHighCharacterDecides(text, j);
    assert text[i + 1] == text[i + 1..j][0];
    if j == i + 2 {
      assert text[..j] == text[..i] + [text[i]] + [text[i + 1]];
      OneBetween(text[..i], text[i], text[i + 1]);
    } else {
      assert text[i + 2] == text[i + 1..j][1];
      assert text[..j] == text[..i] + [text[i]] + [text[i + 1]] + [text[i + 2]];
      TwoBetween(text[..i], text[i], text[i + 1], text[i + 2]);
    }
  }

  // ---------- The exact condition ----------

  /** How far below itself, modulo 2^64, a word's mirror is. */
  function Reflection(x: U64): nat {
    512 * (x / 256) + 256
  }

  /** The kernel's state less user space's after a text, modulo 2^64. Only states of user space occur in it. */
  function Offset(text: seq<U8>): int {
    if text == [] then 0
    else
      var n := |text| - 1;
      var d := Offset(text[..n]);
      (if text[n] < 128 then d else -(d + Reflection(Hash(text[..n])))) * PRIME
  }

  /** Two words with the same low byte that are e apart up to a multiple of 2^64. */
  predicate Apart(x: U64, y: U64, e: int, k: int) {
    x - y == e + TWO_TO_THE_64 * k && x % 256 == y % 256
  }

  lemma ProductsApart(x: U64, y: U64, e: int, k: int) returns (k': int)
    requires Apart(x, y, e, k)
    ensures Apart(x * PRIME % TWO_TO_THE_64, y * PRIME % TWO_TO_THE_64, e * PRIME, k')
  {
    SameLowByte(x, y);
    k' := k * PRIME - x * PRIME / TWO_TO_THE_64 + y * PRIME / TWO_TO_THE_64;
    assert x * PRIME - y * PRIME == e * PRIME + TWO_TO_THE_64 * (k * PRIME);
  }

  lemma MaskedApart(g: U64, h: U64, e: int, k: int, b: U8)
    requires Apart(g, h, e, k)
    ensures Xor(g, b) < TWO_TO_THE_64 && Xor(h, b) < TWO_TO_THE_64
    ensures Apart(Xor(g, b), Xor(h, b), e, k) && Reflection(Xor(h, b)) == Reflection(h)
  {
    MaskedByLowByte(g, b);
    MaskedByLowByte(h, b);
    XorWithByte(h, b);
  }

  lemma MirrorApart(x: U64, y: U64, e: int, k: int)
    requires Apart(x, y, e, k)
    ensures Apart(Mirror(x), y, -(e + Reflection(y)), 1 - k)
  {
  }

  /** The offset tells the kernel's state from user space's, and the two always share their low byte. */
  lemma {:induction false} OffsetTells(text: seq<U8>) returns (k: int)
    ensures Apart(KernelHash(text), Hash(text), Offset(text), k)
  {
    if text == [] {
      k := 0;
    } else {
      var n := |text| - 1;
      var b, kernel, user := text[n], KernelHash(text[..n]), Hash(text[..n]);
      var d := Offset(text[..n]);
      k := OffsetTells(text[..n]);
      assert text == text[..n] + [b];
      StatesAfterOneMore(text[..n], b);
      MaskedApart(kernel, user, d, k, b);
      if b < 128 {
        k := ProductsApart(Xor(kernel, b), Xor(user, b), d, k);
      } else {
        SignExtensionMirrors(kernel, b);
        MirrorApart(Xor(kernel, b), Xor(user, b), d, k);
        k := ProductsApart(Mirror(Xor(kernel, b)), Xor(user, b), -(d + Reflection(user)), 1 - k);
      }
    }
  }

  lemma WordsLessThanAWordApart(x: U64, y: U64, j: int)
    requires x - y == TWO_TO_THE_64 * j
    ensures x == y
  {
  }

  lemma ApartFromEqual(x: U64, y: U64, e: int, k: int)
    requires Apart(x, y, e, k)
    ensures x == y <==> e % TWO_TO_THE_64 == 0
  {
    if x == y {
      assert e == TWO_TO_THE_64 * -k;
    }
    if e % TWO_TO_THE_64 == 0 {
      WordsLessThanAWordApart(x, y, e / TWO_TO_THE_64 + k);
    }
  }

  /** For every name, of any length and with any characters: the kernel's hash and user space's agree exactly if the
      offset is a multiple of 2^64. */
  lemma HashesAgreeExactly(text: seq<U8>)
    ensures KernelHash(text) == Hash(text) <==> Offset(text) % TWO_TO_THE_64 == 0
  {
    var k := OffsetTells(text);
    ApartFromEqual(KernelHash(text), Hash(text), Offset(text), k);
  }

  function IsHigh(): U8 -> nat {
    (b: U8) => if b >= 128 then 1 else 0
  }

  /** How many characters are above 127. */
  function Highs(text: seq<U8>): nat {
    Sum(text, IsHigh())
  }

  lemma ParityOfProduct(m: int)
    ensures m * PRIME % 2 == m % 2
  {
    assert m * PRIME == m + 2 * (m * 0x80000000d9);
  }

  predicate OfParity(offset: int, m: int, count: nat) {
    offset == 256 * m && m % 2 == count % 2
  }

  lemma ParityOfMultiple(x: int, m: int, count: nat) returns (m': int)
    requires OfParity(x, m, count)
    ensures OfParity(x * PRIME, m', count)
  {
    m' := m * PRIME;
    ParityOfProduct(m);
  }

  lemma ParityOfReflected(d: int, m: int, count: nat, x: U64) returns (m': int)
    requires OfParity(d, m, count)
    ensures OfParity(-(d + Reflection(x)), m', count + 1)
  {
    m' := -(m + 2 * (x / 256) + 1);
  }

  lemma ParityOfOneMore(text: seq<U8>, b: U8, m: int) returns (m': int)
    requires OfParity(Offset(text), m, Highs(text))
    ensures OfParity(Offset(text + [b]), m', Highs(text + [b]))
  {
    OffsetOfOneMore(text, b);
    SumSnoc(text, b, IsHigh());
    if b < 128 {
      m' := ParityOfMultiple(Offset(text), m, Highs(text));
    } else {
      var x := -(Offset(text) + Reflection(Hash(text)));
      m' := ParityOfReflected(Offset(text), m, Highs(text), Hash(text));
      m' := ParityOfMultiple(x, m', Highs(text) + 1);
    }
  }

  /** The offset is 256 times a number of the parity of that count. */
  lemma {:induction false} OffsetParity(text: seq<U8>) returns (m: int)
    ensures OfParity(Offset(text), m, Highs(text))
  {
    if text == [] {
      m := 0;
    } else {
      var n := |text| - 1;
      m := OffsetParity(text[..n]);
      m := ParityOfOneMore(text[..n], text[n], m);
      assert text[..n] + [text[n]] == text;
    }
  }

  lemma OddMultiple(m: int)
    requires m % 2 == 1
    ensures 256 * m % TWO_TO_THE_64 != 0
  {
    var q := 256 * m / TWO_TO_THE_64;
    assert 256 * m % TWO_TO_THE_64 == 256 * (m - 2 * (0x80_0000_0000_0000 * q));
  }

  /** On names with an odd number of characters above 127, whatever the length, the hashes always differ. */
  lemma CStringHashDiffers(text: seq<U8>)
    requires Highs(text) % 2 == 1
    ensures KernelHash(text) != Hash(text)
  {
    HashesAgreeExactly(text);
    var m := OffsetParity(text);
    OddMultiple(m);
  }

  lemma {:induction false} OffsetOverAscii(text: seq<U8>, tail: seq<U8>)
    requires Ascii(tail)
    ensures Offset(text + tail) == Offset(text) * Power(PRIME, |tail|)
  {
    if tail == [] {
      assert text + tail == text;
    } else {
      var n := |tail| - 1;
      OffsetOverAscii(text, tail[..n]);
      assert (text + tail)[..|text| + n] == text + tail[..n];
      Regrouped(Offset(text), Power(PRIME, n));
    }
  }

  lemma Regrouped(x: int, p: int)
    ensures x * p * PRIME == x * (PRIME * p)
  {
  }

  lemma OffsetOfOneMore(text: seq<U8>, b: U8)
    ensures Offset(text + [b]) == (if b < 128 then Offset(text) else -(Offset(text) + Reflection(Hash(text)))) * PRIME
  {
    assert (text + [b])[..|text|] == text;
  }

  lemma MultipleUndone(a: int, q: int)
    requires a * PRIME == TWO_TO_THE_64 * q
    ensures a == TWO_TO_THE_64 * (q * INVERSE - a * 0xce9650590f)
  {
  }

  lemma MultipleOfWord(a: int, q: int)
    requires a == TWO_TO_THE_64 * q
    ensures a % TWO_TO_THE_64 == 0
  {
  }

  /** Multiplication by the prime keeps what is and what is not a multiple of 2^64. */
  lemma MultiplesKept(a: int)
    ensures a * PRIME % TWO_TO_THE_64 == 0 <==> a % TWO_TO_THE_64 == 0
  {
    if a * PRIME % TWO_TO_THE_64 == 0 {
      var q := a * PRIME / TWO_TO_THE_64;
      MultipleUndone(a, q);
      MultipleOfWord(a, q * INVERSE - a * 0xce9650590f);
    }
    if a % TWO_TO_THE_64 == 0 {
      var q := a / TWO_TO_THE_64;
      assert a == TWO_TO_THE_64 * q;
      MultipleOfWord(a * PRIME, q * PRIME);
    }
  }

  lemma AgedPair(r1: int, r2: int, p: int, o1: int, o2: int, o3: int)
    requires o1 == -(0 + r1) * PRIME && o2 == o1 * p && o3 == -(o2 + r2) * PRIME
    ensures o3 == (r1 * (PRIME * p) - r2) * PRIME
  {
    assert o2 == -(r1 * (PRIME * p));
  }

  lemma OffsetOfAscii(text: seq<U8>)
    requires Ascii(text)
    ensures Offset(text) == 0
  {
    OffsetOverAscii([], text);
    assert [] + text == text;
  }

  /** The offset just after the second of two characters above 127. */
  lemma OffsetOfTwo(start: seq<U8>, b: U8, between: seq<U8>, c: U8) returns (aged: int)
    requires Ascii(start) && b >= 128 && Ascii(between) && c >= 128
    ensures aged == Reflection(Hash(start)) * Power(PRIME, |between| + 1)
    ensures Offset(start + [b] + between + [c]) == (aged - Reflection(Hash(start + [b] + between))) * PRIME
  {
    OffsetOfAscii(start);
    OffsetOfOneMore(start, b);
    OffsetOverAscii(start + [b], between);
    OffsetOfOneMore(start + [b] + between, c);
    var p := Power(PRIME, |between|);
    AgedPair(Reflection(Hash(start)), Reflection(Hash(start + [b] + between)), p,
             Offset(start + [b]), Offset(start + [b] + between), Offset(start + [b] + between + [c]));
    aged := Reflection(Hash(start)) * (PRIME * p);
  }

  lemma AgreeByOffset(text: seq<U8>, a: int)
    requires Offset(text) == a * PRIME
    ensures KernelHash(text) == Hash(text) <==> a % TWO_TO_THE_64 == 0
  {
    HashesAgreeExactly(text);
    MultiplesKept(a);
  }

  lemma AgreeAfterTwo(start: seq<U8>, b: U8, between: seq<U8>, c: U8, tail: seq<U8>) returns (aged: int)
    requires Ascii(start) && b >= 128 && Ascii(between) && c >= 128 && Ascii(tail)
    ensures aged == Reflection(Hash(start)) * Power(PRIME, |between| + 1)
    ensures var text := start + [b] + between + [c] + tail;
      KernelHash(text) == Hash(text) <==> (aged - Reflection(Hash(start + [b] + between))) % TWO_TO_THE_64 == 0
  {
    aged := OffsetOfTwo(start, b, between, c);
    AgreeByOffset(start + [b] + between + [c], aged - Reflection(Hash(start + [b] + between)));
    AsciiTail(start + [b] + between + [c], tail);
  }

  /** On names with exactly two characters above 127, however far apart: the hashes agree exactly if the reflections of
      the two states they meet, the first aged by the distance, are equal modulo 2^64. */
  lemma TwoHighCharacters(text: seq<U8>, i: nat, j: nat)
    requires i < j < |text| && text[i] >= 128 && text[j] >= 128
    requires Ascii(text[..i]) && Ascii(text[i + 1..j]) && Ascii(text[j + 1..])
    ensures KernelHash(text) == Hash(text)
      <==> (Reflection(Hash(text[..i])) * Power(PRIME, j - i) - Reflection(Hash(text[..j]))) % TWO_TO_THE_64 == 0
  {
    var start, between, tail := text[..i], text[i + 1..j], text[j + 1..];
    assert text[..j] == start + [text[i]] + between;
    assert text == start + [text[i]] + between + [text[j]] + tail;
    var aged := AgreeAfterTwo(start, text[i], between, text[j], tail);
  }
}

/** The three FNV-1a hashes: the user-space loop, the bounded loop over C strings, and the unrolled hash of a UID. How the
    first two compare on the same name is the subject of CommandNames. */
module Fnv {
  import opened Prelude
  import opened Bits
  import Events

  const OFFSET_BASIS: U64 := 0xcbf29ce484222325
  const PRIME: U64 := 0x100000001b3
  // The multiplicative inverse of PRIME modulo 2^64.
  const INVERSE: U64 := 0xce965057aff6957b

  /** Mix one word into the hash: exclusive or, then multiplication modulo 2^64. */
  function Mix(hash: U64, word: U64): U64 {
    Xor(hash, word) * PRIME % TWO_TO_THE_64
  }

  type Mixer = (U64, U64) -> U64

  function FoldLeft(step: Mixer, start: U64, words: seq<U64>): U64
    decreases |words|
  {
    if words == [] then start else FoldLeft(step, step(start, words[0]), words[1..])
  }

  /** Mix a sequence of words into a hash, first word first. */
  function Fold(hash: U64, words: seq<U64>): U64 {
    FoldLeft(Mix, hash, words)
  }

  /** The FNV-1a hash of a byte string. */
  function Hash(data: seq<U8>): U64 {
    Fold(OFFSET_BASIS, data)
  }

  // ---------- The three implementations ----------

  method Fnv1a64(data: seq<U8>) returns (hash: U64)
    ensures hash == Hash(data)
  {
    hash := OFFSET_BASIS;
    for i := 0 to |data|
      invariant Fold(hash, data[i..]) == Hash(data)
    {
      assert data[i..][1..] == data[i + 1..];
      var mixed: nat := Xor(hash, data[i]);
      hash := mixed * PRIME % TWO_TO_THE_64;
    }
    assert data[|data|..] == [];
  }

  /** Conversion of a C `char` holding byte b to a 64-bit unsigned word: a signed char keeps its sign. */
  function SignExtend(b: U8): U64 {
    if b < 128 then b else TWO_TO_THE_64 - 256 + b
  }

  function SignExtendAll(bytes: seq<U8>): (words: seq<U64>)
    ensures |words| == |bytes|
    ensures forall i :: 0 <= i < |bytes| ==> words[i] == SignExtend(bytes[i])
  {
    seq(|bytes|, i requires 0 <= i < |bytes| => SignExtend(bytes[i]))
  }

  /** The kernel's hash of a text, whatever its characters. */
  function KernelHash(text: seq<U8>): U64 {
    Fold(OFFSET_BASIS, SignExtendAll(text))
  }

  /** The part of a buffer before its first NUL. */
  function BeforeNul(buffer: seq<U8>): (text: seq<U8>)
    ensures text <= buffer && 0 !in text
    ensures |text| < |buffer| ==> buffer[|text|] == 0
  {
    if buffer == [] || buffer[0] == 0 then [] else [buffer[0]] + BeforeNul(buffer[1..])
  }

  /** The kernel hash of a 16-byte command name: stops at the first NUL, after 16 characters at the latest. */
  method HashCString(str: seq<U8>) returns (hash: U64)
    requires |str| >= 16
    ensures hash == KernelHash(BeforeNul(str[..16]))
  {
    hash := OFFSET_BASIS;
    var i := 0;
    ghost var words := SignExtendAll(BeforeNul(str[..16]));
    while i < 16
      invariant 0 <= i <= |words| <= 16
      invariant Fold(hash, words[i..]) == Fold(OFFSET_BASIS, words)
    {
      if str[i] == 0 {
        break;
      }
      BeforeNulReaches(str[..16], i);
      assert words[i..][0] == SignExtend(str[i]) && words[i..][1..] == words[i + 1..];
      var mixed: nat := Xor(hash, SignExtend(str[i]));
      hash := mixed * PRIME % TWO_TO_THE_64;
      i := i + 1;
    }
    BeforeNulStops(str[..16], i);
    assert words[|words|..] == [];
  }

  lemma BeforeNulReaches(buffer: seq<U8>, i: nat)
    requires i < |buffer| && i <= |BeforeNul(buffer)| && buffer[i] != 0
    ensures i < |BeforeNul(buffer)| && BeforeNul(buffer)[i] == buffer[i]
  {
  }

  lemma BeforeNulStops(buffer: seq<U8>, i: nat)
    requires i <= |BeforeNul(buffer)| && (i < |buffer| ==> buffer[i] == 0)
    ensures i == |BeforeNul(buffer)|
  {
  }

  /** The bytes of a user id, least significant first. */
  function UidBytes(val: U32): (bytes: seq<U8>)
    ensures |bytes| == 4
  {
    Events.Half(val)
  }

  lemma FourBytes(val: U32)
    ensures UidBytes(val) == [val % 0x100, val / 0x100 % 0x100, val / 0x1_0000 % 0x100, val / 0x100_0000 % 0x100]
  {
    var v1, v2, v3 := val / 0x100, val / 0x1_0000, val / 0x100_0000;
    assert v1 / 0x100 == v2 && v2 / 0x100 == v3;
    assert Events.LittleEndian(v3, 1) == [v3 % 0x100];
    assert Events.LittleEndian(v2, 2) == [v2 % 0x100] + Events.LittleEndian(v3, 1);
    assert Events.LittleEndian(v1, 3) == [v1 % 0x100] + Events.LittleEndian(v2, 2);
    assert Events.LittleEndian(val, 4) == [val % 0x100] + Events.LittleEndian(v1, 3);
  }

  /** The kernel hash of a user id, unrolled over its four bytes. */
  method HashU32(val: U32) returns (hash: U64)
    ensures hash == Hash(UidBytes(val))
  {
    ghost var bytes: seq<U64> := UidBytes(val);
    FourBytes(val);
    var mixed: nat;
    hash := OFFSET_BASIS;
    mixed := Xor(hash, val % 0x100);
    hash := mixed * PRIME % TWO_TO_THE_64;
    mixed := Xor(hash, val / 0x100 % 0x100);
    hash := mixed * PRIME % TWO_TO_THE_64;
    mixed := Xor(hash, val / 0x1_0000 % 0x100);
    hash := mixed * PRIME % TWO_TO_THE_64;
    mixed := Xor(hash, val / 0x100_0000 % 0x100);
    hash := mixed * PRIME % TWO_TO_THE_64;
    FoldFour(Mix, OFFSET_BASIS, bytes);
  }

  lemma FoldFour(step: Mixer, h: U64, w: seq<U64>)
    requires |w| == 4
    ensures FoldLeft(step, h, w) == step(step(step(step(h, w[0]), w[1]), w[2]), w[3])
  {
    FoldTwo(step, h, w);
    var rest := w[2..];
    FoldTwo(step, step(step(h, w[0]), w[1]), rest);
    assert rest[0] == w[2] && rest[1] == w[3] && rest[2..] == [];
  }

  lemma FoldTwo(step: Mixer, h: U64, w: seq<U64>)
    requires |w| >= 2
    ensures FoldLeft(step, h, w) == FoldLeft(step, step(step(h, w[0]), w[1]), w[2..])
  {
    assert w[1..][0] == w[1] && w[1..][1..] == w[2..];
  }

  lemma MixOfByte(h: U64, b: U8, low: nat)
    requires Xor(h % 256, b) == low
    ensures Mix(h, b) == (256 * (h / 256) + low) * PRIME % TWO_TO_THE_64
  {
    XorWithByte(h, b);
  }

  lemma MaskOfLetter()
    ensures Xor(0x25, 0x61) == 0x44
  {
    assert Xor(0, 1) == 1 && Xor(1, 3) == 2 && Xor(2, 6) == 4 && Xor(4, 12) == 8;
    assert Xor(9, 24) == 17 && Xor(18, 48) == 34;
  }

  lemma FoldOne(step: Mixer, h: U64, w: seq<U64>)
    requires |w| == 1
    ensures FoldLeft(step, h, w) == step(h, w[0])
  {
    assert w[1..] == [];
  }

  lemma ProductOfLetter(x: nat)
    requires x == 256 * 0xcbf29ce4842223 + 0x44
    ensures x * PRIME % TWO_TO_THE_64 == 0xaf63dc4c8601ec8c
  {
  }

  lemma HashOfByte(h: U64, text: seq<U8>, low: nat, x: nat)
    requires |text| == 1 && Xor(h % 256, text[0]) == low && x == 256 * (h / 256) + low
    ensures Fold(h, text) == x * PRIME % TWO_TO_THE_64
  {
    FoldOne(Mix, h, text);
    MixOfByte(h, text[0], low);
  }

  lemma HashFromBasis(h: U64, text: seq<U8>, x: nat)
    requires h % 256 == 0x25 && h / 256 == 0xcbf29ce4842223 && text == [0x61] && x == 256 * 0xcbf29ce4842223 + 0x44
    ensures Fold(h, text) == x * PRIME % TWO_TO_THE_64
  {
    MaskOfLetter();
    HashOfByte(h, text, 0x44, x);
  }

  /** The published test vector for the letter a: mask first, then multiply, with the 64-bit basis and prime. */
  lemma VectorOfLetter(text: seq<U8>)
    requires text == [0x61]
    ensures Hash(text) == 0xaf63dc4c8601ec8c
  {
    var x: nat := 256 * 0xcbf29ce4842223 + 0x44;
    HashFromBasis(OFFSET_BASIS, text, x);
    ProductOfLetter(x);
  }

  // ---------- No collisions ----------

  /** Multiplication by the prime can be undone modulo 2^64. */
  lemma MultiplicationUndone(x: nat)
    requires x < TWO_TO_THE_64
    ensures x * PRIME % TWO_TO_THE_64 * INVERSE % TWO_TO_THE_64 == x
  {
    var k := x * PRIME / TWO_TO_THE_64;
    var r := x * PRIME % TWO_TO_THE_64;
    assert r == x * PRIME - TWO_TO_THE_64 * k;
    // PRIME * INVERSE is one more than a multiple of 2^64.
    assert x * PRIME * INVERSE == x + TWO_TO_THE_64 * (x * 0xce9650590f);
    assert r * INVERSE == x + TWO_TO_THE_64 * (x * 0xce9650590f - k * INVERSE);
    RemainderOfSum(x, x * 0xce9650590f - k * INVERSE);
  }

  lemma RemainderOfSum(x: nat, k: int)
    requires x < TWO_TO_THE_64
    ensures (x + TWO_TO_THE_64 * k) % TWO_TO_THE_64 == x
  {
  }

  lemma XorIsWord(a: U64, b: U64)
    ensures Xor(a, b) < TWO_TO_THE_64
  {
    var bits := 64;
    WordBound(bits);
    XorStaysBelow(a, b, bits);
  }

  /** Mixing loses nothing: the hash and the word each determine the other from the result. */
  lemma MixInjective(h1: U64, h2: U64, w1: U64, w2: U64)
    requires Mix(h1, w1) == Mix(h2, w2)
    ensures Xor(h1, w1) == Xor(h2, w2)
    ensures h1 == h2 <==> w1 == w2
  {
    XorIsWord(h1, w1);
    XorIsWord(h2, w2);
    MultiplicationUndone(Xor(h1, w1));
    MultiplicationUndone(Xor(h2, w2));
    XorCancels(h1, w1, w2);
    XorCancels(w1, h1, h2);
  }

  /** The step of a fold in which state and word determine each other, given the result. */
  ghost predicate Reversible(step: Mixer) {
    forall h1: U64, h2: U64, w1: U64, w2: U64 ::
      step(h1, w1) == step(h2, w2) ==> (h1 == h2 <==> w1 == w2)
  }

  lemma MixReversible()
    ensures Reversible(Mix)
  {
    forall h1: U64, h2: U64, w1: U64, w2: U64 | Mix(h1, w1) == Mix(h2, w2)
      ensures h1 == h2 <==> w1 == w2
    {
      MixInjective(h1, h2, w1, w2);
    }
  }

  lemma {:induction false} FoldLeftInjective(step: Mixer, h1: U64, h2: U64, suffix: seq<U64>)
    requires Reversible(step)
    requires FoldLeft(step, h1, suffix) == FoldLeft(step, h2, suffix)
    ensures h1 == h2
    decreases |suffix|
  {
    if suffix == [] {
    } else {
      FoldLeftInjective(step, step(h1, suffix[0]), step(h2, suffix[0]), suffix[1..]);
    }
  }

  lemma {:induction false} OneWordDecidesFold(step: Mixer, h: U64, xs: seq<U64>, ys: seq<U64>, place: nat)
    requires Reversible(step)
    requires |xs| == |ys| && place < |xs|
    requires forall i :: 0 <= i < |xs| && i != place ==> xs[i] == ys[i]
    ensures FoldLeft(step, h, xs) == FoldLeft(step, h, ys) ==> xs == ys
    decreases place
  {
    assert xs == [xs[0]] + xs[1..] && ys == [ys[0]] + ys[1..];
    if place == 0 {
      assert xs[1..] == ys[1..];
      if FoldLeft(step, h, xs) == FoldLeft(step, h, ys) {
        FoldLeftInjective(step, step(h, xs[0]), step(h, ys[0]), xs[1..]);
      }
    } else {
      OneWordDecidesFold(step, step(h, xs[0]), xs[1..], ys[1..], place - 1);
    }
  }

  /** For a fixed suffix the hash is injective in the state it starts from. */
  lemma SuffixKeepsStatesApart(h1: U64, h2: U64, suffix: seq<U64>)
    ensures Fold(h1, suffix) == Fold(h2, suffix) <==> h1 == h2
  {
    MixReversible();
    if Fold(h1, suffix) == Fold(h2, suffix) {
      FoldLeftInjective(Mix, h1, h2, suffix);
    }
  }

  /** Words of equal length that agree everywhere except possibly at one place hash alike only if they are equal. */
  lemma OneWordDecides(h: U64, xs: seq<U64>, ys: seq<U64>, place: nat)
    requires |xs| == |ys| && place < |xs|
    requires forall i :: 0 <= i < |xs| && i != place ==> xs[i] == ys[i]
    ensures Fold(h, xs) == Fold(h, ys) <==> xs == ys
  {
    MixReversible();
    OneWordDecidesFold(Mix, h, xs, ys, place);
  }

  /** Two byte strings of any equal length that differ in exactly one byte never collide. */
  lemma NoSingleByteCollision(xs: seq<U8>, ys: seq<U8>, place: nat)
    requires |xs| == |ys| && place < |xs| && xs[place] != ys[place]
    requires forall i :: 0 <= i < |xs| && i != place ==> xs[i] == ys[i]
    ensures Hash(xs) != Hash(ys)
  {
    OneWordDecides(OFFSET_BASIS, xs, ys, place);
  }

  // ---------- The UID hash is injective ----------

  /** The difference of two four-byte hashes, as a polynomial in the prime, vanishes only trivially. */
  lemma DifferencePolynomial(d0: int, e1: int, e2: int, e3: int, k: int)
    requires -256 <= d0 <= 256 && -510 <= e1 <= 510 && -510 <= e2 <= 510 && -510 <= e3 <= 510
    requires ((d0 * PRIME + e1) * PRIME + e2) * PRIME + e3 == TWO_TO_THE_64 * k
    ensures d0 == e1 == e2 == e3 == 0
  {
    // PRIME is 2^40 + 435; collect the multiples of 2^40 and of 2^80.
    var high := 567675 * d0 + 870 * e1 + e2;
    var low := 82312875 * d0 + 189225 * e1 + 435 * e2 + e3;
    var k' := k - 65536 * (d0 * PRIME + e1 + 870 * d0);
    assert 0x100_0000_0000 * high + low == TWO_TO_THE_64 * k';
    assert low == 0x100_0000_0000 * (0x100_0000 * k' - high);
    assert low == 0 && high == 0x100_0000 * k';
    assert -1 <= d0 <= 1;
    if d0 == 1 || d0 == -1 {
      assert false;
    }
    assert -0x100_0000 < high < 0x100_0000;
    assert 870 * e1 + e2 == 0;
  }

  /** Exclusive or with a byte moves a word by at most 255 in either direction. */
  lemma XorDelta(h: U64, b: U8)
    ensures -255 <= Xor(h, b) - h <= 255
  {
    XorWithByte(h, b);
  }

  lemma RemainderDifference(x: nat, y: nat) returns (k: int)
    ensures x % TWO_TO_THE_64 - y % TWO_TO_THE_64 == x - y + TWO_TO_THE_64 * k
  {
    k := y / TWO_TO_THE_64 - x / TWO_TO_THE_64;
  }

  /** How far apart two steps on bytes leave two states, up to a multiple of 2^64: e is the byte part, k the wraps. */
  ghost predicate Diverges(step: Mixer, s: U64, t: U64, b: U8, c: U8, e: int, k: int) {
    && -510 <= e <= 510
    && (s == t ==> -255 <= e <= 255 && (e == 0 ==> b == c))
    && step(s, b) - step(t, c) == (s - t + e) * PRIME + TWO_TO_THE_64 * k
    && (step(s, b) == step(t, c) ==> s - t + e == 0)
  }

  ghost predicate DivergesBoundedly(step: Mixer, s: U64, t: U64, b: U8, c: U8) {
    exists e, k :: Diverges(step, s, t, b, c, e, k)
  }

  ghost predicate Bytewise(step: Mixer) {
    forall s: U64, t: U64, b: U8, c: U8 :: DivergesBoundedly(step, s, t, b, c)
  }

  lemma MixBytewise()
    ensures Bytewise(Mix)
  {
    forall s: U64, t: U64, b: U8, c: U8
      ensures DivergesBoundedly(Mix, s, t, b, c)
    {
      var x, y := Xor(s, b), Xor(t, c);
      XorDelta(s, b);
      XorDelta(t, c);
      XorWithByte(s, b);
      XorWithByte(t, c);
      XorCancels(s, b, c);
      if Mix(s, b) == Mix(t, c) {
        MixInjective(s, t, b, c);
      }
      var k := RemainderDifference(x * PRIME, y * PRIME);
      assert Diverges(Mix, s, t, b, c, (x - s) - (y - t), k);
    }
  }

  lemma FourStepsInjective(step: Mixer, h: U64, b: seq<U8>, c: seq<U8>)
    requires Bytewise(step)
    requires |b| == 4 && |c| == 4
    requires FoldLeft(step, h, b) == FoldLeft(step, h, c)
    ensures b == c
  {
    FoldFour(step, h, b);
    FoldFour(step, h, c);
    var s1, t1 := step(h, b[0]), step(h, c[0]);
    var s2, t2 := step(s1, b[1]), step(t1, c[1]);
    var s3, t3 := step(s2, b[2]), step(t2, c[2]);
    assert DivergesBoundedly(step, h, h, b[0], c[0]);
    var e0, k0 :| Diverges(step, h, h, b[0], c[0], e0, k0);
    assert DivergesBoundedly(step, s1, t1, b[1], c[1]);
    var e1, k1 :| Diverges(step, s1, t1, b[1], c[1], e1, k1);
    assert DivergesBoundedly(step, s2, t2, b[2], c[2]);
    var e2, k2 :| Diverges(step, s2, t2, b[2], c[2], e2, k2);
    assert DivergesBoundedly(step, s3, t3, b[3], c[3]);
    var e3, k3 :| Diverges(step, s3, t3, b[3], c[3], e3, k3);
    DifferencePolynomial(e0, e1, e2, e3, -((k0 * PRIME + k1) * PRIME + k2));
  }

  /** Four bytes hash alike, from the offset basis or from any other state, only if they are the same four bytes. */
  lemma FourByteHashInjective(h: U64, b: seq<U8>, c: seq<U8>)
    requires |b| == 4 && |c| == 4
    ensures Fold(h, b) == Fold(h, c) <==> b == c
  {
    MixBytewise();
    if Fold(h, b) == Fold(h, c) {
      FourStepsInjective(Mix, h, b, c);
    }
  }

  /** Distinct user ids have distinct hashes. */
  lemma UidHashInjective(u: U32, v: U32)
    ensures Hash(UidBytes(u)) == Hash(UidBytes(v)) <==> u == v
  {
    FourByteHashInjective(OFFSET_BASIS, UidBytes(u), UidBytes(v));
    Events.WordWidths();
    Events.ValueOfEncoding(u, Events.HALF);
    Events.ValueOfEncoding(v, Events.HALF);
  }
}

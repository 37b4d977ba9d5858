/** Telemetry events and the kernel records they are decoded from. */
module Events {
  import opened Prelude

  datatype ProbeId = CpuSched | MemPressure | NetIo | ProcLifecycle

  /** Payload of an event; the kernel record of the same probe carries the same fields. */
  datatype EventPayload =
    | CpuSchedEvent(prevCommHash: U64, nextCommHash: U64, latencyNs: U64, cpuId: U32)
    | MemPressureEvent(pagesReclaimed: U64, zone: U32)
    | NetIoEvent(bytesTx: U64, bytesRx: U64, devNameHash: U64)
    | ProcLifecycleEvent(commHash: U64, uidHash: U64)
  {
    function Probe(): ProbeId {
      match this
      case CpuSchedEvent(_, _, _, _) => CpuSched
      case MemPressureEvent(_, _) => MemPressure
      case NetIoEvent(_, _, _) => NetIo
      case ProcLifecycleEvent(_, _) => ProcLifecycle
    }
  }

  datatype RawEvent = RawEvent(probe: ProbeId, timestampNs: U64, payload: EventPayload)

  // ---------- Little-endian words ----------

  function LittleEndian(v: nat, width: nat): (bytes: seq<U8>)
    ensures |bytes| == width
    decreases width
  {
    if width == 0 then [] else [v % 256] + LittleEndian(v / 256, width - 1)
  }

  function Value(bytes: seq<U8>): nat {
    if bytes == [] then 0 else bytes[0] + 256 * Value(bytes[1..])
  }

  const WORD: nat := 8
  const HALF: nat := 4

  /** Every string of bytes is the little-endian form of its value, which fits its width. */
  lemma {:induction false} EncodingOfValue(bytes: seq<U8>)
    ensures Value(bytes) < Power(256, |bytes|)
    ensures LittleEndian(Value(bytes), |bytes|) == bytes
  {
    if bytes == [] {
    } else {
      EncodingOfValue(bytes[1..]);
      var v := Value(bytes);
      assert v % 256 == bytes[0] && v / 256 == Value(bytes[1..]);
      assert bytes == [bytes[0]] + bytes[1..];
    }
  }

  lemma {:induction false} ValueOfEncoding(v: nat, width: nat)
    requires v < Power(256, width)
    ensures Value(LittleEndian(v, width)) == v
    decreases width
  {
    if width == 0 {
    } else {
      ValueOfEncoding(v / 256, width - 1);
      assert LittleEndian(v, width)[1..] == LittleEndian(v / 256, width - 1);
    }
  }

  lemma WordWidths()
    ensures Power(256, 8) == TWO_TO_THE_64 && Power(256, 4) == TWO_TO_THE_32
  {
    assert Power(256, 2) == 0x1_0000;
    assert Power(256, 4) == 0x1_0000 * Power(256, 2);
    assert Power(256, 6) == 0x1_0000 * Power(256, 4);
    assert Power(256, 8) == 0x1_0000 * Power(256, 6);
  }

  function Word(v: U64): (bytes: seq<U8>)
    ensures |bytes| == 8
  {
    LittleEndian(v, WORD)
  }

  function Half(v: U32): (bytes: seq<U8>)
    ensures |bytes| == 4
  {
    LittleEndian(v, HALF)
  }

  function ReadWord(slice: seq<U8>, offset: nat): U64
    requires offset + 8 <= |slice|
  {
    EncodingOfValue(slice[offset..offset + 8]);
    WordWidths();
    Value(slice[offset..offset + 8])
  }

  function ReadHalf(slice: seq<U8>, offset: nat): U32
    requires offset + 4 <= |slice|
  {
    EncodingOfValue(slice[offset..offset + 4]);
    WordWidths();
    Value(slice[offset..offset + 4])
  }

  // ---------- Records ----------

  /** Size in memory of the repr(C) record of a probe, trailing padding included. */
  function RecordSize(probe: ProbeId): nat {
    match probe
    case CpuSched => 32
    case MemPressure => 16
    case NetIo => 24
    case ProcLifecycle => 16
  }

  /** Bytes of a record that carry fields; the rest is padding. */
  function FieldBytes(probe: ProbeId): (n: nat)
    ensures n <= RecordSize(probe)
  {
    match probe
    case CpuSched => 28
    case MemPressure => 12
    case NetIo => 24
    case ProcLifecycle => 16
  }

  /** What the kernel writes for a record: its fields in order, little-endian. */
  function Fields(payload: EventPayload): (bytes: seq<U8>)
    ensures |bytes| == FieldBytes(payload.Probe())
  {
    match payload
    case CpuSchedEvent(prev, next, latency, cpu) =>
      Word(prev) + Word(next) + Word(latency) + Half(cpu)
    case MemPressureEvent(pages, zone) => Word(pages) + Half(zone)
    case NetIoEvent(tx, rx, dev) => Word(tx) + Word(rx) + Word(dev)
    case ProcLifecycleEvent(comm, uid) => Word(comm) + Word(uid)
  }

  /** Reading a record of the probe's type from the front of a ring buffer item; None if the item is too short. */
  function FromBytes(probe: ProbeId, slice: seq<U8>): (r: Option<EventPayload>)
    ensures r.None? <==> |slice| < RecordSize(probe)
    ensures r.Some? ==> r.value.Probe() == probe
  {
    if |slice| < RecordSize(probe) then None
    else match probe
      case CpuSched =>
        Some(CpuSchedEvent(ReadWord(slice, 0), ReadWord(slice, 8), ReadWord(slice, 16), ReadHalf(slice, 24)))
      case MemPressure => Some(MemPressureEvent(ReadWord(slice, 0), ReadHalf(slice, 8)))
      case NetIo => Some(NetIoEvent(ReadWord(slice, 0), ReadWord(slice, 8), ReadWord(slice, 16)))
      case ProcLifecycle => Some(ProcLifecycleEvent(ReadWord(slice, 0), ReadWord(slice, 8)))
  }

  /** The last byte of a number weighs most: 256 to the power of its place. */
  lemma {:induction false} ValueOfLast(bytes: seq<U8>, b: U8)
    ensures Value(bytes + [b]) == Value(bytes) + Power(256, |bytes|) * b
  {
    if bytes == [] {
      assert bytes + [b] == [b];
      assert Value([b]) == b + 256 * Value([]);
    } else {
      assert (bytes + [b])[1..] == bytes[1..] + [b];
      ValueOfLast(bytes[1..], b);
      Weighted(Power(256, |bytes| - 1), b);
    }
  }

  lemma Weighted(p: nat, b: nat)
    ensures 256 * (p * b) == 256 * p * b
  {
  }

  /** Where each field of a decoded record lies, as a number whose first byte weighs least. */
  lemma RecordLayout(probe: ProbeId, slice: seq<U8>)
    requires FromBytes(probe, slice).Some?
    ensures |slice| >= RecordSize(probe)
    ensures match FromBytes(probe, slice).value
      case CpuSchedEvent(prev, next, latency, cpu) =>
        && prev == Value(slice[0..8]) && next == Value(slice[8..16])
        && latency == Value(slice[16..24]) && cpu == Value(slice[24..28])
      case MemPressureEvent(pages, zone) => pages == Value(slice[0..8]) && zone == Value(slice[8..12])
      case NetIoEvent(tx, rx, dev) =>
        tx == Value(slice[0..8]) && rx == Value(slice[8..16]) && dev == Value(slice[16..24])
      case ProcLifecycleEvent(comm, uid) => comm == Value(slice[0..8]) && uid == Value(slice[8..16])
  {
  }

  lemma WordRead(slice: seq<U8>, offset: nat, v: U64)
    requires offset + 8 <= |slice| && slice[offset..offset + 8] == Word(v)
    ensures ReadWord(slice, offset) == v
  {
    WordWidths();
    ValueOfEncoding(v, WORD);
  }

  lemma HalfRead(slice: seq<U8>, offset: nat, v: U32)
    requires offset + 4 <= |slice| && slice[offset..offset + 4] == Half(v)
    ensures ReadHalf(slice, offset) == v
  {
    WordWidths();
    ValueOfEncoding(v, HALF);
  }

  /** The pieces of a concatenation, found again by position. */
  lemma Pieces(x: seq<U8>, y: seq<U8>, z: seq<U8>, w: seq<U8>, rest: seq<U8>)
    ensures var all := x + y + z + w + rest;
      && all[..|x|] == x
      && all[|x|..|x| + |y|] == y
      && all[|x| + |y|..|x| + |y| + |z|] == z
      && all[|x| + |y| + |z|..|x| + |y| + |z| + |w|] == w
  {
  }

  lemma DecodeCpuSched(slice: seq<U8>, a: U64, b: U64, c: U64, d: U32)
    requires |slice| >= 32
    requires slice[..8] == Word(a) && slice[8..16] == Word(b) && slice[16..24] == Word(c) && slice[24..28] == Half(d)
    ensures FromBytes(CpuSched, slice) == Some(CpuSchedEvent(a, b, c, d))
  {
    WordRead(slice, 0, a);
    WordRead(slice, 8, b);
    WordRead(slice, 16, c);
    HalfRead(slice, 24, d);
  }

  lemma DecodeNetIo(slice: seq<U8>, a: U64, b: U64, c: U64)
    requires |slice| >= 24
    requires slice[..8] == Word(a) && slice[8..16] == Word(b) && slice[16..24] == Word(c)
    ensures FromBytes(NetIo, slice) == Some(NetIoEvent(a, b, c))
  {
    WordRead(slice, 0, a);
    WordRead(slice, 8, b);
    WordRead(slice, 16, c);
  }

  lemma DecodeMemPressure(slice: seq<U8>, a: U64, b: U32)
    requires |slice| >= 16
    requires slice[..8] == Word(a) && slice[8..12] == Half(b)
    ensures FromBytes(MemPressure, slice) == Some(MemPressureEvent(a, b))
  {
    WordRead(slice, 0, a);
    HalfRead(slice, 8, b);
  }

  lemma DecodeProcLifecycle(slice: seq<U8>, a: U64, b: U64)
    requires |slice| >= 16
    requires slice[..8] == Word(a) && slice[8..16] == Word(b)
    ensures FromBytes(ProcLifecycle, slice) == Some(ProcLifecycleEvent(a, b))
  {
    WordRead(slice, 0, a);
    WordRead(slice, 8, b);
  }

  /** Decoding inverts encoding, whatever the padding and the bytes after the record hold. */
  lemma DecodeInvertsEncode(payload: EventPayload, rest: seq<U8>)
    requires FieldBytes(payload.Probe()) + |rest| >= RecordSize(payload.Probe())
    ensures FromBytes(payload.Probe(), Fields(payload) + rest) == Some(payload)
  {
    match payload
    case CpuSchedEvent(a, b, c, d) =>
      Pieces(Word(a), Word(b), Word(c), Half(d), rest);
      DecodeCpuSched(Fields(payload) + rest, a, b, c, d);
    case MemPressureEvent(a, b) =>
      Pieces(Word(a), Half(b), rest, [], []);
      assert Fields(payload) + rest == Word(a) + Half(b) + rest + [] + [];
      DecodeMemPressure(Fields(payload) + rest, a, b);
    case NetIoEvent(a, b, c) =>
      Pieces(Word(a), Word(b), Word(c), rest, []);
      assert Fields(payload) + rest == Word(a) + Word(b) + Word(c) + rest + [];
      DecodeNetIo(Fields(payload) + rest, a, b, c);
    case ProcLifecycleEvent(a, b) =>
      Pieces(Word(a), Word(b), rest, [], []);
      assert Fields(payload) + rest == Word(a) + Word(b) + rest + [] + [];
      DecodeProcLifecycle(Fields(payload) + rest, a, b);
  }

  lemma WordWritten(slice: seq<U8>, offset: nat)
    requires offset + 8 <= |slice|
    ensures Word(ReadWord(slice, offset)) == slice[offset..offset + 8]
  {
    EncodingOfValue(slice[offset..offset + 8]);
  }

  lemma HalfWritten(slice: seq<U8>, offset: nat)
    requires offset + 4 <= |slice|
    ensures Half(ReadHalf(slice, offset)) == slice[offset..offset + 4]
  {
    EncodingOfValue(slice[offset..offset + 4]);
  }

  /** Pieces that are consecutive slices add up to the front of the whole. */
  lemma Joined(slice: seq<U8>, x: seq<U8>, y: seq<U8>, z: seq<U8>, w: seq<U8>)
    requires |x| + |y| + |z| + |w| <= |slice|
    requires x == slice[..|x|] && y == slice[|x|..|x| + |y|]
    requires z == slice[|x| + |y|..|x| + |y| + |z|] && w == slice[|x| + |y| + |z|..|x| + |y| + |z| + |w|]
    ensures x + y + z + w == slice[..|x| + |y| + |z| + |w|]
  {
  }

  lemma EncodeCpuSched(slice: seq<U8>, x: seq<U8>, y: seq<U8>, z: seq<U8>, w: seq<U8>)
    requires |slice| >= 32
    requires x == Word(ReadWord(slice, 0)) && y == Word(ReadWord(slice, 8))
    requires z == Word(ReadWord(slice, 16)) && w == Half(ReadHalf(slice, 24))
    ensures x + y + z + w == slice[..28]
  {
    WordWritten(slice, 0);
    WordWritten(slice, 8);
    WordWritten(slice, 16);
    HalfWritten(slice, 24);
    Joined(slice, x, y, z, w);
  }

  lemma EncodeNetIo(slice: seq<U8>, x: seq<U8>, y: seq<U8>, z: seq<U8>)
    requires |slice| >= 24
    requires x == Word(ReadWord(slice, 0)) && y == Word(ReadWord(slice, 8)) && z == Word(ReadWord(slice, 16))
    ensures x + y + z == slice[..24]
  {
    WordWritten(slice, 0);
    WordWritten(slice, 8);
    WordWritten(slice, 16);
    Joined(slice, x, y, z, []);
    assert x + y + z + [] == x + y + z;
  }

  lemma EncodeMemPressure(slice: seq<U8>, x: seq<U8>, y: seq<U8>)
    requires |slice| >= 16
    requires x == Word(ReadWord(slice, 0)) && y == Half(ReadHalf(slice, 8))
    ensures x + y == slice[..12]
  {
    WordWritten(slice, 0);
    HalfWritten(slice, 8);
    Joined(slice, x, y, [], []);
    assert x + y + [] + [] == x + y;
  }

  lemma EncodeProcLifecycle(slice: seq<U8>, x: seq<U8>, y: seq<U8>)
    requires |slice| >= 16
    requires x == Word(ReadWord(slice, 0)) && y == Word(ReadWord(slice, 8))
    ensures x + y == slice[..16]
  {
    WordWritten(slice, 0);
    WordWritten(slice, 8);
    Joined(slice, x, y, [], []);
    assert x + y + [] + [] == x + y;
  }

  /** The front of any item long enough is the encoding of what is decoded from it: nothing but padding is lost. */
  lemma EncodeInvertsDecode(probe: ProbeId, slice: seq<U8>)
    requires |slice| >= RecordSize(probe)
    ensures Fields(FromBytes(probe, slice).value) == slice[..FieldBytes(probe)]
  {
    match probe
    case CpuSched =>
      EncodeCpuSched(slice, Word(ReadWord(slice, 0)), Word(ReadWord(slice, 8)), Word(ReadWord(slice, 16)), Half(ReadHalf(slice, 24)));
    case MemPressure => EncodeMemPressure(slice, Word(ReadWord(slice, 0)), Half(ReadHalf(slice, 8)));
    case NetIo => EncodeNetIo(slice, Word(ReadWord(slice, 0)), Word(ReadWord(slice, 8)), Word(ReadWord(slice, 16)));
    case ProcLifecycle => EncodeProcLifecycle(slice, Word(ReadWord(slice, 0)), Word(ReadWord(slice, 8)));
  }

  /** Two items decode alike exactly if they agree on the field bytes. */
  lemma DecodeSeesFieldsOnly(probe: ProbeId, a: seq<U8>, b: seq<U8>)
    requires |a| >= RecordSize(probe) && |b| >= RecordSize(probe)
    ensures FromBytes(probe, a) == FromBytes(probe, b) <==> a[..FieldBytes(probe)] == b[..FieldBytes(probe)]
  {
    EncodeInvertsDecode(probe, a);
    EncodeInvertsDecode(probe, b);
    var n := FieldBytes(probe);
    DecodeInvertsEncode(FromBytes(probe, a).value, a[n..]);
    DecodeInvertsEncode(FromBytes(probe, b).value, b[n..]);
    assert a == a[..n] + a[n..] && b == b[..n] + b[n..];
    if a[..n] == b[..n] {
      DecodeInvertsEncode(FromBytes(probe, a).value, b[n..]);
    }
  }
}

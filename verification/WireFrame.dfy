/** The 24-byte wire frame: layout, packing, verification and the hop stamp. */
module WireFrame {
  import opened Bytes
  import Crc32

  const MAGIC: U16 := 0x5A43
  const MAGIC_LOW: Byte := 0x43
  const MAGIC_HIGH: Byte := 0x5A
  const VERSION: Byte := 1
  const FLAG_LAST_HOP: Byte := 0x02

  type Frame = s: seq<Byte> | |s| == 24 witness [0, 0, 0, 0, 0, 0, 0, 0, 0, 0, 0, 0, 0, 0, 0, 0, 0, 0, 0, 0, 0, 0, 0, 0]

  // ----- fields -----

  function FlagsOf(f: Frame): (r: Byte) { f[3] }

  function SeqOf(f: Frame): (r: U32) {
    FieldBound(f[4..8]);
    FromLittleEndian(f[4..8])
  }

  function TimestampOf(f: Frame): (r: U32) {
    FieldBound(f[8..12]);
    FromLittleEndian(f[8..12])
  }

  function NodeOf(f: Frame): (r: U16) {
    FieldBound(f[12..14]);
    FromLittleEndian(f[12..14])
  }

  function SensorOf(f: Frame): (r: U8) { Value(f[14]) }

  function HopIndexOf(f: Frame): (r: U8) { Value(f[15]) }

  function RawOf(f: Frame): (r: I32) {
    FieldBound(f[16..20]);
    Signed(FromLittleEndian(f[16..20]))
  }

  predicate LastHop(f: Frame) {
    FlagsOf(f) & FLAG_LAST_HOP != 0
  }

  function ChecksumOf(f: Frame): (r: bv32) {
    Crc32.Word(f[20], f[21], f[22], f[23])
  }

  lemma FieldBound(s: seq<Byte>)
    ensures |s| == 2 ==> FromLittleEndian(s) < 0x1_0000
    ensures |s| == 4 ==> FromLittleEndian(s) < 0x1_0000_0000
    ensures |s| == 8 ==> FromLittleEndian(s) < 0x1_0000_0000_0000_0000
  {
    FromLittleEndianBound(s);
    Pow256Values();
  }

  /** Two's complement reading and writing of a 32-bit field. */
  function Signed(x: U32): (r: I32) {
    if x < 0x8000_0000 then x else x - 0x1_0000_0000
  }

  function Unsigned(x: I32): (r: U32) {
    if x >= 0 then x else x + 0x1_0000_0000
  }

  // ----- verification -----

  predicate MagicAt(s: seq<Byte>, i: nat)
    requires i + 2 <= |s|
  {
    s[i] == MAGIC_LOW && s[i + 1] == MAGIC_HIGH
  }

  predicate ChecksumMatches(f: Frame) {
    Crc32.Crc(f[..20], Crc32.SEED) == ChecksumOf(f)
  }

  predicate VerifyFrame(f: Frame) {
    MagicAt(f, 0) && f[2] == VERSION && ChecksumMatches(f)
  }

  /** The two magic bytes are the 16-bit field comparison. */
  lemma MagicIsField(f: Frame)
    ensures MagicAt(f, 0) <==> FromLittleEndian(f[0..2]) == MAGIC
  {
    hide FromLittleEndian, LittleEndian;
    var m := [MAGIC_LOW, MAGIC_HIGH];
    var s := f[0..2];
    MagicValue();
    FromLittleEndianRoundTrip(s);
    FromLittleEndianRoundTrip(m);
    assert s[0] == f[0] && s[1] == f[1];
    if MagicAt(f, 0) {
      assert s == m;
    }
    if FromLittleEndian(s) == MAGIC {
      assert s == LittleEndian(MAGIC, 2) == m;
    }
  }

  lemma MagicValue()
    ensures FromLittleEndian([MAGIC_LOW, MAGIC_HIGH]) == MAGIC
  {
    hide Value;
    MagicBytes();
    var m := [MAGIC_LOW, MAGIC_HIGH];
    assert m[1..] == [MAGIC_HIGH];
    assert m[1..][1..] == [];
    assert FromLittleEndian(m[1..]) == 0x5A;
  }

  lemma MagicBytes()
    ensures Value(MAGIC_LOW) == 0x43 && Value(MAGIC_HIGH) == 0x5A
  {
    hide Number, Binary, DigitsOf;
    EightDigits();
    MagicDigits();
    MagicBinary();
    NumberOfBinary(0x43, 8);
    NumberOfBinary(0x5A, 8);
  }

  lemma MagicDigits()
    ensures DigitsOf(MAGIC_LOW) == [true, true, false, false, false, false, true, false]
    ensures DigitsOf(MAGIC_HIGH) == [false, true, false, true, true, false, true, false]
  {}

  lemma MagicBinary()
    ensures Binary(0x43, 8) == [true, true, false, false, false, false, true, false]
    ensures Binary(0x5A, 8) == [false, true, false, true, true, false, true, false]
  {
    LowMagicBinary();
    HighMagicBinary();
  }

  lemma LowMagicBinary()
    ensures Binary(0x43, 8) == [true, true, false, false, false, false, true, false]
  {}

  lemma HighMagicBinary()
    ensures Binary(0x5A, 8) == [false, true, false, true, true, false, true, false]
  {}

  /** The register after a whole valid frame. */
  const RESIDUE: bv32 := Crc32.BitSteps(0xFFFF_FFFF, 32)

  /** The checksum matches exactly when the register over all 24 bytes ends at the residue. */
  lemma ChecksumIsResidue(f: Frame)
    ensures ChecksumMatches(f) <==> Crc32.Register(Crc32.SEED, Crc32.Bits(f)) == RESIDUE
  {
    hide Crc32.Register, Crc32.Bits, Crc32.BitSteps, Crc32.Word, Crc32.Xor;
    var c := Crc32.Register(Crc32.SEED, Crc32.Bits(f[..20]));
    var w := ChecksumOf(f);
    assert f == f[..20] + [f[20], f[21], f[22], f[23]];
    Crc32.BitsAppend(f[..20], [f[20], f[21], f[22], f[23]]);
    Crc32.RegisterAppend(Crc32.SEED, Crc32.Bits(f[..20]), Crc32.Bits([f[20], f[21], f[22], f[23]]));
    Crc32.RegisterOfFourBytes(c, f[20], f[21], f[22], f[23]);
    if Crc32.BitSteps(Crc32.Xor(c, w), 32) == RESIDUE {
      Crc32.BitStepsInjective(Crc32.Xor(c, w), 0xFFFF_FFFF, 32);
    }
    Crc32.XorIs(c, 0xFFFF_FFFF);
    Crc32.XorIs(c, w);
    Crc32.XorSwap(c, 0xFFFF_FFFF, w);
  }

  /** No corruption of a valid frame that stays inside 32 consecutive bits, payload or
      checksum or both, verifies. */
  lemma FrameBurstDetected(f: Frame, g: Frame, p: nat)
    requires VerifyFrame(f)
    requires f != g
    requires Crc32.AgreeOutside(Crc32.Bits(f), Crc32.Bits(g), p, 32)
    ensures !VerifyFrame(g)
  {
    hide Crc32.Register, Crc32.Bits, ChecksumMatches, MagicAt;
    ChecksumIsResidue(f);
    ChecksumIsResidue(g);
    if Crc32.Bits(f) == Crc32.Bits(g) {
      Crc32.BitsInjective(f, g);
    }
    Crc32.BurstDetected(Crc32.SEED, Crc32.Bits(f), Crc32.Bits(g), p);
  }

  /** In particular, none that stays inside four consecutive bytes. */
  lemma FrameBytesDetected(f: Frame, g: Frame, p: nat)
    requires VerifyFrame(f)
    requires f != g
    requires forall i :: 0 <= i < 24 && !(p <= i < p + 4) ==> f[i] == g[i]
    ensures !VerifyFrame(g)
  {
    hide VerifyFrame;
    Crc32.BytesAgreeOutside(f, g, p);
    FrameBurstDetected(f, g, 8 * p);
  }

  // ----- packing -----

  datatype SensorSample = SensorSample(
    seqno: U32, timestampNs: U64, nodeId: U16, sensorType: U8, flags: U8, reserved: U8, rawValue: I32)

  /** The checksum field: a word's four bytes, lowest first. */
  function WordBytes(w: bv32): (r: seq<Byte>)
    ensures |r| == 4
  {
    [(w & 0xFF) as bv8, ((w >> 8) & 0xFF) as bv8, ((w >> 16) & 0xFF) as bv8, ((w >> 24) & 0xFF) as bv8]
  }

  /** The first 20 bytes with the checksum that makes them verify. */
  function Seal(payload: seq<Byte>): (r: Frame)
    requires |payload| == 20
  {
    payload + WordBytes(Crc32.Crc(payload, Crc32.SEED))
  }

  function PackPayload(s: SensorSample): (r: seq<Byte>)
    ensures |r| == 20
  {
    [MAGIC_LOW, MAGIC_HIGH, VERSION, LowByte(s.flags)]
    + LittleEndian(s.seqno, 4)
    + LittleEndian(s.timestampNs % TWO_TO_THE_32, 4)
    + LittleEndian(s.nodeId, 2)
    + [LowByte(s.sensorType), LowByte(s.reserved)]
    + LittleEndian(Unsigned(s.rawValue), 4)
  }

  function PackFrame(s: SensorSample): (r: Frame) {
    Seal(PackPayload(s))
  }

  lemma SealMatches(payload: seq<Byte>)
    requires |payload| == 20
    ensures ChecksumMatches(Seal(payload))
  {}

  /** A packed sample verifies and reads back field by field; only the low 32
      bits of the timestamp travel. */
  lemma PackRoundTrip(s: SensorSample)
    ensures var f := PackFrame(s);
      && VerifyFrame(f)
      && SeqOf(f) == s.seqno
      && TimestampOf(f) == s.timestampNs % TWO_TO_THE_32
      && NodeOf(f) == s.nodeId
      && SensorOf(f) == s.sensorType
      && Value(FlagsOf(f)) == s.flags
      && HopIndexOf(f) == s.reserved
      && RawOf(f) == s.rawValue
  {
    hide LowByte, Value, LittleEndian, FromLittleEndian, Crc32.Crc, WordBytes, ChecksumMatches;
    var p := PackPayload(s);
    var f := PackFrame(s);
    SealMatches(p);
    PayloadParts(s);
    assert f[..20] == p;
    assert f[4..8] == p[4..8];
    assert f[8..12] == p[8..12];
    assert f[12..14] == p[12..14];
    assert f[16..20] == p[16..20];
    Pow256Values();
    LittleEndianRoundTrip(s.seqno, 4);
    LittleEndianRoundTrip(s.timestampNs % TWO_TO_THE_32, 4);
    LittleEndianRoundTrip(s.nodeId, 2);
    LittleEndianRoundTrip(Unsigned(s.rawValue), 4);
    LowByteValue(s.flags);
    LowByteValue(s.sensorType);
    LowByteValue(s.reserved);
  }

  lemma PayloadParts(s: SensorSample)
    ensures var p := PackPayload(s);
      && p[0] == MAGIC_LOW && p[1] == MAGIC_HIGH && p[2] == VERSION && p[3] == LowByte(s.flags)
      && p[4..8] == LittleEndian(s.seqno, 4)
      && p[8..12] == LittleEndian(s.timestampNs % TWO_TO_THE_32, 4)
      && p[12..14] == LittleEndian(s.nodeId, 2)
      && p[14] == LowByte(s.sensorType) && p[15] == LowByte(s.reserved)
      && p[16..20] == LittleEndian(Unsigned(s.rawValue), 4)
  {
    hide LowByte, LittleEndian;
  }

  // ----- hop stamp -----

  /** The frame after a hop: index up by one (saturating), LAST_HOP set or cleared, resealed. */
  function HopStamp(f: Frame, finalHop: bool): (r: Frame) {
    Seal(f[..20][3 := StampedFlags(f, finalHop)][15 := StampedIndex(f)])
  }

  function StampedIndex(f: Frame): (r: Byte) {
    if HopIndexOf(f) < 255 then LowByte(HopIndexOf(f) + 1) else f[15]
  }

  function StampedFlags(f: Frame, finalHop: bool): (r: Byte) {
    if finalHop then FlagsOf(f) | FLAG_LAST_HOP else FlagsOf(f) & 0xFD
  }

  /** A stamped valid frame is valid; only hop index, LAST_HOP and checksum change. */
  lemma HopStampKeeps(f: Frame, finalHop: bool)
    requires VerifyFrame(f)
    ensures var g := HopStamp(f, finalHop);
      && VerifyFrame(g)
      && HopIndexOf(g) == (if HopIndexOf(f) < 255 then HopIndexOf(f) + 1 else 255)
      && (LastHop(g) <==> finalHop)
      && FlagsOf(g) & 0xFD == FlagsOf(f) & 0xFD
      && SeqOf(g) == SeqOf(f) && TimestampOf(g) == TimestampOf(f) && NodeOf(g) == NodeOf(f)
      && SensorOf(g) == SensorOf(f) && RawOf(g) == RawOf(f)
  {
    hide LowByte, Value, ChecksumMatches, FromLittleEndian, StampedFlags, StampedIndex, Seal;
    var g := HopStamp(f, finalHop);
    HopStampBytes(f, finalHop);
    StampedParts(f, finalHop);
    assert g[4..8] == f[4..8];
    assert g[8..12] == f[8..12];
    assert g[12..14] == f[12..14];
    assert g[16..20] == f[16..20];
  }

  lemma HopStampBytes(f: Frame, finalHop: bool)
    ensures var g := HopStamp(f, finalHop);
      && ChecksumMatches(g)
      && g[3] == StampedFlags(f, finalHop) && g[15] == StampedIndex(f)
      && (forall i :: 0 <= i < 20 && i != 3 && i != 15 ==> g[i] == f[i])
  {}

  lemma StampedParts(f: Frame, finalHop: bool)
    ensures Value(StampedIndex(f)) == if HopIndexOf(f) < 255 then HopIndexOf(f) + 1 else 255
    ensures StampedFlags(f, finalHop) & FLAG_LAST_HOP != 0 <==> finalHop
    ensures StampedFlags(f, finalHop) & 0xFD == FlagsOf(f) & 0xFD
  {
    hide LowByte, Value;
    if HopIndexOf(f) < 255 {
      LowByteValue(HopIndexOf(f) + 1);
    }
    FlagBits(FlagsOf(f));
  }

  lemma FlagBits(b: Byte)
    ensures (b | FLAG_LAST_HOP) & FLAG_LAST_HOP != 0
    ensures (b & 0xFD) & FLAG_LAST_HOP == 0
    ensures (b | FLAG_LAST_HOP) & 0xFD == b & 0xFD
    ensures (b & 0xFD) & 0xFD == b & 0xFD
  {}

  // ----- the in-place forms -----

  /** Writes a byte string into a frame buffer. */
  method Store(out: array<Byte>, at: nat, bytes: seq<Byte>)
    requires at + |bytes| <= out.Length
    modifies out
    ensures out[at..at + |bytes|] == bytes
    ensures out[..at] == old(out[..at]) && out[at + |bytes|..] == old(out[at + |bytes|..])
  {
    forall i | 0 <= i < |bytes| {
      out[at + i] := bytes[i];
    }
  }

  method PackFrameInto(out: array<Byte>, s: SensorSample, crc: Crc32.CrcTable)
    requires out.Length == 24
    requires crc.Valid()
    modifies out, crc`ready, crc.table
    ensures out[..] == PackFrame(s)
    ensures crc.Valid() && crc.table == old(crc.table)
  {
    hide LowByte, Crc32.Crc, Crc32.BitSteps, LittleEndian, Seal;
    out[0], out[1] := MAGIC_LOW, MAGIC_HIGH;
    out[2] := VERSION;
    out[3] := LowByte(s.flags);
    ghost var p0 := [MAGIC_LOW, MAGIC_HIGH, VERSION, LowByte(s.flags)];
    assert out[..4] == p0;
    Store(out, 4, LittleEndian(s.seqno, 4));
    assert out[..8] == out[..4] + out[4..8];
    ghost var p1 := p0 + LittleEndian(s.seqno, 4);
    Store(out, 8, LittleEndian(s.timestampNs % TWO_TO_THE_32, 4));
    assert out[..12] == out[..8] + out[8..12];
    ghost var p2 := p1 + LittleEndian(s.timestampNs % TWO_TO_THE_32, 4);
    Store(out, 12, LittleEndian(s.nodeId, 2));
    assert out[..14] == out[..12] + out[12..14];
    ghost var p3 := p2 + LittleEndian(s.nodeId, 2);
    out[14], out[15] := LowByte(s.sensorType), LowByte(s.reserved);
    assert out[..14] == p3;
    assert out[..16] == out[..14] + [LowByte(s.sensorType), LowByte(s.reserved)];
    Store(out, 16, LittleEndian(Unsigned(s.rawValue), 4));
    assert out[..20] == out[..16] + out[16..20];
    assert out[..20] == PackPayload(s);
    Store(out, 20, [0, 0, 0, 0]);
    SealInPlace(out, crc);
  }

  method SealInPlace(out: array<Byte>, crc: Crc32.CrcTable)
    requires out.Length == 24
    requires crc.Valid()
    modifies out, crc`ready, crc.table
    ensures out[..] == Seal(old(out[..20]))
    ensures crc.Valid() && crc.table == old(crc.table)
  {
    hide Crc32.Crc, Crc32.BitSteps, WordBytes;
    var c := crc.Compute(out[..20], Crc32.SEED);
    Store(out, 20, WordBytes(c));
    assert out[..] == out[..20] + out[20..24];
  }

  method ApplyHopStamp(frame: array?<Byte>, finalHop: bool, crc: Crc32.CrcTable)
    requires frame != null ==> frame.Length == 24
    requires crc.Valid()
    modifies frame, crc`ready, crc.table
    ensures frame != null ==> frame[..] == HopStamp(old(frame[..]), finalHop)
    ensures crc.Valid() && crc.table == old(crc.table)
  {
    hide Crc32.Crc, Crc32.BitSteps, Seal, StampedIndex, StampedFlags;
    if frame == null {
      return;
    }
    StampFields(frame, finalHop);
    ghost var p := frame[..20];
    Store(frame, 20, [0, 0, 0, 0]);
    assert frame[..20] == p;
    SealInPlace(frame, crc);
  }

  /** The field updates of a hop stamp, before the checksum is redone. */
  method StampFields(frame: array<Byte>, finalHop: bool)
    requires frame.Length == 24
    modifies frame
    ensures var f := old(frame[..]);
      frame[..20] == f[..20][3 := StampedFlags(f, finalHop)][15 := StampedIndex(f)]
  {
    hide Value, LowByte;
    if Value(frame[15]) < 255 {
      frame[15] := LowByte(Value(frame[15]) + 1);
    }
    if finalHop {
      frame[3] := frame[3] | FLAG_LAST_HOP;
    } else {
      frame[3] := frame[3] & 0xFD;
    }
  }

  method Verify(f: Frame, crc: Crc32.CrcTable) returns (ok: bool)
    requires crc.Valid()
    modifies crc`ready, crc.table
    ensures crc.Valid() && crc.table == old(crc.table)
    ensures ok <==> VerifyFrame(f)
  {
    hide Crc32.Crc, Crc32.BitSteps, Crc32.Word;
    if !MagicAt(f, 0) || f[2] != VERSION {
      return false;
    }
    var expected := crc.Compute(f[..20], Crc32.SEED);
    ok := expected == ChecksumOf(f);
  }
}

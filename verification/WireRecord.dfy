/** The operator's view of a frame: the Java record, its decoder and encoder. */
module WireRecord {
  import opened Bytes
  import opened WireFrame
  import Analyze

  /** Every field as the Java class holds it, unsigned where it is unsigned there. */
  datatype Record = Record(
    magic: U16, version: U8, flags: U8, seqno: U32, timestampLo: U32, nodeId: U16,
    sensorType: U8, reserved: U8, rawValue: I32, checksum: U32, crcOk: bool)

  function Field(s: seq<Byte>): (r: nat)
    requires |s| == 2 || |s| == 4
    ensures |s| == 2 ==> r < 0x1_0000
    ensures |s| == 4 ==> r < 0x1_0000_0000
  {
    FieldBound(s);
    FromLittleEndian(s)
  }

  function Decode(f: Frame): (r: Record) {
    Record(
      Field(f[0..2]), Value(f[2]), Value(f[3]), Field(f[4..8]), Field(f[8..12]), Field(f[12..14]),
      Value(f[14]), Value(f[15]), Signed(Field(f[16..20])), Field(f[20..24]), VerifyFrame(f))
  }

  function Encode(r: Record): (f: Frame) {
    LittleEndian(r.magic, 2) + [LowByte(r.version), LowByte(r.flags)]
    + LittleEndian(r.seqno, 4) + LittleEndian(r.timestampLo, 4) + LittleEndian(r.nodeId, 2)
    + [LowByte(r.sensorType), LowByte(r.reserved)]
    + LittleEndian(Unsigned(r.rawValue), 4) + LittleEndian(r.checksum, 4)
  }

  /** The records of frames, in order. */
  function Decoded(fs: seq<Frame>): (rs: seq<Record>)
    ensures |rs| == |fs|
  {
    if fs == [] then [] else Decoded(fs[..|fs| - 1]) + [Decode(fs[|fs| - 1])]
  }

  lemma {:induction false} DecodedAt(fs: seq<Frame>, i: nat)
    requires i < |fs|
    ensures Decoded(fs)[i] == Decode(fs[i])
    decreases |fs|
  {
    hide Decode;
    if i < |fs| - 1 {
      DecodedAt(fs[..|fs| - 1], i);
    }
  }

  lemma FieldWritesBack(s: seq<Byte>)
    requires |s| == 2 || |s| == 4
    ensures LittleEndian(Field(s), |s|) == s
  {
    FromLittleEndianRoundTrip(s);
  }

  /** Encoding what was decoded reproduces all 24 bytes, valid or not. */
  lemma EncodeDecode(f: Frame)
    ensures Encode(Decode(f)) == f
  {
    hide VerifyFrame, LowByte, Value, LittleEndian, FromLittleEndian, Field;
    FieldWritesBack(f[0..2]);
    FieldWritesBack(f[4..8]);
    FieldWritesBack(f[8..12]);
    FieldWritesBack(f[12..14]);
    FieldWritesBack(f[16..20]);
    FieldWritesBack(f[20..24]);
    LowByteOfValue(f[2]);
    LowByteOfValue(f[3]);
    LowByteOfValue(f[14]);
    LowByteOfValue(f[15]);
    assert Unsigned(Signed(Field(f[16..20]))) == Field(f[16..20]);
    assert f == f[0..2] + [f[2], f[3]] + f[4..8] + f[8..12] + f[12..14] + [f[14], f[15]] + f[16..20] + f[20..24];
  }

  lemma FieldReadsBack(x: nat, n: nat)
    requires (n == 2 && x < 0x1_0000) || (n == 4 && x < 0x1_0000_0000)
    ensures Field(LittleEndian(x, n)) == x
  {
    Pow256Values();
    LittleEndianRoundTrip(x, n);
  }

  lemma EncodedParts(r: Record)
    ensures var f := Encode(r);
      && f[0..2] == LittleEndian(r.magic, 2) && f[2] == LowByte(r.version) && f[3] == LowByte(r.flags)
      && f[4..8] == LittleEndian(r.seqno, 4) && f[8..12] == LittleEndian(r.timestampLo, 4)
      && f[12..14] == LittleEndian(r.nodeId, 2)
      && f[14] == LowByte(r.sensorType) && f[15] == LowByte(r.reserved)
      && f[16..20] == LittleEndian(Unsigned(r.rawValue), 4) && f[20..24] == LittleEndian(r.checksum, 4)
  {
    hide LowByte, LittleEndian;
  }

  /** Decoding what was encoded gives the fields back; only crcOk is recomputed. */
  lemma DecodeEncode(r: Record)
    ensures Decode(Encode(r)) == r.(crcOk := VerifyFrame(Encode(r)))
  {
    hide VerifyFrame, LowByte, Value, LittleEndian, FromLittleEndian, Encode, Field;
    EncodedParts(r);
    FieldReadsBack(r.magic, 2);
    FieldReadsBack(r.seqno, 4);
    FieldReadsBack(r.timestampLo, 4);
    FieldReadsBack(r.nodeId, 2);
    FieldReadsBack(Unsigned(r.rawValue), 4);
    FieldReadsBack(r.checksum, 4);
    LowByteValue(r.version);
    LowByteValue(r.flags);
    LowByteValue(r.sensorType);
    LowByteValue(r.reserved);
    assert Signed(Unsigned(r.rawValue)) == r.rawValue;
  }

  /** The fields the analysers look at, taken from the record. */
  function ReadingOfRecord(r: Record): (x: Analyze.Reading) {
    Analyze.Reading(r.seqno, r.nodeId, r.sensorType, r.reserved, r.flags / 2 % 2 == 1)
  }

  /** Both sides read the same values out of a frame. */
  lemma SameReading(f: Frame)
    ensures ReadingOfRecord(Decode(f)) == Analyze.ReadingOf(f)
  {
    hide VerifyFrame, FromLittleEndian, Number, Binary, DigitsOf;
    BinaryOfNumber(DigitsOf(f[3]));
    SecondDigit(Value(f[3]));
    LastHopDigit(f[3]);
  }

  /** And the same raw value and time. */
  lemma SameFields(f: Frame)
    ensures Decode(f).rawValue == RawOf(f) && Decode(f).timestampLo == TimestampOf(f)
    ensures Decode(f).crcOk == VerifyFrame(f)
  {
    hide VerifyFrame, FromLittleEndian;
  }

  /** The flags byte as a number, where it is 0 or LAST_HOP alone. */
  lemma FlagsMean(f: Frame)
    ensures Value(FlagsOf(f)) == 2 ==> LastHop(f)
    ensures Value(FlagsOf(f)) == 0 ==> !LastHop(f)
  {
    hide Number, Binary, DigitsOf;
    BinaryOfNumber(DigitsOf(f[3]));
    SecondDigit(Value(f[3]));
    LastHopDigit(f[3]);
  }

  lemma SecondDigit(x: nat)
    ensures Binary(x, 8)[1] == (x / 2 % 2 == 1)
  {}

  lemma LastHopDigit(b: Byte)
    ensures DigitsOf(b)[1] <==> b & FLAG_LAST_HOP != 0
  {}
}

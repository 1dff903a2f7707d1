/** Known values: they fix the seed, the polynomial, the byte order and the layout that the laws of
    the other modules leave open. */
module KnownFrames {
  import opened Bytes
  import opened Crc32
  import opened WireFrame
  import opened WireRecord
  import opened ZcmFile

  // ----- the check value -----

  /** A byte takes the register from c to d. */
  predicate Feeds(c: bv32, b: Byte, d: bv32) {
    BitSteps(Xor(c, b as bv32), 8) == d
  }

  /** Four bytes in a row. */
  lemma FourFed(c0: bv32, c1: bv32, c2: bv32, c3: bv32, c4: bv32, b0: Byte, b1: Byte, b2: Byte, b3: Byte)
    requires Feeds(c0, b0, c1) && Feeds(c1, b1, c2) && Feeds(c2, b2, c3) && Feeds(c3, b3, c4)
    ensures Register(c0, Bits([b0, b1, b2, b3])) == c4
  {
    hide Register, BitSteps, Xor, Bits, BitsOf;
    OneFed(c3, c4, b3, []);
    OneFed(c2, c3, b2, [b3]);
    OneFed(c1, c2, b1, [b2, b3]);
    OneFed(c0, c1, b0, [b1, b2, b3]);
    RegisterOfNothing(c4);
    assert [b3] + [] == [b3] && [b2] + [b3] == [b2, b3] && [b1] + [b2, b3] == [b1, b2, b3];
    assert [b0] + [b1, b2, b3] == [b0, b1, b2, b3];
  }

  lemma OneFed(c: bv32, d: bv32, b: Byte, rest: seq<Byte>)
    requires Feeds(c, b, d)
    ensures Register(c, Bits([b] + rest)) == Register(d, Bits(rest))
  {
    hide Register, BitSteps, Xor, Bits, BitsOf;
    RegisterOfByte(c, b);
    RegisterOfBytes(c, b, rest);
  }

  lemma RegisterJoins(c: bv32, d: bv32, a: seq<Byte>, b: seq<Byte>)
    requires Register(c, Bits(a)) == d
    ensures Register(c, Bits(a + b)) == Register(d, Bits(b))
  {
    hide Register, Bits;
    BitsAppend(a, b);
    RegisterAppend(c, Bits(a), Bits(b));
  }

  lemma CheckFirst()
    ensures Register(0xFFFF_FFFF, Bits([0x31, 0x32, 0x33, 0x34])) == 0x641C_1F5C
  {
    hide Register, Bits;
    FourFed(0xFFFF_FFFF, 0x7C23_1048, 0xB0AC_BB32, 0x77B7_9C2D, 0x641C_1F5C,
            0x31, 0x32, 0x33, 0x34);
  }

  lemma CheckSecond()
    ensures Register(0x641C_1F5C, Bits([0x35, 0x36, 0x37, 0x38])) == 0x651F_2550
  {
    hide Register, Bits;
    FourFed(0x641C_1F5C, 0x340A_C5E3, 0xF68D_2C9E, 0xAFFC_9660, 0x651F_2550,
            0x35, 0x36, 0x37, 0x38);
  }

  lemma CheckThird()
    ensures Register(0x651F_2550, Bits([0x39])) == 0x340B_C6D9
  {
    OneFed(0x651F_2550, 0x340B_C6D9, 0x39, []);
    assert [0x39] + [] == [0x39];
  }

  /** The published check value of CRC-32: the digits one to nine, in ASCII. The check value of nothing is 0. */
  lemma CheckValue()
    ensures Crc([], SEED) == 0
    ensures Crc([0x31, 0x32, 0x33, 0x34, 0x35, 0x36, 0x37, 0x38, 0x39], SEED) == 0xCBF4_3926
  {
    hide Register, Bits;
    RegisterOfNothing(SEED);
    var a, b, c: seq<Byte> := [0x31, 0x32, 0x33, 0x34], [0x35, 0x36, 0x37, 0x38], [0x39];
    CheckFirst();
    CheckSecond();
    CheckThird();
    RegisterJoins(0xFFFF_FFFF, 0x641C_1F5C, a, b + c);
    RegisterJoins(0x641C_1F5C, 0x651F_2550, b, c);
    assert a + (b + c) == [0x31, 0x32, 0x33, 0x34, 0x35, 0x36, 0x37, 0x38, 0x39];
  }

  // ----- the frame both languages agree on -----

  function KnownSample(): (s: SensorSample) {
    SensorSample(42, 0x1122_3344_5566_7788, 7, 2, 2, 0, -9001)
  }

  function KnownFrame(): (f: Frame) {
    [0x43, 0x5A] + [0x01, 0x02] + [0x2A, 0x00, 0x00, 0x00] + [0x88, 0x77, 0x66, 0x55] + [0x07, 0x00] + [0x02, 0x00]
    + [0xD7, 0xDC, 0xFF, 0xFF] + [0x89, 0x84, 0xEC, 0xFD]
  }

  lemma KnownWord0()
    ensures Register(0xFFFF_FFFF, Bits([0x43, 0x5A, 0x01, 0x02])) == 0xC124_2C3B
  {
    hide Register, Bits;
    FourFed(0xFFFF_FFFF, 0xC228_0058, 0xEECC_492C, 0x4531_903C, 0xC124_2C3B,
            0x43, 0x5A, 0x01, 0x02);
  }

  lemma KnownWord1()
    ensures Register(0xC124_2C3B, Bits([0x2A, 0x00, 0x00, 0x00])) == 0xC479_9CFE
  {
    hide Register, Bits;
    FourFed(0xC124_2C3B, 0x6A71_04DE, 0x6101_8ED7, 0x18D6_46F9, 0xC479_9CFE,
            0x2A, 0x00, 0x00, 0x00);
  }

  lemma KnownWord2()
    ensures Register(0xC479_9CFE, Bits([0x88, 0x77, 0x66, 0x55])) == 0xA1B1_6D4D
  {
    hide Register, Bits;
    FourFed(0xC479_9CFE, 0xB9A2_AD95, 0x4EBD_21F9, 0x60FE_33F4, 0xA1B1_6D4D,
            0x88, 0x77, 0x66, 0x55);
  }

  lemma KnownWord3()
    ensures Register(0xA1B1_6D4D, Bits([0x07, 0x00, 0x02, 0x00])) == 0xDA9F_8E2F
  {
    hide Register, Bits;
    FourFed(0xA1B1_6D4D, 0x96A8_19E3, 0x3995_1BDB, 0xFF36_FF6B, 0xDA9F_8E2F,
            0x07, 0x00, 0x02, 0x00);
  }

  lemma KnownWord4()
    ensures Register(0xDA9F_8E2F, Bits([0xD7, 0xDC, 0xFF, 0xFF])) == 0x0213_7B76
  {
    hide Register, Bits;
    FourFed(0xDA9F_8E2F, 0xB3BC_E5A0, 0x5900_81F2, 0x7EE8_7C3C, 0x0213_7B76,
            0xD7, 0xDC, 0xFF, 0xFF);
  }

  lemma KnownChecksum()
    ensures Crc(KnownFrame()[..20], SEED) == 0xFDEC_8489
  {
    hide Register, Bits, KnownFrame;
    var w0, w1: seq<Byte> := [0x43, 0x5A, 0x01, 0x02], [0x2A, 0x00, 0x00, 0x00];
    var w2, w3: seq<Byte> := [0x88, 0x77, 0x66, 0x55], [0x07, 0x00, 0x02, 0x00];
    var w4: seq<Byte> := [0xD7, 0xDC, 0xFF, 0xFF];
    KnownWord0();
    KnownWord1();
    KnownWord2();
    KnownWord3();
    KnownWord4();
    RegisterJoins(0xFFFF_FFFF, 0xC124_2C3B, w0, w1 + (w2 + (w3 + w4)));
    RegisterJoins(0xC124_2C3B, 0xC479_9CFE, w1, w2 + (w3 + w4));
    RegisterJoins(0xC479_9CFE, 0xA1B1_6D4D, w2, w3 + w4);
    RegisterJoins(0xA1B1_6D4D, 0xDA9F_8E2F, w3, w4);
    KnownInWords(w0, w1, w2, w3, w4);
  }

  lemma KnownInWords(w0: seq<Byte>, w1: seq<Byte>, w2: seq<Byte>, w3: seq<Byte>, w4: seq<Byte>)
    requires w0 == [0x43, 0x5A, 0x01, 0x02] && w1 == [0x2A, 0x00, 0x00, 0x00]
    requires w2 == [0x88, 0x77, 0x66, 0x55] && w3 == [0x07, 0x00, 0x02, 0x00]
    requires w4 == [0xD7, 0xDC, 0xFF, 0xFF]
    ensures w0 + (w1 + (w2 + (w3 + w4))) == KnownFrame()[..20]
  {
    hide KnownFrame;
    KnownSlices();
    var f := KnownFrame();
    assert w0 == f[0..2] + [f[2], f[3]] && w3 == f[12..14] + [f[14], f[15]];
    assert f[..20] == f[0..2] + [f[2], f[3]] + f[4..8] + f[8..12] + f[12..14] + [f[14], f[15]] + f[16..20];
  }

  // ----- bytes and fields as numbers -----

  function NumberAt(d: seq<bool>, i: nat): (r: nat)
    requires i <= |d|
  {
    Number(d[i..])
  }

  function FromAt(s: seq<Byte>, i: nat): (r: nat)
    requires i <= |s|
  {
    FromLittleEndian(s[i..])
  }

  lemma NumberPeels(d: seq<bool>, i: nat)
    requires i < |d|
    ensures NumberAt(d, i) == Digit(d[i]) + 2 * NumberAt(d, i + 1)
  {
    assert d[i..][1..] == d[i + 1..];
  }

  lemma FromPeels(s: seq<Byte>, i: nat)
    requires i < |s|
    ensures FromAt(s, i) == Value(s[i]) + 256 * FromAt(s, i + 1)
  {
    hide Value;
    assert s[i..][1..] == s[i + 1..];
  }

  lemma Whole(d: seq<bool>, s: seq<Byte>)
    ensures NumberAt(d, 0) == Number(d) && NumberAt(d, |d|) == 0
    ensures FromAt(s, 0) == FromLittleEndian(s) && FromAt(s, |s|) == 0
  {
    assert d[0..] == d && s[0..] == s;
  }

  lemma FromFour(s: seq<Byte>)
    requires |s| == 4
    ensures FromLittleEndian(s) == Value(s[0]) + 0x100 * Value(s[1]) + 0x1_0000 * Value(s[2]) + 0x100_0000 * Value(s[3])
  {
    hide Value, FromLittleEndian, FromAt;
    Whole([], s);
    FromPeels(s, 0);
    FromPeels(s, 1);
    FromPeels(s, 2);
    FromPeels(s, 3);
  }

  lemma FromTwo(s: seq<Byte>)
    requires |s| == 2
    ensures FromLittleEndian(s) == Value(s[0]) + 0x100 * Value(s[1])
  {
    hide Value, FromLittleEndian, FromAt;
    Whole([], s);
    FromPeels(s, 0);
    FromPeels(s, 1);
  }

  function Digit(bit: bool): (r: nat) {
    if bit then 1 else 0
  }

  lemma DigitsAre(b: Byte)
    ensures var d := DigitsOf(b);
      && d[0] == (b & 1 == 1) && d[1] == (b & 2 == 2) && d[2] == (b & 4 == 4) && d[3] == (b & 8 == 8)
      && d[4] == (b & 16 == 16) && d[5] == (b & 32 == 32) && d[6] == (b & 64 == 64) && d[7] == (b & 128 == 128)
  {}

  lemma NumberInDigits(d: seq<bool>)
    requires |d| == 8
    ensures Number(d) == Digit(d[0]) + 2 * Digit(d[1]) + 4 * Digit(d[2]) + 8 * Digit(d[3])
      + 16 * Digit(d[4]) + 32 * Digit(d[5]) + 64 * Digit(d[6]) + 128 * Digit(d[7])
  {
    hide Number, NumberAt, Digit;
    Whole(d, []);
    NumberPeels(d, 0);
    NumberPeels(d, 1);
    NumberPeels(d, 2);
    NumberPeels(d, 3);
    NumberPeels(d, 4);
    NumberPeels(d, 5);
    NumberPeels(d, 6);
    NumberPeels(d, 7);
  }

  /** A literal byte is its number. */
  lemma ValueIs(b: Byte, x: nat)
    requires x == (if b & 1 == 1 then 1 else 0) + (if b & 2 == 2 then 2 else 0) + (if b & 4 == 4 then 4 else 0)
      + (if b & 8 == 8 then 8 else 0) + (if b & 16 == 16 then 16 else 0) + (if b & 32 == 32 then 32 else 0)
      + (if b & 64 == 64 then 64 else 0) + (if b & 128 == 128 then 128 else 0)
    ensures Value(b) == x
  {
    hide DigitsOf, Number;
    DigitsAre(b);
    NumberInDigits(DigitsOf(b));
  }

  lemma KnownValues()
    ensures Value(0x00) == 0x00 && Value(0x01) == 0x01 && Value(0x02) == 0x02 && Value(0x07) == 0x07
    ensures Value(0x2A) == 0x2A && Value(0x43) == 0x43 && Value(0x5A) == 0x5A
    ensures Value(0x55) == 0x55 && Value(0x66) == 0x66 && Value(0x77) == 0x77 && Value(0x88) == 0x88
    ensures Value(0xD7) == 0xD7 && Value(0xDC) == 0xDC && Value(0xFF) == 0xFF
    ensures Value(0x84) == 0x84 && Value(0x89) == 0x89 && Value(0xEC) == 0xEC && Value(0xFD) == 0xFD
  {
    hide Value;
    ValueIs(0x00, 0x00);
    ValueIs(0x01, 0x01);
    ValueIs(0x02, 0x02);
    ValueIs(0x07, 0x07);
    ValueIs(0x2A, 0x2A);
    ValueIs(0x43, 0x43);
    ValueIs(0x5A, 0x5A);
    ValueIs(0x55, 0x55);
    ValueIs(0x66, 0x66);
    ValueIs(0x77, 0x77);
    ValueIs(0x88, 0x88);
    ValueIs(0xD7, 0xD7);
    ValueIs(0xDC, 0xDC);
    ValueIs(0xFF, 0xFF);
    ValueIs(0x84, 0x84);
    ValueIs(0x89, 0x89);
    ValueIs(0xEC, 0xEC);
    ValueIs(0xFD, 0xFD);
  }

  lemma KnownField(s: seq<Byte>, x: nat)
    requires FromLittleEndian(s) == x
    ensures LittleEndian(x, |s|) == s
  {
    FromLittleEndianRoundTrip(s);
  }

  lemma KnownSlices()
    ensures var f := KnownFrame();
      && f[0..2] == [0x43, 0x5A] && f[2] == 0x01 && f[3] == 0x02 && f[4..8] == [0x2A, 0x00, 0x00, 0x00]
      && f[8..12] == [0x88, 0x77, 0x66, 0x55] && f[12..14] == [0x07, 0x00] && f[14] == 0x02 && f[15] == 0x00
      && f[16..20] == [0xD7, 0xDC, 0xFF, 0xFF] && f[20..24] == [0x89, 0x84, 0xEC, 0xFD]
  {
    SlicesOf([0x43, 0x5A], [0x01, 0x02], [0x2A, 0x00, 0x00, 0x00], [0x88, 0x77, 0x66, 0x55], [0x07, 0x00],
             [0x02, 0x00], [0xD7, 0xDC, 0xFF, 0xFF], [0x89, 0x84, 0xEC, 0xFD]);
  }

  lemma SlicesOf(a: seq<Byte>, b: seq<Byte>, c: seq<Byte>, d: seq<Byte>, e: seq<Byte>, g: seq<Byte>, h: seq<Byte>,
      i: seq<Byte>)
    requires |a| == |b| == |e| == |g| == 2 && |c| == |d| == |h| == |i| == 4
    ensures var f := a + b + c + d + e + g + h + i;
      && |f| == 24 && f[0..2] == a && f[2] == b[0] && f[3] == b[1] && f[4..8] == c && f[8..12] == d
      && f[12..14] == e && f[14] == g[0] && f[15] == g[1] && f[16..20] == h && f[20..24] == i
  {}

  lemma KnownNumbers()
    ensures FromLittleEndian([0x43, 0x5A]) == 0x5A43 && FromLittleEndian([0x07, 0x00]) == 7
    ensures FromLittleEndian([0x2A, 0x00, 0x00, 0x00]) == 42
    ensures FromLittleEndian([0x88, 0x77, 0x66, 0x55]) == 0x5566_7788
    ensures FromLittleEndian([0xD7, 0xDC, 0xFF, 0xFF]) == 0xFFFF_DCD7
    ensures FromLittleEndian([0x89, 0x84, 0xEC, 0xFD]) == 0xFDEC_8489
  {
    hide Value, FromLittleEndian;
    KnownValues();
    FromTwo([0x43, 0x5A]);
    FromTwo([0x07, 0x00]);
    FromFour([0x2A, 0x00, 0x00, 0x00]);
    FromFour([0x88, 0x77, 0x66, 0x55]);
    FromFour([0xD7, 0xDC, 0xFF, 0xFF]);
    FromFour([0x89, 0x84, 0xEC, 0xFD]);
  }

  lemma KnownPayload()
    ensures PackPayload(KnownSample()) == KnownFrame()[..20]
  {
    hide Value, LittleEndian, FromLittleEndian, LowByte, KnownFrame;
    KnownValues();
    KnownNumbers();
    KnownSlices();
    var f := KnownFrame();
    KnownField(f[4..8], 42);
    KnownField(f[8..12], 0x5566_7788);
    KnownField(f[12..14], 7);
    KnownField(f[16..20], 0xFFFF_DCD7);
    LowByteOfValue(0x02);
    LowByteOfValue(0x00);
    assert f[..20] == f[0..2] + [f[2], f[3]] + f[4..8] + f[8..12] + f[12..14] + [f[14], f[15]] + f[16..20];
    assert PackPayload(KnownSample())
        == [0x43, 0x5A] + [0x01, 0x02] + f[4..8] + f[8..12] + f[12..14] + [0x02, 0x00] + f[16..20];
  }

  lemma KnownRecord()
    requires VerifyFrame(KnownFrame())
    ensures Decode(KnownFrame())
         == Record(0x5A43, 1, 2, 42, 0x5566_7788, 7, 2, 0, -9001, 0xFDEC_8489, true)
  {
    hide Value, FromLittleEndian, VerifyFrame, KnownFrame;
    KnownValues();
    KnownNumbers();
    KnownSlices();
  }

  lemma KnownSealed()
    ensures PackFrame(KnownSample()) == KnownFrame()
  {
    hide Crc, PackPayload, KnownFrame;
    KnownPayload();
    KnownChecksum();
    assert WordBytes(0xFDEC_8489) == [0x89, 0x84, 0xEC, 0xFD];
    KnownSlices();
    assert KnownFrame() == KnownFrame()[..20] + KnownFrame()[20..24];
  }

  /** The frame both languages' tests compare with, byte for byte: packing its sample gives it, it
      verifies, and the operator decodes its fields and encodes it back. */
  lemma KnownFramePacks()
    ensures PackFrame(KnownSample()) == KnownFrame() && VerifyFrame(KnownFrame())
    ensures Decode(KnownFrame())
         == Record(0x5A43, 1, 2, 42, 0x5566_7788, 7, 2, 0, -9001, 0xFDEC_8489, true)
    ensures Encode(Decode(KnownFrame())) == KnownFrame()
  {
    hide PackFrame, VerifyFrame, Decode, Encode, KnownFrame;
    KnownSealed();
    PackRoundTrip(KnownSample());
    EncodeDecode(KnownFrame());
    KnownRecord();
  }

  // ----- the capture header -----

  /** The header of a capture of one frame, byte for byte. */
  lemma KnownHeader()
    ensures Header(1)
         == [0x5A, 0x43, 0x4D, 0x31] + [0x01, 0x00] + [0x00, 0x00] + [0x01, 0x00, 0x00, 0x00, 0x00, 0x00, 0x00, 0x00]
  {
    hide Value, LittleEndian, FromLittleEndian;
    KnownValues();
    ValueIs(0x4D, 0x4D);
    ValueIs(0x31, 0x31);
    FromFour([0x5A, 0x43, 0x4D, 0x31]);
    FromTwo([0x01, 0x00]);
    FromTwo([0x00, 0x00]);
    SmallEight();
    KnownField([0x5A, 0x43, 0x4D, 0x31], 0x314D_435A);
    KnownField([0x01, 0x00], 1);
    KnownField([0x00, 0x00], 0);
    KnownField([0x01, 0x00, 0x00, 0x00, 0x00, 0x00, 0x00, 0x00], 1);
  }

  lemma SmallEight()
    ensures FromLittleEndian([0x01, 0x00, 0x00, 0x00, 0x00, 0x00, 0x00, 0x00]) == 1
  {
    hide Value, FromLittleEndian, FromAt;
    var s: seq<Byte> := [0x01, 0x00, 0x00, 0x00, 0x00, 0x00, 0x00, 0x00];
    KnownValues();
    Whole([], s);
    FromPeels(s, 0);
    FromPeels(s, 1);
    FromPeels(s, 2);
    FromPeels(s, 3);
    FromPeels(s, 4);
    FromPeels(s, 5);
    FromPeels(s, 6);
    FromPeels(s, 7);
  }
}

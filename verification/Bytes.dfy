/** Bytes, fixed-width little-endian integers and byte strings, as the wire format uses them. */
module Bytes {
  type Byte = bv8
  type U8 = x: int | 0 <= x < 0x100
  type U16 = x: int | 0 <= x < 0x1_0000
  type U32 = x: int | 0 <= x < 0x1_0000_0000
  type U64 = x: int | 0 <= x < 0x1_0000_0000_0000_0000
  type I32 = x: int | -0x8000_0000 <= x < 0x8000_0000

  const TWO_TO_THE_32 := 0x1_0000_0000
  const TWO_TO_THE_64 := 0x1_0000_0000_0000_0000

  function Pow2(n: nat): (r: nat)
    ensures r > 0
  {
    if n == 0 then 1 else 2 * Pow2(n - 1)
  }

  /** The number a list of binary digits denotes, lowest digit first. */
  function Number(digits: seq<bool>): (r: nat) {
    if digits == [] then 0 else (if digits[0] then 1 else 0) + 2 * Number(digits[1..])
  }

  /** The n lowest binary digits of x, lowest first. */
  function Binary(x: nat, n: nat): (r: seq<bool>)
    ensures |r| == n
  {
    if n == 0 then [] else [x % 2 == 1] + Binary(x / 2, n - 1)
  }

  lemma {:induction false} NumberBound(digits: seq<bool>)
    ensures Number(digits) < Pow2(|digits|)
  {
    if digits != [] {
      NumberBound(digits[1..]);
    }
  }

  lemma {:induction false} NumberOfBinary(x: nat, n: nat)
    requires x < Pow2(n)
    ensures Number(Binary(x, n)) == x
  {
    if n > 0 {
      NumberOfBinary(x / 2, n - 1);
      assert Binary(x, n)[1..] == Binary(x / 2, n - 1);
    }
  }

  lemma {:induction false} BinaryOfNumber(digits: seq<bool>)
    ensures Binary(Number(digits), |digits|) == digits
  {
    if digits != [] {
      BinaryOfNumber(digits[1..]);
      var r := Number(digits[1..]);
      assert Number(digits) / 2 == r;
      assert Number(digits) % 2 == 1 <==> digits[0];
    }
  }

  lemma EightDigits()
    ensures Pow2(8) == 256
  {
    assert Pow2(4) == 16;
  }

  /** The binary digits of a byte, lowest first. */
  function DigitsOf(b: Byte): (r: seq<bool>)
    ensures |r| == 8
  {
    [b & 1 == 1, b & 2 == 2, b & 4 == 4, b & 8 == 8, b & 16 == 16, b & 32 == 32, b & 64 == 64, b & 128 == 128]
  }

  function FromDigits(x: seq<bool>): (r: Byte)
    requires |x| == 8
  {
    Gather(x[0], x[1], x[2], x[3], x[4], x[5], x[6], x[7])
  }

  function Gather(x0: bool, x1: bool, x2: bool, x3: bool, x4: bool, x5: bool, x6: bool, x7: bool): (r: Byte) {
    (if x0 then 1 else 0) | (if x1 then 2 else 0) | (if x2 then 4 else 0) | (if x3 then 8 else 0)
    | (if x4 then 16 else 0) | (if x5 then 32 else 0) | (if x6 then 64 else 0) | (if x7 then 128 else 0)
  }

  lemma DigitsOfGather(x0: bool, x1: bool, x2: bool, x3: bool, x4: bool, x5: bool, x6: bool, x7: bool)
    ensures DigitsOf(Gather(x0, x1, x2, x3, x4, x5, x6, x7)) == [x0, x1, x2, x3, x4, x5, x6, x7]
  {}

  lemma DigitsOfFromDigits(x: seq<bool>)
    requires |x| == 8
    ensures DigitsOf(FromDigits(x)) == x
  {
    hide Gather, DigitsOf;
    var y := [x[0], x[1], x[2], x[3], x[4], x[5], x[6], x[7]];
    assert x == y;
    assert FromDigits(x) == FromDigits(y);
    DigitsOfGather(x[0], x[1], x[2], x[3], x[4], x[5], x[6], x[7]);
  }

  lemma FromDigitsOf(b: Byte)
    ensures FromDigits(DigitsOf(b)) == b
  {}

  /** The number a byte denotes. */
  function Value(b: Byte): (r: U8) {
    NumberBound(DigitsOf(b));
    EightDigits();
    Number(DigitsOf(b))
  }

  /** The byte with the eight lowest binary digits of x. */
  function LowByte(x: nat): (r: Byte) {
    FromDigits(Binary(x, 8))
  }

  lemma LowByteValue(x: nat)
    requires x < 256
    ensures Value(LowByte(x)) == x
  {
    hide FromDigits, DigitsOf, Number, Binary;
    DigitsOfFromDigits(Binary(x, 8));
    EightDigits();
    NumberOfBinary(x, 8);
  }

  lemma LowByteOfValue(b: Byte)
    ensures LowByte(Value(b)) == b
  {
    hide FromDigits, DigitsOf, Number, Binary;
    BinaryOfNumber(DigitsOf(b));
    FromDigitsOf(b);
  }

  /** The first n little-endian bytes of x. */
  function LittleEndian(x: nat, n: nat): (r: seq<Byte>)
    ensures |r| == n
  {
    if n == 0 then [] else [LowByte(x % 256)] + LittleEndian(x / 256, n - 1)
  }

  /** The number a little-endian byte string denotes. */
  function FromLittleEndian(s: seq<Byte>): (r: nat) {
    if s == [] then 0 else Value(s[0]) + 256 * FromLittleEndian(s[1..])
  }

  function Pow256(n: nat): (r: nat)
    ensures r > 0
  {
    if n == 0 then 1 else 256 * Pow256(n - 1)
  }

  lemma {:induction false} FromLittleEndianBound(s: seq<Byte>)
    ensures FromLittleEndian(s) < Pow256(|s|)
  {
    hide Value;
    if s != [] {
      FromLittleEndianBound(s[1..]);
    }
  }

  lemma Digit(a: int, r: int)
    requires 0 <= a < 256
    ensures (a + 256 * r) % 256 == a
    ensures (a + 256 * r) / 256 == r
  {}

  /** Reading back what was written yields the number, reduced to the width written. */
  lemma {:induction false} LittleEndianRoundTrip(x: nat, n: nat)
    requires x < Pow256(n)
    ensures FromLittleEndian(LittleEndian(x, n)) == x
  {
    hide LowByte, Value;
    if n > 0 {
      LowByteValue(x % 256);
      LittleEndianRoundTrip(x / 256, n - 1);
      var s := LittleEndian(x, n);
      assert s[0] == LowByte(x % 256);
      assert s[1..] == LittleEndian(x / 256, n - 1);
    }
  }

  /** Writing back what was read reproduces the bytes. */
  lemma {:induction false} FromLittleEndianRoundTrip(s: seq<Byte>)
    ensures LittleEndian(FromLittleEndian(s), |s|) == s
  {
    hide LowByte, Value;
    if s != [] {
      var v, r := Value(s[0]), FromLittleEndian(s[1..]);
      Digit(v, r);
      FromLittleEndianRoundTrip(s[1..]);
      LowByteOfValue(s[0]);
    }
  }

  lemma Pow256Values()
    ensures Pow256(2) == 0x1_0000
    ensures Pow256(4) == 0x1_0000_0000
    ensures Pow256(8) == 0x1_0000_0000_0000_0000
  {
    assert Pow256(0) == 1;
    assert Pow256(1) == 256;
    assert Pow256(3) == 0x100_0000;
    assert Pow256(5) == 0x100_0000_0000;
    assert Pow256(6) == 0x1_0000_0000_0000;
    assert Pow256(7) == 0x100_0000_0000_0000;
  }

  /** Concatenation of a list of byte strings. */
  function Concat(parts: seq<seq<Byte>>): (r: seq<Byte>) {
    if parts == [] then [] else parts[0] + Concat(parts[1..])
  }

  lemma {:induction false} ConcatAppend(a: seq<seq<Byte>>, b: seq<seq<Byte>>)
    ensures Concat(a + b) == Concat(a) + Concat(b)
  {
    if a == [] {
      assert a + b == b;
    } else {
      ConcatAppend(a[1..], b);
      assert (a + b)[1..] == a[1..] + b;
      AppendAssoc(a[0], Concat(a[1..]), Concat(b));
    }
  }

  lemma AppendAssoc<T>(a: seq<T>, b: seq<T>, c: seq<T>)
    ensures a + (b + c) == (a + b) + c
  {}
}

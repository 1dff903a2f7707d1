/** CRC-32 of section 8 of RFC 1952: the bit-serial definition, the byte-table
    form the engine runs, and what the check value detects. */
module Crc32 {
  import opened Bytes

  const SEED: bv32 := 0xFFFF_FFFF

  /** Exclusive-or, named so that proofs can treat it as a symbol. */
  function Xor(a: bv32, b: bv32): (r: bv32) {
    a ^ b
  }

  /** One step of the reflected division by the generator 0xEDB88320. */
  function BitStep(c: bv32): (r: bv32) {
    if c & 1 == 1 then 0xEDB8_8320 ^ (c >> 1) else c >> 1
  }

  function BitSteps(c: bv32, n: nat): (r: bv32)
    decreases n
  {
    if n == 0 then c else BitSteps(BitStep(c), n - 1)
  }

  function BitValue(bit: bool): (r: bv32) {
    if bit then 1 else 0
  }

  /** The low n bits of a word, least significant first. */
  function BitsFrom(w: bv32, n: nat): (r: seq<bool>)
    ensures |r| == n
    decreases n
  {
    if n == 0 then [] else [w & 1 == 1] + BitsFrom(w >> 1, n - 1)
  }

  /** The eight bits of a byte, in transmission order. */
  function BitsOf(b: Byte): (r: seq<bool>)
    ensures |r| == 8
  {
    BitsFrom(b as bv32, 8)
  }

  /** The message as a bit string, in transmission order. */
  function Bits(data: seq<Byte>): (r: seq<bool>)
    ensures |r| == 8 * |data|
  {
    if data == [] then [] else BitsOf(data[0]) + Bits(data[1..])
  }

  /** The shift register after feeding the message bits one at a time. */
  function Register(c: bv32, bits: seq<bool>): (r: bv32)
    decreases |bits|
  {
    if bits == [] then c else Register(BitStep(Xor(c, BitValue(bits[0]))), bits[1..])
  }

  /** The check value of a byte string, bit by bit. */
  function Crc(data: seq<Byte>, seed: bv32): (r: bv32) {
    Xor(Register(seed, Bits(data)), 0xFFFF_FFFF)
  }

  // ----- algebra of one bit step -----

  predicate Odd(c: bv32) {
    c & 1 == 1
  }

  function Half(c: bv32): (r: bv32) {
    c >> 1
  }

  lemma BitStepLinear(a: bv32, b: bv32)
    ensures BitStep(Xor(a, b)) == Xor(BitStep(a), BitStep(b))
  {
    hide BitStep, Xor, Odd, Half;
    BitStepCases(a);
    BitStepCases(b);
    BitStepCases(Xor(a, b));
    OddOfXor(a, b);
    HalfOfXor(a, b);
    var p, x, y := 0xEDB8_8320, Half(a), Half(b);
    XorFour(p, x, p, y);
    XorSelf(p);
    XorComm(0, Xor(x, y));
    XorZero(Xor(x, y));
    XorAssoc(p, x, y);
    XorAssoc(x, p, y);
    XorComm(x, p);
  }

  lemma BitStepCases(c: bv32)
    ensures BitStep(c) == if Odd(c) then Xor(0xEDB8_8320, Half(c)) else Half(c)
  {}

  lemma OddOfXor(a: bv32, b: bv32)
    ensures Odd(Xor(a, b)) <==> Odd(a) != Odd(b)
  {}

  lemma HalfOfXor(a: bv32, b: bv32)
    ensures Half(Xor(a, b)) == Xor(Half(a), Half(b))
  {}

  /** t is s shifted down by one, and no bit is lost in the shift. */
  predicate HalfOf(s: bv32, t: bv32) {
    s & 1 == 0 && s >> 1 == t
  }

  lemma BitStepEven(s: bv32, t: bv32)
    requires HalfOf(s, t)
    ensures BitStep(s) == t
  {}

  lemma BitStepInjective(a: bv32, b: bv32)
    requires BitStep(a) == BitStep(b)
    ensures a == b
  {}

  lemma {:induction false} BitStepsInjective(a: bv32, b: bv32, n: nat)
    requires BitSteps(a, n) == BitSteps(b, n)
    ensures a == b
    decreases n
  {
    hide BitStep;
    if n > 0 {
      BitStepsInjective(BitStep(a), BitStep(b), n - 1);
      BitStepInjective(a, b);
    }
  }

  lemma {:induction false} BitStepsLinear(a: bv32, b: bv32, n: nat)
    ensures BitSteps(Xor(a, b), n) == Xor(BitSteps(a, n), BitSteps(b, n))
    decreases n
  {
    hide BitStep, Xor;
    if n > 0 {
      BitStepLinear(a, b);
      BitStepsLinear(BitStep(a), BitStep(b), n - 1);
    }
  }

  lemma {:induction false} BitStepsCompose(c: bv32, m: nat, n: nat)
    ensures BitSteps(c, m + n) == BitSteps(BitSteps(c, m), n)
    decreases m
  {
    hide BitStep;
    if m > 0 {
      BitStepsCompose(BitStep(c), m - 1, n);
    }
  }

  lemma {:induction false} RegisterAppend(c: bv32, a: seq<bool>, b: seq<bool>)
    ensures Register(c, a + b) == Register(Register(c, a), b)
    decreases |a|
  {
    hide BitStep, BitValue, Xor;
    if a == [] {
      assert a + b == b;
    } else {
      RegisterAppend(BitStep(Xor(c, BitValue(a[0]))), a[1..], b);
      assert (a + b)[1..] == a[1..] + b;
    }
  }

  lemma {:induction false} BitsAppend(a: seq<Byte>, b: seq<Byte>)
    ensures Bits(a + b) == Bits(a) + Bits(b)
  {
    hide BitsOf;
    if a == [] {
      assert a + b == b;
    } else {
      BitsAppend(a[1..], b);
      assert (a + b)[1..] == a[1..] + b;
      AppendAssoc(BitsOf(a[0]), Bits(a[1..]), Bits(b));
    }
  }

  // ----- the byte-table form -----

  /** Eight bit steps on an exclusive-or of a low and a high part: the high
      24 bits only shift down. */
  lemma ByteShift(x: bv32, h: bv32)
    requires h & 0xFF == 0
    ensures BitSteps(Xor(x, h), 8) == Xor(BitSteps(x, 8), h >> 8)
  {
    hide BitSteps, Xor;
    EightZeros(h);
    BitStepsLinear(x, h, 8);
  }

  lemma EightZeros(h: bv32)
    requires h & 0xFF == 0
    ensures BitSteps(h, 8) == h >> 8
  {}

  /** The table lookup step equals eight bit steps on register xor byte. */
  lemma TableStep(c: bv32)
    ensures BitSteps(c, 8) == Xor(BitSteps(c & 0xFF, 8), c >> 8)
  {
    hide BitSteps, Xor;
    var h := c & 0xFFFF_FF00;
    SplitWord(c);
    ByteShift(c & 0xFF, h);
  }

  lemma SplitWord(c: bv32)
    ensures (c & 0xFFFF_FF00) & 0xFF == 0
    ensures Xor(c & 0xFF, c & 0xFFFF_FF00) == c
    ensures (c & 0xFFFF_FF00) >> 8 == c >> 8
  {}

  // ----- a word fed bit by bit -----

  lemma XorAssoc(a: bv32, b: bv32, c: bv32)
    ensures Xor(a, Xor(b, c)) == Xor(Xor(a, b), c)
  {
    XorReassociates(a, b, c);
  }

  lemma XorReassociates(a: bv32, b: bv32, c: bv32)
    ensures a ^ (b ^ c) == (a ^ b) ^ c
  {}

  lemma XorZero(c: bv32)
    ensures Xor(c, 0) == c
  {}

  function ShiftDown(w: bv32, n: nat): (r: bv32)
    decreases n
  {
    if n == 0 then w else ShiftDown(w >> 1, n - 1)
  }

  /** Feeding the lowest bit of a word leaves the other bits one place lower. */
  lemma FeedBit(c: bv32, w: bv32)
    ensures BitStep(Xor(c, w)) == Xor(BitStep(Xor(c, BitValue(w & 1 == 1))), w >> 1)
  {
    hide BitStep, Xor, BitValue;
    var bit := BitValue(w & 1 == 1);
    ShiftOutIn(w);
    XorAssoc(c, bit, (w >> 1) << 1);
    BitStepEven((w >> 1) << 1, w >> 1);
    BitStepLinear(Xor(c, bit), (w >> 1) << 1);
  }

  lemma ShiftOutIn(w: bv32)
    ensures Xor(BitValue(w & 1 == 1), (w >> 1) << 1) == w
    ensures HalfOf((w >> 1) << 1, w >> 1)
  {}

  /** Stepping register xor word is feeding the word's low bits, with the rest of the word shifted down. */
  lemma {:induction false} RegisterOfWord(c: bv32, w: bv32, n: nat)
    ensures BitSteps(Xor(c, w), n) == Xor(Register(c, BitsFrom(w, n)), ShiftDown(w, n))
    decreases n
  {
    hide BitStep, Xor, BitValue;
    if n > 0 {
      FeedBit(c, w);
      var bits := BitsFrom(w, n);
      assert bits[1..] == BitsFrom(w >> 1, n - 1);
      RegisterOfWord(BitStep(Xor(c, BitValue(bits[0]))), w >> 1, n - 1);
    }
  }

  lemma ShiftDownByte(b: Byte)
    ensures ShiftDown(b as bv32, 8) == 0
  {}

  /** One byte of the message is eight steps of register xor byte. */
  lemma RegisterOfByte(c: bv32, b: Byte)
    ensures Register(c, BitsOf(b)) == BitSteps(Xor(c, b as bv32), 8)
  {
    hide Register, BitSteps, Xor, BitsFrom, ShiftDown;
    RegisterOfWord(c, b as bv32, 8);
    ShiftDownByte(b);
    XorZero(Register(c, BitsOf(b)));
  }

  /** Byte b sits in the low eight bits of w, and v is what lies above it. */
  predicate LowByteOf(b: Byte, w: bv32, v: bv32) {
    w & 0xFF == b as bv32 && w >> 8 == v
  }

  /** Eight steps of register xor word consume the word's low byte. */
  lemma ConsumeByte(c: bv32, b: Byte, w: bv32, v: bv32)
    requires LowByteOf(b, w, v)
    ensures BitSteps(Xor(c, w), 8) == Xor(Register(c, BitsOf(b)), v)
  {
    hide Register, BitSteps, Xor, BitsOf;
    var h := w & 0xFFFF_FF00;
    SplitWord(w);
    XorAssoc(c, b as bv32, h);
    ByteShift(Xor(c, b as bv32), h);
    RegisterOfByte(c, b);
  }

  function Join(b: bv32, v: bv32): (r: bv32) {
    b | (v << 8)
  }

  /** The little-endian word of four bytes. */
  function Word(b0: Byte, b1: Byte, b2: Byte, b3: Byte): (r: bv32) {
    Join(b0 as bv32, Join(b1 as bv32, Join(b2 as bv32, b3 as bv32)))
  }

  lemma JoinLow(b: Byte, v: bv32)
    ensures Join(b as bv32, v) & 0xFF == b as bv32
  {}

  lemma JoinHigh(b: Byte, v: bv32)
    requires v & 0xFF00_0000 == 0
    ensures Join(b as bv32, v) >> 8 == v
  {}

  lemma JoinShort(b: Byte, v: bv32)
    requires v & 0xFFFF_0000 == 0
    ensures Join(b as bv32, v) & 0xFF00_0000 == 0
  {}

  lemma JoinShorter(b: Byte, v: bv32)
    requires v & 0xFFFF_FF00 == 0
    ensures Join(b as bv32, v) & 0xFFFF_0000 == 0
  {}

  lemma JoinParts(b: Byte, v: bv32)
    requires v & 0xFF00_0000 == 0
    ensures LowByteOf(b, Join(b as bv32, v), v)
    ensures v & 0xFFFF_0000 == 0 ==> Join(b as bv32, v) & 0xFF00_0000 == 0
    ensures v & 0xFFFF_FF00 == 0 ==> Join(b as bv32, v) & 0xFFFF_0000 == 0
  {
    hide Join;
    JoinLow(b, v);
    JoinHigh(b, v);
    if v & 0xFFFF_0000 == 0 {
      JoinShort(b, v);
    }
    if v & 0xFFFF_FF00 == 0 {
      JoinShorter(b, v);
    }
  }

  /** Four message bytes, that is four table steps, are 32 steps of register xor word. */
  lemma RegisterOfFourBytes(c: bv32, b0: Byte, b1: Byte, b2: Byte, b3: Byte)
    ensures Register(c, Bits([b0, b1, b2, b3])) == BitSteps(Xor(c, Word(b0, b1, b2, b3)), 32)
  {
    hide BitsOf, Register, BitSteps, Xor, LowByteOf, Bits, Join;
    var w3 := b3 as bv32;
    assert w3 & 0xFFFF_FF00 == 0 && w3 & 0xFFFF_0000 == 0 && w3 & 0xFF00_0000 == 0;
    var w2 := Join(b2 as bv32, w3);
    JoinParts(b2, w3);
    var w1 := Join(b1 as bv32, w2);
    JoinParts(b1, w2);
    JoinParts(b0, w1);
    LastByte(b3);
    FourBytesConsume(c, b0, b1, b2, b3, Join(b0 as bv32, w1), w1, w2, w3);
  }

  lemma LastByte(b: Byte)
    ensures LowByteOf(b, b as bv32, 0)
  {}

  lemma FourBytesConsume(c: bv32, b0: Byte, b1: Byte, b2: Byte, b3: Byte, w0: bv32, w1: bv32, w2: bv32, w3: bv32)
    requires LowByteOf(b0, w0, w1) && LowByteOf(b1, w1, w2) && LowByteOf(b2, w2, w3) && LowByteOf(b3, w3, 0)
    ensures Register(c, Bits([b0, b1, b2, b3])) == BitSteps(Xor(c, w0), 32)
  {
    hide BitsOf, LowByteOf, Xor, BitSteps, Register;
    var c1 := Register(c, BitsOf(b0));
    var c2 := Register(c1, BitsOf(b1));
    var c3 := Register(c2, BitsOf(b2));
    ConsumeByte(c, b0, w0, w1);
    ConsumeByte(c1, b1, w1, w2);
    ConsumeByte(c2, b2, w2, w3);
    ConsumeByte(c3, b3, w3, 0);
    XorZero(Register(c3, BitsOf(b3)));
    BitStepsCompose(Xor(c, w0), 8, 24);
    BitStepsCompose(Xor(c1, w1), 8, 16);
    BitStepsCompose(Xor(c2, w2), 8, 8);
    RegisterOfBytes(c, b0, [b1, b2, b3]);
    RegisterOfBytes(c1, b1, [b2, b3]);
    RegisterOfBytes(c2, b2, [b3]);
    RegisterOfBytes(c3, b3, []);
    RegisterOfNothing(Register(c3, BitsOf(b3)));
  }

  lemma RegisterOfNothing(c: bv32)
    ensures Register(c, Bits([])) == c
  {}

  lemma RegisterOfBytes(c: bv32, b: Byte, rest: seq<Byte>)
    ensures Register(c, Bits([b] + rest)) == Register(Register(c, BitsOf(b)), Bits(rest))
  {
    hide BitsOf, Register;
    assert ([b] + rest)[1..] == rest;
    RegisterAppend(c, BitsOf(b), Bits(rest));
  }

  // ----- what the register detects -----

  /** Bitwise difference of two equally long bit strings. */
  function Differences(a: seq<bool>, b: seq<bool>): (r: seq<bool>)
    requires |a| == |b|
    ensures |r| == |a|
  {
    if a == [] then [] else [a[0] != b[0]] + Differences(a[1..], b[1..])
  }

  lemma {:induction false} DifferencesAt(a: seq<bool>, b: seq<bool>, i: nat)
    requires |a| == |b| && i < |a|
    ensures Differences(a, b)[i] == (a[i] != b[i])
  {
    if i > 0 {
      DifferencesAt(a[1..], b[1..], i - 1);
    }
  }

  lemma XorComm(a: bv32, b: bv32)
    ensures Xor(a, b) == Xor(b, a)
  {}

  lemma XorFour(a: bv32, b: bv32, c: bv32, d: bv32)
    ensures Xor(Xor(a, b), Xor(c, d)) == Xor(Xor(a, c), Xor(b, d))
  {
    hide Xor;
    XorAssoc(Xor(a, b), c, d);
    XorAssoc(a, b, c);
    XorComm(b, c);
    XorAssoc(a, c, b);
    XorAssoc(Xor(a, c), b, d);
  }

  lemma BitValueXor(x: bool, y: bool)
    ensures Xor(BitValue(x), BitValue(y)) == BitValue(x != y)
  {}

  /** The difference of two registers depends only on the difference of what was fed. */
  lemma {:induction false} RegisterLinear(c: bv32, d: bv32, a: seq<bool>, b: seq<bool>)
    requires |a| == |b|
    ensures Xor(Register(c, a), Register(d, b)) == Register(Xor(c, d), Differences(a, b))
    decreases |a|
  {
    hide BitStep, Xor, BitValue;
    if a != [] {
      var x, y := BitValue(a[0]), BitValue(b[0]);
      BitValueXor(a[0], b[0]);
      XorFour(c, x, d, y);
      BitStepLinear(Xor(c, x), Xor(d, y));
      RegisterLinear(BitStep(Xor(c, x)), BitStep(Xor(d, y)), a[1..], b[1..]);
      assert Differences(a, b)[1..] == Differences(a[1..], b[1..]);
    }
  }

  predicate AllFalse(bits: seq<bool>) {
    forall i :: 0 <= i < |bits| ==> !bits[i]
  }

  lemma BitStepZero(c: bv32)
    ensures BitStep(Xor(c, BitValue(false))) == 0 <==> c == 0
  {}

  /** Zero bits neither clear a register nor set one. */
  lemma {:induction false} ZerosKeep(c: bv32, bits: seq<bool>)
    requires AllFalse(bits)
    ensures Register(c, bits) == 0 <==> c == 0
    decreases |bits|
  {
    hide BitStep, Xor, BitValue;
    if bits != [] {
      BitStepZero(c);
      ZerosKeep(BitStep(Xor(c, BitValue(bits[0]))), bits[1..]);
    }
  }

  lemma {:induction false} ShiftDownZero(n: nat)
    ensures ShiftDown(0, n) == 0
  {
    if n > 0 {
      assert (0 as bv32) >> 1 == 0;
      ShiftDownZero(n - 1);
    }
  }

  lemma {:induction false} ShiftDownFurther(w: bv32, k: nat, n: nat)
    requires ShiftDown(w, k) == 0 && k <= n
    ensures ShiftDown(w, n) == 0
    decreases k
  {
    if k == 0 {
      ShiftDownZero(n);
    } else {
      ShiftDownFurther(w >> 1, k - 1, n - 1);
    }
  }

  /** The word whose only bit is at position k. */
  function BitAt(k: nat): (r: bv32) {
    if k == 0 then 1 else BitAt(k - 1) << 1
  }

  lemma BitFalls(c: bv32, b: bv32)
    ensures c & (b << 1) != 0 ==> (c >> 1) & b != 0
  {}

  lemma {:induction false} BitShiftsDown(c: bv32, k: nat)
    requires c & BitAt(k) != 0
    ensures ShiftDown(c, k) != 0
    decreases k
  {
    if k > 0 {
      BitFalls(c, BitAt(k - 1));
      BitShiftsDown(c >> 1, k - 1);
    }
  }

  lemma TopBit()
    ensures BitAt(31) == 0x8000_0000
  {
    assert BitAt(4) == 0x10;
    assert BitAt(8) == 0x100;
    assert BitAt(12) == 0x1000;
    assert BitAt(16) == 0x1_0000;
    assert BitAt(20) == 0x10_0000;
    assert BitAt(24) == 0x100_0000;
    assert BitAt(28) == 0x1000_0000;
  }

  /** A register with no bit at position k or above, k <= 31, has its top bit clear. */
  lemma SmallTopClear(c: bv32, k: nat)
    requires k <= 31
    requires ShiftDown(c, k) == 0
    ensures c & 0x8000_0000 == 0
  {
    hide ShiftDown, BitAt;
    ShiftDownFurther(c, k, 31);
    TopBit();
    if c & BitAt(31) != 0 {
      BitShiftsDown(c, 31);
    }
  }

  lemma NoFeedback(x: bv32)
    requires BitStep(x) & 0x8000_0000 == 0
    ensures BitStep(x) == x >> 1
  {}

  lemma LowBitGone(c: bv32, bit: bool)
    ensures Xor(c, BitValue(bit)) >> 1 == c >> 1
  {}

  /** If k <= 31 more bits bring the register to zero, it has no bit at position k or above. */
  lemma {:induction false} ZeroNeedsSmall(c: bv32, bits: seq<bool>)
    requires |bits| <= 31
    requires Register(c, bits) == 0
    ensures ShiftDown(c, |bits|) == 0
    decreases |bits|
  {
    hide BitStep, Xor, BitValue;
    if bits != [] {
      var x := Xor(c, BitValue(bits[0]));
      ZeroNeedsSmall(BitStep(x), bits[1..]);
      SmallTopClear(BitStep(x), |bits| - 1);
      NoFeedback(x);
      LowBitGone(c, bits[0]);
    }
  }

  /** A difference that starts with a set bit and is at most 32 bits long never cancels. */
  lemma BurstNeverCancels(bits: seq<bool>)
    requires 1 <= |bits| <= 32
    requires bits[0]
    ensures Register(0, bits) != 0
  {
    hide Register, ShiftDown;
    var c := BitStep(Xor(0, BitValue(bits[0])));
    assert c == 0xEDB8_8320;
    RegisterFirst(0, bits);
    if Register(c, bits[1..]) == 0 {
      ZeroNeedsSmall(c, bits[1..]);
      SmallTopClear(c, |bits| - 1);
    }
  }

  lemma RegisterFirst(c: bv32, bits: seq<bool>)
    requires bits != []
    ensures Register(c, bits) == Register(BitStep(Xor(c, BitValue(bits[0]))), bits[1..])
  {}

  /** a and b agree outside the n bits that start at p. */
  predicate AgreeOutside(a: seq<bool>, b: seq<bool>, p: nat, n: nat) {
    && |a| == |b|
    && forall i :: 0 <= i < |a| && !(p <= i < p + n) ==> a[i] == b[i]
  }

  lemma XorSelf(a: bv32)
    ensures Xor(a, a) == 0
  {}

  /** Two different bit strings that agree outside 32 consecutive bits leave different registers. */
  lemma BurstDetected(c: bv32, a: seq<bool>, b: seq<bool>, p: nat)
    requires AgreeOutside(a, b, p, 32)
    requires a != b
    ensures Register(c, a) != Register(c, b)
  {
    hide Register, Xor, Differences;
    var d := Differences(a, b);
    forall i | 0 <= i < |a|
      ensures d[i] == (a[i] != b[i])
    {
      DifferencesAt(a, b, i);
    }
    var first := FirstDifference(d, a, b);
    RegisterLinear(c, c, a, b);
    XorSelf(c);
    var end := if p + 32 <= |d| then p + 32 else |d|;
    var head, burst, rest := d[..first], d[first..end], d[end..];
    assert d == head + (burst + rest);
    RegisterAppend(0, head, burst + rest);
    ZerosKeep(0, head);
    RegisterAppend(0, burst, rest);
    BurstNeverCancels(burst);
    ZerosKeep(Register(0, burst), rest);
    XorSelf(Register(c, a));
  }

  /** The index of the first difference. */
  lemma FirstDifference(d: seq<bool>, a: seq<bool>, b: seq<bool>) returns (first: nat)
    requires |d| == |a| == |b| && a != b
    requires forall i :: 0 <= i < |a| ==> d[i] == (a[i] != b[i])
    ensures first < |d| && d[first]
    ensures AllFalse(d[..first])
  {
    first := 0;
    while first < |d| && !d[first]
      invariant first <= |d|
      invariant forall i :: 0 <= i < first ==> !d[i]
    {
      first := first + 1;
    }
    assert first == |d| ==> a == b;
  }

  lemma {:induction false} BitsAt(data: seq<Byte>, i: nat)
    requires i < |data|
    ensures Bits(data)[8 * i..8 * i + 8] == BitsOf(data[i])
  {
    hide BitsOf;
    if i == 0 {
      assert Bits(data)[..8] == BitsOf(data[0]);
    } else {
      BitsAt(data[1..], i - 1);
      var t := Bits(data[1..]);
      assert Bits(data) == BitsOf(data[0]) + t;
      assert Bits(data)[8 * i..8 * i + 8] == t[8 * (i - 1)..8 * (i - 1) + 8];
    }
  }

  lemma BitsOfInjective(a: Byte, b: Byte)
    requires BitsOf(a) == BitsOf(b)
    ensures a == b
  {
    hide BitsOf, BitSteps, Register;
    RegisterOfByte(0, a);
    RegisterOfByte(0, b);
    BitStepsInjective(Xor(0, a as bv32), Xor(0, b as bv32), 8);
  }

  /** Different messages have different bit strings. */
  lemma BitsInjective(a: seq<Byte>, b: seq<Byte>)
    requires |a| == |b|
    requires Bits(a) == Bits(b)
    ensures a == b
  {
    hide BitsOf, Bits;
    forall i | 0 <= i < |a|
      ensures a[i] == b[i]
    {
      BitsAt(a, i);
      BitsAt(b, i);
      BitsOfInjective(a[i], b[i]);
    }
  }

  /** Two equally long byte strings that differ only inside four consecutive
      bytes have different check values. */
  lemma ByteBurstDetected(a: seq<Byte>, b: seq<Byte>, p: nat, seed: bv32)
    requires |a| == |b| && a != b
    requires forall i :: 0 <= i < |a| && !(p <= i < p + 4) ==> a[i] == b[i]
    ensures Crc(a, seed) != Crc(b, seed)
  {
    hide Bits, BitsOf, Register, Xor;
    BytesAgreeOutside(a, b, p);
    if Bits(a) == Bits(b) {
      BitsInjective(a, b);
    }
    BurstDetected(seed, Bits(a), Bits(b), 8 * p);
    if Crc(a, seed) == Crc(b, seed) {
      ComplementInjective(Register(seed, Bits(a)), Register(seed, Bits(b)));
    }
  }

  lemma ComplementInjective(x: bv32, y: bv32)
    requires Xor(x, 0xFFFF_FFFF) == Xor(y, 0xFFFF_FFFF)
    ensures x == y
  {}

  lemma XorIs(a: bv32, b: bv32)
    ensures Xor(a, b) == a ^ b
  {}

  /** x differs from w exactly by m when x differs from m exactly by w. */
  lemma XorSwap(x: bv32, m: bv32, w: bv32)
    ensures x ^ m == w <==> x ^ w == m
  {}

  lemma BytesAgreeOutside(a: seq<Byte>, b: seq<Byte>, p: nat)
    requires |a| == |b|
    requires forall i :: 0 <= i < |a| && !(p <= i < p + 4) ==> a[i] == b[i]
    ensures AgreeOutside(Bits(a), Bits(b), 8 * p, 32)
  {
    hide Bits, BitsOf;
    var x, y := Bits(a), Bits(b);
    forall i | 0 <= i < |x| && !(8 * p <= i < 8 * p + 32)
      ensures x[i] == y[i]
    {
      var k := i / 8;
      BitsAt(a, k);
      BitsAt(b, k);
      assert a[k] == b[k];
      assert x[i] == x[8 * k..8 * k + 8][i - 8 * k];
      assert y[i] == y[8 * k..8 * k + 8][i - 8 * k];
    }
  }

  // ----- the table the engine keeps -----

  /** The engine's global table of byte steps, filled on first use. */
  class CrcTable {
    var table: array<bv32>
    var ready: bool

    ghost predicate Valid()
      reads this, table
    {
      && table.Length == 256
      && (ready ==> forall i :: 0 <= i < 256 ==> table[i] == BitSteps(i as bv32, 8))
    }

    constructor ()
      ensures Valid() && !ready && fresh(table)
    {
      table := new bv32[256](_ => 0);
      ready := false;
    }

    method Init()
      requires Valid()
      modifies this`ready, table
      ensures Valid() && ready && table == old(table)
    {
      hide BitSteps;
      var i := 0;
      while i < 256
        invariant 0 <= i <= 256
        invariant forall j :: 0 <= j < i ==> table[j] == BitSteps(j as bv32, 8)
      {
        var c := i as bv32;
        var k := 0;
        while k < 8
          invariant 0 <= k <= 8
          invariant forall j :: 0 <= j < i ==> table[j] == BitSteps(j as bv32, 8)
          invariant BitSteps(c, 8 - k) == BitSteps(i as bv32, 8)
        {
          PeelStep(c, 8 - k);
          c := if c & 1 == 1 then 0xEDB8_8320 ^ (c >> 1) else c >> 1;
          k := k + 1;
        }
        NoSteps(c);
        assert c == BitSteps(i as bv32, 8);
        table[i] := c;
        i := i + 1;
      }
      ready := true;
    }

    /** The table-driven check value is the bit-serial one, for every byte string and seed. */
    method Compute(data: seq<Byte>, seed: bv32) returns (r: bv32)
      requires Valid()
      modifies this`ready, table
      ensures Valid() && ready && table == old(table)
      ensures r == Crc(data, seed)
    {
      hide BitSteps, Register, Bits, BitsOf, TableIndex, Fold, Xor;
      if !ready {
        Init();
      }
      var c := seed;
      var i := 0;
      NothingFed(seed, data);
      while i < |data|
        invariant 0 <= i <= |data|
        invariant Valid() && ready && table == old(table)
        invariant c == Register(seed, Bits(data[..i]))
      {
        ByteStep(c, data[i]);
        ExtendPrefix(seed, data, i);
        c := Fold(table[TableIndex(c, data[i])], c);
        i := i + 1;
      }
      assert data[..|data|] == data;
      r := Xor(c, 0xFFFF_FFFF);
    }
  }

  lemma PeelStep(c: bv32, n: nat)
    requires n > 0
    ensures BitSteps(c, n) == BitSteps(if c & 1 == 1 then 0xEDB8_8320 ^ (c >> 1) else c >> 1, n - 1)
  {}

  lemma NoSteps(c: bv32)
    ensures BitSteps(c, 0) == c
  {}

  lemma NothingFed(c: bv32, data: seq<Byte>)
    ensures Register(c, Bits(data[..0])) == c
  {}

  /** Which table entry the next byte selects. */
  function TableIndex(c: bv32, b: Byte): (r: nat) {
    (Xor(c, b as bv32) & 0xFF) as int
  }

  /** The selected entry combined with the rest of the register. */
  function Fold(entry: bv32, c: bv32): (r: bv32) {
    entry ^ (c >> 8)
  }

  /** One table step feeds one byte. */
  lemma ByteStep(c: bv32, b: Byte)
    ensures TableIndex(c, b) < 256
    ensures Fold(BitSteps(TableIndex(c, b) as bv32, 8), c) == Register(c, BitsOf(b))
  {
    hide BitSteps, Register, BitsOf, Xor, TableIndex, Fold;
    var x := Xor(c, b as bv32);
    RegisterOfByte(c, b);
    ByteAboveNothing(c, b);
    IndexInTable(c, b);
    TableStep(x);
    FoldIs(BitSteps(x & 0xFF, 8), c);
  }

  lemma FoldIs(entry: bv32, c: bv32)
    ensures Fold(entry, c) == Xor(entry, c >> 8)
  {}

  lemma IndexInTable(c: bv32, b: Byte)
    ensures TableIndex(c, b) < 256
    ensures TableIndex(c, b) as bv32 == Xor(c, b as bv32) & 0xFF
  {
    hide Xor;
    IndexWord(Xor(c, b as bv32) & 0xFF);
  }

  lemma IndexWord(x: bv32)
    ensures (x as int) as bv32 == x
  {}

  lemma ByteAboveNothing(c: bv32, b: Byte)
    ensures Xor(c, b as bv32) >> 8 == c >> 8
  {}

  lemma ExtendPrefix(c: bv32, data: seq<Byte>, i: nat)
    requires i < |data|
    ensures Register(c, Bits(data[..i + 1])) == Register(Register(c, Bits(data[..i])), BitsOf(data[i]))
  {
    hide Register, BitsOf;
    assert data[..i + 1] == data[..i] + [data[i]];
    BitsAppend(data[..i], [data[i]]);
    assert Bits([data[i]]) == BitsOf(data[i]);
    RegisterAppend(c, Bits(data[..i]), BitsOf(data[i]));
  }
}

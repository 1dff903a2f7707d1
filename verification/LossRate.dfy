/** How much a loss percentage really loses: what the hash of a sequence number decides, and how many
    of all 2^32 numbers each percentage drops. */
module LossRate {
  import opened Basics
  import opened Bytes
  import opened Analyze
  import opened HopLoss

  /** The smallest percentage that drops a number. */
  function Threshold(s: U32): (p: int)
    ensures 1 <= p <= 100
  {
    Hash(s) / 0x100_0000 % 100 + 1
  }

  lemma DroppedFromThreshold(s: U32, pct: int)
    ensures ShouldDrop(s, pct) <==> pct >= Threshold(s)
  {}

  /** Some numbers and the percentages from which on they are dropped. */
  lemma KnownThresholds()
    ensures Threshold(0) == 1 && Threshold(1) == 59 && Threshold(2) == 61 && Threshold(3) == 19
    ensures Threshold(100) == 6 && Threshold(0xFFFF_FFFF) == 98
  {
    hide Threshold;
    ThresholdIs(0, 0, 0, 0);
    ThresholdIs(1, 158, 3635633, 0);
    ThresholdIs(2, 60, 7271266, 1);
    ThresholdIs(3, 218, 10906899, 1);
    ThresholdIs(100, 205, 11241764, 61);
    ThresholdIs(0xFFFF_FFFF, 97, 13141583, 2654435760);
  }

  /** t is the top byte of the number's hash, rest the three below it. */
  lemma ThresholdIs(s: U32, t: nat, rest: nat, q: nat)
    requires t < 256 && rest < 0x100_0000 && s * 2_654_435_761 == q * 0x1_0000_0000 + t * 0x100_0000 + rest
    ensures Threshold(s) == t % 100 + 1
  {
    WrapsTo(s * HASH_FACTOR, t * 0x100_0000 + rest, q);
    assert Hash(s) / 0x100_0000 == t;
  }

  // ----- the hash hits every word once -----

  const INVERSE := 244_002_641

  function Unhash(h: U32): (s: U32) {
    (h * INVERSE) % TWO_TO_THE_32
  }

  /** Multiplying by the factor and by its inverse gives a number back, modulo 2^32. */
  lemma Inverse(s: nat, a: nat, b: nat)
    requires s < 0x1_0000_0000 && a * b == 1 + 150_801_925 * 0x1_0000_0000
    ensures (s * a) % 0x1_0000_0000 * b % 0x1_0000_0000 == s
  {
    var q, h := s * a / 0x1_0000_0000, s * a % 0x1_0000_0000;
    assert s * a == q * 0x1_0000_0000 + h;
    Distributes(s, a, b, q, h);
    WrapsTo(h * b, s, 150_801_925 * s - q * b);
  }

  lemma Distributes(s: nat, a: nat, b: nat, q: nat, h: nat)
    requires s * a == q * 0x1_0000_0000 + h && a * b == 1 + 150_801_925 * 0x1_0000_0000
    ensures h * b == s + (150_801_925 * s - q * b) * 0x1_0000_0000
  {
    assert h * b == s * a * b - q * 0x1_0000_0000 * b;
    assert s * a * b == s * (a * b);
  }

  lemma WrapsTo(x: int, s: nat, k: int)
    requires s < 0x1_0000_0000 && x == s + k * 0x1_0000_0000
    ensures x % 0x1_0000_0000 == s
  {}

  lemma HashIsBijection(s: U32)
    ensures Unhash(Hash(s)) == s && Hash(Unhash(s)) == s
  {
    Inverse(s, 2_654_435_761, 244_002_641);
    Inverse(s, 244_002_641, 2_654_435_761);
  }

  // ----- counting -----

  predicate Word(x: int) {
    0 <= x < 0x1_0000_0000
  }

  function Dropped(pct: int): (r: set<int>) {
    set s | 0 <= s < 0x1_0000_0000 && Word(s) && ShouldDrop(s, pct)
  }

  predicate Bad(h: int, pct: int) {
    h / 0x100_0000 % 100 < pct
  }

  /** Words below n * 2^24 whose top byte a percentage drops. */
  function BadBelow(n: nat, pct: int): (r: set<int>) {
    set h | 0 <= h < n * 0x100_0000 && Bad(h, pct)
  }

  lemma Some(a: set<int>) returns (x: int)
    requires |a| > 0
    ensures x in a
  {
    EmptyIfNone(a);
    x :| x in a;
  }

  lemma EmptyIfNone(a: set<int>)
    ensures (forall y: int :: y !in a) ==> |a| == 0
  {
    if forall y: int :: y !in a {
      assert a == {};
    }
  }

  /** A set and its image under the hash have the same size. */
  lemma {:induction false} SameSize(a: set<int>, b: set<int>)
    requires forall x :: x in a ==> Word(x) && Hash(x) in b
    requires forall y :: y in b ==> Word(y) && Unhash(y) in a
    ensures |a| == |b|
    decreases |a|
  {
    hide Hash, Unhash;
    if |b| > 0 {
      var y := Some(b);
      assert Unhash(y) in a;
    }
    if |a| > 0 {
      var x := Some(a);
      HashIsBijection(x);
      forall z | z in a - {x}
        ensures Hash(z) in b - {Hash(x)}
      {
        HashIsBijection(z);
      }
      forall y | y in b - {Hash(x)}
        ensures Unhash(y) in a - {x}
      {
        HashIsBijection(y);
      }
      SameSize(a - {x}, b - {Hash(x)});
    }
  }

  lemma DroppedSize(pct: int)
    requires 0 < pct < 100
    ensures |Dropped(pct)| == |BadBelow(256, pct)|
  {
    forall x | x in Dropped(pct)
      ensures Word(x) && Hash(x) in BadBelow(256, pct)
    {
      HashIsBad(x, pct);
    }
    forall y | y in BadBelow(256, pct)
      ensures Word(y) && Unhash(y) in Dropped(pct)
    {
      HashIsBijection(y);
      HashIsBad(Unhash(y), pct);
    }
    SameSize(Dropped(pct), BadBelow(256, pct));
  }

  lemma HashIsBad(x: U32, pct: int)
    requires 0 < pct < 100
    ensures ShouldDrop(x, pct) <==> Bad(Hash(x), pct)
  {
    hide Hash;
  }

  /** Top bytes below n that a percentage drops. */
  function BadBytes(n: nat, pct: int): (k: nat) {
    if n == 0 then 0 else BadBytes(n - 1, pct) + (if (n - 1) % 100 < pct then 1 else 0)
  }

  lemma {:induction false} BadBelowSize(n: nat, pct: int)
    ensures |BadBelow(n, pct)| == 0x100_0000 * BadBytes(n, pct)
  {
    hide Bad;
    if n == 0 {
      assert BadBelow(0, pct) == {};
    } else {
      BadBelowSize(n - 1, pct);
      var a := (n - 1) * 0x100_0000;
      RangeSize(a - 1, a + 0x100_0000);
      var block := Range(a - 1, a + 0x100_0000);
      forall h
        ensures h in BadBelow(n, pct)
          <==> h in BadBelow(n - 1, pct) || (h in block && (n - 1) % 100 < pct)
      {
        if a <= h < a + 0x100_0000 {
          TopByte(n - 1, h, pct);
        }
      }
      if (n - 1) % 100 < pct {
        assert BadBelow(n, pct) == BadBelow(n - 1, pct) + block;
        assert BadBelow(n - 1, pct) !! block;
      } else {
        assert BadBelow(n, pct) == BadBelow(n - 1, pct);
      }
    }
  }

  lemma TopByte(t: nat, h: int, pct: int)
    requires t * 0x100_0000 <= h < t * 0x100_0000 + 0x100_0000
    ensures Bad(h, pct) <==> t % 100 < pct
  {
    assert h / 0x100_0000 == t;
  }

  lemma {:induction false} BadBytesAre(n: nat, pct: nat)
    requires n <= 256 && pct <= 100
    ensures BadBytes(n, pct) == if n <= 100 then Min(n, pct)
                                else if n <= 200 then pct + Min(n - 100, pct)
                                else 2 * pct + Min(n - 200, pct)
  {
    if n > 0 {
      BadBytesAre(n - 1, pct);
      Hundreds(n - 1);
    }
  }

  lemma Hundreds(t: nat)
    requires t < 256
    ensures t % 100 == if t < 100 then t else if t < 200 then t - 100 else t - 200
  {}

  /** How many of all sequence numbers a percentage drops: of every 256 three for each percent up to
      56, and two for each further one. */
  lemma DropRate(pct: int)
    ensures |Dropped(pct)| == 0x100_0000 * (if pct <= 0 then 0 else if pct <= 56 then 3 * pct
                                            else if pct < 100 then 2 * pct + 56 else 256)
  {
    if pct <= 0 {
      assert Dropped(pct) == {};
    } else if pct >= 100 {
      RangeSize(-1, 0x1_0000_0000);
      assert Dropped(pct) == Range(-1, 0x1_0000_0000);
    } else {
      DroppedSize(pct);
      BadBelowSize(256, pct);
      BadBytesAre(256, pct);
    }
  }

  /** So a percentage drops its own share of the numbers only at its two ends. */
  lemma DropRateIsPercent(pct: nat)
    requires pct <= 100
    ensures 100 * |Dropped(pct)| == pct * 0x1_0000_0000 <==> pct == 0 || pct == 100
  {
    hide Dropped;
    DropRate(pct);
  }
}

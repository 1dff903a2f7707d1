/** The ring when offer and poll run as whole calls: the masked index, the constructor's test
    and the drop-oldest queue. */
module FrameRing {
  import opened Basics
  import opened Bytes
  import opened RingSteps

  // ----- the mask -----

  /** Bitwise and of two numbers. */
  function BitAnd(a: nat, b: nat): (r: nat) {
    if a == 0 || b == 0 then 0 else (if a % 2 == 1 && b % 2 == 1 then 1 else 0) + 2 * BitAnd(a / 2, b / 2)
  }

  lemma {:induction false} AndItself(a: nat)
    ensures BitAnd(a, a) == a
  {
    if a > 0 {
      AndItself(a / 2);
    }
  }

  /** Masking with a power of two less one is the remainder. */
  lemma {:induction false} MaskIsRemainder(h: nat, k: nat)
    ensures BitAnd(h, Pow2(k) - 1) == h % Pow2(k)
    decreases k
  {
    hide BitAnd;
    if k == 0 {
      AndZero(h);
    } else {
      var m := Pow2(k - 1);
      MaskIsRemainder(h / 2, k - 1);
      AndStep(h, m);
      HalveRemainder(h, m);
    }
  }

  lemma AndZero(h: nat)
    ensures BitAnd(h, 0) == 0 == h % 1
  {}

  lemma AndStep(h: nat, m: nat)
    requires m > 0
    ensures BitAnd(h, 2 * m - 1) == h % 2 + 2 * BitAnd(h / 2, m - 1)
  {
    var b := 2 * m - 1;
    assert b / 2 == m - 1 && b % 2 == 1;
  }

  lemma HalveRemainder(h: nat, m: nat)
    requires m > 0
    ensures h % (2 * m) == h % 2 + 2 * (h / 2 % m)
  {
    var q := h / 2 / m;
    Quotient(h / 2, m);
    var rest := h % 2 + 2 * (h / 2 % m);
    assert h == 2 * (h / 2) + h % 2;
    assert h == 2 * (m * q) + rest;
    RemainderIs(h, 2 * m, q, rest);
  }

  /** The constructor's test accepts exactly the powers of two from two on. */
  predicate CapacityOk(n: int) {
    n >= 2 && BitAnd(n, n - 1) == 0
  }

  lemma {:induction false} CapacityOkIsPowerOfTwo(n: nat)
    requires n >= 1 && BitAnd(n, n - 1) == 0
    ensures exists k: nat :: n == Pow2(k)
  {
    if n == 1 {
      assert n == Pow2(0);
    } else if n % 2 == 0 {
      assert (n - 1) / 2 == n / 2 - 1 && (n - 1) % 2 == 1;
      CapacityOkIsPowerOfTwo(n / 2);
      var k: nat :| n / 2 == Pow2(k);
      assert n == Pow2(k + 1);
    } else {
      OddAnd(n);
    }
  }

  lemma OddAnd(n: nat)
    requires n % 2 == 1
    ensures BitAnd(n, n - 1) == n - 1
  {
    AndItself(n / 2);
    assert (n - 1) / 2 == n / 2;
  }

  lemma {:induction false} PowerOfTwoIsOk(k: nat)
    ensures BitAnd(Pow2(k), Pow2(k) - 1) == 0
  {
    if k > 0 {
      var m := Pow2(k - 1);
      PowerOfTwoIsOk(k - 1);
      assert (2 * m - 1) / 2 == m - 1;
    }
  }

  lemma CapacityTest(n: nat)
    ensures CapacityOk(n) <==> exists k: nat :: k >= 1 && n == Pow2(k)
  {
    hide BitAnd;
    if CapacityOk(n) {
      CapacityOkIsPowerOfTwo(n);
      var k: nat :| n == Pow2(k);
      assert k >= 1;
    }
    if k: nat :| k >= 1 && n == Pow2(k) {
      PowerOfTwoIsOk(k);
      assert Pow2(k) == 2 * Pow2(k - 1);
    }
  }

  // ----- offer and poll as whole calls -----

  class FrameRing<T> {
    const slots: array<Option<T>>
    const mask: nat
    var head: nat
    var tail: nat
    var drops: nat
    ghost var polled: nat

    /** Every frame offered was polled, dropped or is still in the ring. */
    ghost predicate Valid()
      reads this, slots
    {
      && CapacityOk(slots.Length) && mask == slots.Length - 1
      && tail <= head <= tail + slots.Length
      && head == polled + drops + (head - tail)
      && Occupied(tail, head)
    }

    ghost predicate Occupied(lo: nat, hi: nat)
      requires slots.Length > 0
      reads slots
    {
      forall i: nat :: lo <= i < hi ==> slots[i % slots.Length].Some?
    }

    /** The frames in the ring, oldest first. */
    ghost function Contents(): (s: seq<T>)
      requires Valid()
      reads this, slots
      ensures |s| == head - tail
      ensures forall k :: 0 <= k < |s| ==> slots[(tail + k) % slots.Length] == Some(s[k])
    {
      Stretch(tail, head)
    }

    ghost function Stretch(lo: nat, hi: nat): (s: seq<T>)
      requires slots.Length > 0 && lo <= hi && Occupied(lo, hi)
      reads slots
      ensures |s| == hi - lo
      ensures forall k :: 0 <= k < |s| ==> slots[(lo + k) % slots.Length] == Some(s[k])
      decreases hi - lo
    {
      if lo == hi then [] else [slots[lo % slots.Length].value] + Stretch(lo + 1, hi)
    }

    constructor (capacity: nat)
      requires CapacityOk(capacity)
      ensures Valid() && Contents() == [] && slots.Length == capacity && fresh(slots)
    {
      slots := new Option<T>[capacity](_ => None);
      mask := capacity - 1;
      head, tail, drops, polled := 0, 0, 0, 0;
    }

    /** What `new FrameRing(capacity)` amounts to; null stands for the exception. */
    static method Create(capacity: int) returns (ring: FrameRing?<T>)
      ensures ring == null <==> !CapacityOk(capacity)
      ensures ring != null ==> fresh(ring) && ring.Valid() && ring.Contents() == [] && ring.slots.Length == capacity
    {
      if capacity < 2 || BitAnd(capacity, capacity - 1) != 0 {
        return null;
      }
      ring := new FrameRing(capacity);
    }

    lemma IndexIs(i: nat)
      requires Valid()
      ensures BitAnd(i, mask) == i % slots.Length
    {
      CapacityOkIsPowerOfTwo(slots.Length);
      var k: nat :| slots.Length == Pow2(k);
      MaskIsRemainder(i, k);
    }

    /** Appends; a full ring gives up its oldest frame first. */
    method Offer(frame: T) returns (stored: bool)
      requires Valid()
      modifies this, slots
      ensures Valid() && stored && polled == old(polled)
      ensures Contents()
           == (if |old(Contents())| == slots.Length then old(Contents())[1..] else old(Contents())) + [frame]
      ensures drops == old(drops) + (if |old(Contents())| == slots.Length then 1 else 0)
    {
      hide BitAnd;
      var h, t := head, tail;
      if h - t >= slots.Length {
        GiveUpOldest(t);
      }
      Put(h, frame);
      return true;
    }

    /** The overwrite: tail moves past the oldest frame. */
    method GiveUpOldest(t: nat)
      requires Valid() && t == tail < head
      modifies this`tail, this`drops
      ensures Valid() && Contents() == old(Contents())[1..] && drops == old(drops) + 1
    {
      hide BitAnd;
      tail := t + 1;
      drops := drops + 1;
    }

    method Put(h: nat, frame: T)
      requires Valid() && h == head < tail + slots.Length
      modifies this`head, slots
      ensures Valid() && Contents() == old(Contents()) + [frame]
    {
      hide BitAnd;
      IndexIs(h);
      forall i: nat | tail <= i < h
        ensures i % slots.Length != h % slots.Length
      {
        SlotsApart(i, h, slots.Length);
      }
      slots[BitAnd(h, mask)] := Some(frame);
      head := h + 1;
    }

    /** Hands out the oldest frame and clears its slot. */
    method Poll() returns (frame: Option<T>)
      requires Valid()
      modifies this, slots
      ensures Valid() && drops == old(drops)
      ensures if old(Contents()) == [] then frame == None && Contents() == [] && polled == old(polled)
              else frame == Some(old(Contents())[0]) && Contents() == old(Contents())[1..] && polled == old(polled) + 1
    {
      hide BitAnd;
      var t, h := tail, head;
      if t >= h {
        return None;
      }
      IndexIs(t);
      forall i: nat | t < i < h
        ensures i % slots.Length != t % slots.Length
      {
        SlotsApart(t, i, slots.Length);
      }
      var index := BitAnd(t, mask);
      frame := slots[index];
      slots[index] := None;
      tail := t + 1;
      polled := polled + 1;
    }
  }
}

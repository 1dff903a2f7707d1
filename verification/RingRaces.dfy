/** Overwrites that race a poll: exactly which stores spoil the order, and concrete runs of a ring
    of two that do and do not. */
module RingRaces {
  import opened RingSteps
  import opened RingOrder

  // ----- polls by an undisturbed consumer -----

  lemma {:induction false} BurstsJoin(r: Ring, a: Actor, j: nat, k: nat)
    requires r.Size() > 0
    ensures Burst(Burst(r, a, j), a, k) == Burst(r, a, j + k)
    decreases k
  {
    hide Step;
    if k > 0 {
      BurstsJoin(r, a, j, k - 1);
    }
  }

  /** Five steps from rest return the cell that tail names and clear it. */
  ghost predicate Polled(r: Ring, t: nat, k: Ring)
    requires r.Size() > 0
  {
    && k.c.Ready? && k.p == r.p && k.head == r.head && k.tail == t + 1 && k.Size() == r.Size()
    && k.results == r.results + [r.slots[t % r.Size()]]
    && k.slots == r.slots[t % r.Size() := Null]
  }

  lemma PollFromTaking(r: Ring)
    requires r.Size() > 0 && r.c.Taking?
    ensures Polled(r, r.c.t, Burst(r, Polling, 3))
  {
    hide Casualty;
    var k1 := ConsumerStep(r);
    var k2 := ConsumerStep(k1);
    assert Burst(r, Polling, 1) == k1;
    assert Burst(r, Polling, 2) == k2;
    assert Burst(r, Polling, 3) == ConsumerStep(k2);
  }

  lemma PollFromTail(r: Ring)
    requires r.Size() > 0 && r.c.HasTail? && r.c.t < r.head
    ensures Polled(r, r.c.t, Burst(r, Polling, 4))
  {
    hide Casualty;
    var k := ConsumerStep(r);
    assert Burst(r, Polling, 1) == k;
    PollFromTaking(k);
    BurstsJoin(r, Polling, 1, 3);
  }

  lemma PollFromRest(r: Ring)
    requires r.Size() > 0 && r.c.Ready? && r.tail < r.head
    ensures Polled(r, r.tail, Burst(r, Polling, 5))
  {
    hide Casualty;
    var k := ConsumerStep(r);
    assert Burst(r, Polling, 1) == k;
    PollFromTail(k);
    BurstsJoin(r, Polling, 1, 4);
  }

  /** m polls move tail by m and leave cleared slots clear. */
  lemma {:induction false} PollsFromRest(r: Ring, m: nat)
    requires r.Size() > 0 && r.c.Ready? && r.tail + m <= r.head
    ensures var k := Burst(r, Polling, 5 * m);
      && k.c.Ready? && k.head == r.head && k.tail == r.tail + m
      && forall j :: 0 <= j < r.Size() && r.slots[j].Null? ==> k.slots[j].Null?
    decreases m
  {
    hide Burst, Step;
    if m == 0 {
      NoBurst(r);
    } else {
      PollFromRest(r);
      var k := Burst(r, Polling, 5);
      PollsFromRest(k, m - 1);
      BurstsJoin(r, Polling, 5, 5 * (m - 1));
    }
  }

  lemma NoBurst(r: Ring)
    requires r.Size() > 0
    ensures Burst(r, Polling, 0) == r
  {}

  // ----- what an early store does -----

  /** The store and its publication. */
  function Published(r: Ring): (k: Ring)
    requires r.Size() > 0 && r.p.Storing?
  {
    ProducerStep(ProducerStep(r))
  }

  /** The consumer has not taken the old frame: it returns the new one first, then an older. */
  lemma NewBeforeOld(q: Ring, t: nat, k: Ring, h: nat)
    requires q.Size() >= 2 && Polled(q, t, k)
    requires h == t + q.Size() && q.head == h + 1
    requires q.slots[t % q.Size()] == Holds(h) && q.slots[(t + 1) % q.Size()] == Holds(t + 1)
    ensures !InOrder(Burst(k, Polling, 5).results)
  {
    hide Burst;
    SlotsApart(t, t + 1, q.Size());
    PollFromRest(k);
    var end := Burst(k, Polling, 5);
    assert end.results == q.results + [Holds(h)] + [Holds(t + 1)];
    var n := |q.results|;
    assert end.results[n] == Holds(h) && end.results[n + 1] == Holds(t + 1);
  }

  /** What the slots hold after an early store is published. */
  lemma EarlySlots(r: Ring)
    requires r.Size() >= 2 && TailLaw(r) && Orderly(r) && Early(r)
    ensures r.head == r.Front() + r.Size()
    ensures var q, t := Published(r), r.Front();
      && q.Size() == r.Size() && q.c == r.c && q.tail == r.tail && q.results == r.results && q.p.Idle?
      && q.head == r.head + 1
      && q.slots[t % q.Size()] == Holds(r.head)
      && q.slots[(t + 1) % q.Size()] == Holds(t + 1)
  {
    var t := r.Front();
    SlotsMeet(t, r.Size());
    SlotsApart(t + 1, r.head, r.Size());
    assert InSlot(r, t + 1);
  }

  /** The consumer has read the old frame but not cleared its slot: it wipes out the new one, and
      comes to null when its turn comes. */
  lemma NewWipedOut(q: Ring)
    requires q.Size() >= 2 && q.c.Clearing? && q.head == q.c.t + q.Size() + 1
    ensures !InOrder(Burst(q, Polling, 2 + 5 * q.Size()).results)
  {
    hide Burst, Casualty;
    var n, t := q.Size(), q.c.t;
    TwoSteps(q);
    var k1 := Burst(q, Polling, 2);
    PollsFromRest(k1, n - 1);
    var k2 := Burst(k1, Polling, 5 * (n - 1));
    SlotsMeet(t, n);
    PollFromRest(k2);
    var k3 := Burst(k2, Polling, 5);
    BurstsJoin(q, Polling, 2, 5 * (n - 1));
    BurstsJoin(q, Polling, 2 + 5 * (n - 1), 5);
    assert k3.results == k2.results + [Null];
    assert k3.results[|k2.results|] == Null;
  }

  lemma TwoSteps(q: Ring)
    requires q.Size() > 0 && q.c.Clearing?
    ensures var k := Burst(q, Polling, 2);
      && k.c.Ready? && k.tail == q.c.t + 1 && k.head == q.head && k.Size() == q.Size()
      && k.slots[q.c.t % q.Size()] == Null
  {
    hide Casualty;
    var k := ConsumerStep(q);
    assert Burst(q, Polling, 1) == k;
    assert Burst(q, Polling, 2) == ConsumerStep(k);
  }

  lemma EarlyStoreSpoils(r: Ring) returns (k: nat)
    requires r.Size() >= 2 && TailLaw(r) && Orderly(r) && Early(r)
    ensures !InOrder(Burst(Published(r), Polling, k).results)
  {
    hide Burst, Published, InOrder, Filled, Ascending;
    EarlySlots(r);
    var q, t := Published(r), r.Front();
    match r.c
    case Ready =>
      PollFromRest(q);
      NewBeforeOld(q, t, Burst(q, Polling, 5), r.head);
      BurstsJoin(q, Polling, 5, 5);
      k := 10;
    case HasTail(_) =>
      PollFromTail(q);
      NewBeforeOld(q, t, Burst(q, Polling, 4), r.head);
      BurstsJoin(q, Polling, 4, 5);
      k := 9;
    case Taking(_) =>
      PollFromTaking(q);
      NewBeforeOld(q, t, Burst(q, Polling, 3), r.head);
      BurstsJoin(q, Polling, 3, 5);
      k := 8;
    case Clearing(_, _) =>
      NewWipedOut(q);
      k := 2 + 5 * q.Size();
    case Leaving(_, _) =>
      LastStep(q);
      var q1 := Burst(q, Polling, 1);
      PollFromRest(q1);
      NewBeforeOld(q1, t, Burst(q1, Polling, 5), r.head);
      BurstsJoin(q, Polling, 1, 5);
      BurstsJoin(q, Polling, 6, 5);
      k := 11;
  }

  lemma LastStep(q: Ring)
    requires q.Size() > 0 && q.c.Leaving?
    ensures var k := Burst(q, Polling, 1);
      k.c.Ready? && k.tail == q.c.t + 1 && k.head == q.head && k.slots == q.slots
  {
    hide Casualty;
    assert Burst(q, Polling, 0) == q;
  }

  // ----- the exact condition -----

  lemma {:induction false} PollsKeepOrder(r: Ring, k: nat)
    requires r.Size() > 0 && TailLaw(r) && Orderly(r)
    ensures TailLaw(Burst(r, Polling, k)) && Orderly(Burst(r, Polling, k))
    decreases k
  {
    hide ConsumerStep, ProducerStep, TailLaw, Orderly;
    if k > 0 {
      PollsKeepOrder(r, k - 1);
      var b := Burst(r, Polling, k - 1);
      ConsumerKeepsTailLaw(b);
      PollsStoreNothing(b);
      StepKeepsOrder(b, Polling);
    }
  }

  lemma PollsStoreNothing(r: Ring)
    requires r.Size() > 0
    ensures ConsumerStep(r).early == r.early
  {}

  lemma LateStoreKeepsOrder(r: Ring)
    requires r.Size() > 0 && TailLaw(r) && Orderly(r) && r.p.Storing? && !Early(r)
    ensures TailLaw(Published(r)) && Orderly(Published(r))
  {
    hide Orderly, TailLaw, Lies;
    var k := ProducerStep(r);
    ProducerKeepsTailLaw(r);
    ProducerKeepsTailLaw(k);
    StepKeepsOrder(r, Offering);
    StepKeepsOrder(k, Offering);
  }

  lemma OrderlyInOrder(r: Ring)
    requires r.Size() > 0 && Orderly(r)
    ensures InOrder(r.results)
  {}

  /** After any run so far without an early store, with the producer about to store a frame: let it
      store and publish and let the consumer poll on. All results are frames in offer order if and
      only if the frame that lay in the slot before has been taken out of it or dropped. */
  lemma StoreHarmlessExactly(n: nat, schedule: seq<Actor>)
    requires n >= 2 && Execute(n, schedule).early == 0 && Execute(n, schedule).p.Storing?
    ensures (forall k: nat :: InOrder(Execute(n, schedule + Times(Offering, 2) + Times(Polling, k)).results))
      <==> Execute(n, schedule).head < Execute(n, schedule).Front() + n
  {
    hide Execute, Burst, Orderly, InOrder, TailLaw, Published;
    var r := Execute(n, schedule);
    TimelyRunOrderly(n, schedule);
    TailLawHolds(n, schedule);
    HeadStores(r);
    var stored := schedule + Times(Offering, 2);
    BurstExecutes(n, schedule, Offering, 2);
    TwoOffers(r);
    forall k: nat
      ensures Execute(n, stored + Times(Polling, k)) == Burst(Published(r), Polling, k)
    {
      BurstExecutes(n, stored, Polling, k);
    }
    if Early(r) {
      var k := EarlyStoreSpoils(r);
      assert !InOrder(Execute(n, stored + Times(Polling, k)).results);
    } else {
      LateStoreKeepsOrder(r);
      forall k: nat
        ensures InOrder(Execute(n, stored + Times(Polling, k)).results)
      {
        PollsKeepOrder(Published(r), k);
        OrderlyInOrder(Burst(Published(r), Polling, k));
      }
    }
  }

  lemma HeadStores(r: Ring)
    requires r.Size() > 0 && TailLaw(r) && r.p.Storing?
    ensures Early(r) <==> r.head >= r.Front() + r.Size()
  {}

  lemma TwoOffers(r: Ring)
    requires r.Size() > 0 && r.p.Storing?
    ensures Burst(r, Offering, 2) == Published(r)
  {
    assert Burst(r, Offering, 1) == ProducerStep(r);
  }

  // ----- concrete runs -----

  /** Two offers fill a ring of two; a poll finds it non-empty; a third offer overwrites. */
  function RacedBegin(): (s: seq<Actor>) {
    Times(Offering, 5) + Times(Offering, 5) + Times(Polling, 2) + Times(Offering, 7)
  }

  lemma RacedBeginRuns()
    ensures Execute(2, RacedBegin())
         == Ring([Holds(2), Holds(1)], 3, 1, 1, Idle, Taking(0), [], {0}, 1, 1, 1)
  {
    hide Execute;
    var s1 := Times(Offering, 5);
    var s2 := s1 + Times(Offering, 5);
    var s3 := s2 + Times(Polling, 2);
    assert [] + s1 == s1;
    BurstExecutes(2, [], Offering, 5);
    BurstExecutes(2, s1, Offering, 5);
    BurstExecutes(2, s2, Polling, 2);
    BurstExecutes(2, s3, Offering, 7);
    StartOfTwo();
    FirstOffer();
    SecondOffer();
    PollBegins();
    OverwriteMidPoll();
  }

  lemma StartOfTwo()
    ensures Execute(2, []) == Ring([Null, Null], 0, 0, 0, Idle, Ready, [], {}, 0, 0, 0)
  {}

  lemma FirstOffer()
    ensures Burst(Ring([Null, Null], 0, 0, 0, Idle, Ready, [], {}, 0, 0, 0), Offering, 5)
         == Ring([Holds(0), Null], 1, 0, 0, Idle, Ready, [], {}, 0, 0, 0)
  {}

  lemma SecondOffer()
    ensures Burst(Ring([Holds(0), Null], 1, 0, 0, Idle, Ready, [], {}, 0, 0, 0), Offering, 5)
         == Ring([Holds(0), Holds(1)], 2, 0, 0, Idle, Ready, [], {}, 0, 0, 0)
  {}

  lemma PollBegins()
    ensures Burst(Ring([Holds(0), Holds(1)], 2, 0, 0, Idle, Ready, [], {}, 0, 0, 0), Polling, 2)
         == Ring([Holds(0), Holds(1)], 2, 0, 0, Idle, Taking(0), [], {}, 0, 0, 0)
  {}

  lemma OverwriteMidPoll()
    ensures Burst(Ring([Holds(0), Holds(1)], 2, 0, 0, Idle, Taking(0), [], {}, 0, 0, 0), Offering, 7)
         == Ring([Holds(2), Holds(1)], 3, 1, 1, Idle, Taking(0), [], {0}, 1, 1, 1)
  {
    var r := Ring([Holds(0), Holds(1)], 2, 0, 0, Idle, Taking(0), [], {}, 0, 0, 0);
    assert Burst(r, Offering, 3) == r.(tail := 1, p := Won(2), wins := 1, racing := 1);
    assert Burst(r, Offering, 5) == r.(tail := 1, p := Storing(2), drops := 1, wins := 1, racing := 1);
    assert {} + {0} == {0};
  }

  /** Frame 2 comes out before frame 1, and the next poll returns null from a ring of one. */
  lemma RaceBreaksFifo()
    ensures Execute(2, RacedBegin() + Times(Polling, 3) + Times(Polling, 5)).results == [Holds(2), Holds(1)]
    ensures var r := Execute(2, RacedBegin() + Times(Polling, 3) + Times(Polling, 5)); r.head - r.tail == 1
    ensures Execute(2, RacedBegin() + Times(Polling, 3) + Times(Polling, 5) + Times(Polling, 5)).results
         == [Holds(2), Holds(1), Null]
  {
    hide Execute;
    RacedBeginRuns();
    var s1 := RacedBegin() + Times(Polling, 3);
    var s2 := s1 + Times(Polling, 5);
    BurstExecutes(2, RacedBegin(), Polling, 3);
    BurstExecutes(2, s1, Polling, 5);
    BurstExecutes(2, s2, Polling, 5);
    PollTakesNewest();
    PollTakesOlder();
    PollFindsNull();
  }

  lemma PollTakesNewest()
    ensures Burst(Ring([Holds(2), Holds(1)], 3, 1, 1, Idle, Taking(0), [], {0}, 1, 1, 1), Polling, 3)
         == Ring([Null, Holds(1)], 3, 1, 1, Idle, Ready, [Holds(2)], {0}, 1, 1, 1)
  {
    assert {0} + {} == {0};
  }

  lemma PollTakesOlder()
    ensures Burst(Ring([Null, Holds(1)], 3, 1, 1, Idle, Ready, [Holds(2)], {0}, 1, 1, 1), Polling, 5)
         == Ring([Null, Null], 3, 2, 1, Idle, Ready, [Holds(2), Holds(1)], {0}, 1, 1, 1)
  {
    assert {0} + {} == {0};
  }

  lemma PollFindsNull()
    ensures Burst(Ring([Null, Null], 3, 2, 1, Idle, Ready, [Holds(2), Holds(1)], {0}, 1, 1, 1), Polling, 5)
         == Ring([Null, Null], 3, 3, 1, Idle, Ready, [Holds(2), Holds(1), Null], {0}, 1, 1, 1)
  {
    assert {0} + {} == {0};
  }

  /** With two overwrites inside one poll the ring of two reports three frames, and the next
      offer's overwrite begins from there. */
  lemma RaceOverfills()
    ensures var r := Execute(2, RacedBegin() + Times(Offering, 7) + Times(Polling, 3)); r.head - r.tail == 3
    ensures var r := Execute(2, RacedBegin() + Times(Offering, 7) + Times(Polling, 3) + Times(Offering, 2));
      Step(r, Offering).wins == r.wins + 1 && r.head == r.tail + 3
  {
    hide Execute;
    RacedBeginRuns();
    BurstExecutes(2, RacedBegin(), Offering, 7);
    BurstExecutes(2, RacedBegin() + Times(Offering, 7), Polling, 3);
    SecondOverwrite();
    PollMovesTailBack();
    BurstExecutes(2, RacedBegin() + Times(Offering, 7) + Times(Polling, 3), Offering, 2);
    var r := Ring([Null, Holds(3)], 4, 1, 2, Idle, Ready, [Holds(2)], {0, 1}, 2, 2, 2);
    assert Burst(r, Offering, 1) == r.(p := HasHead(4));
    assert Burst(r, Offering, 2) == r.(p := HasBoth(4, 1));
  }

  lemma SecondOverwrite()
    ensures Burst(Ring([Holds(2), Holds(1)], 3, 1, 1, Idle, Taking(0), [], {0}, 1, 1, 1), Offering, 7)
         == Ring([Holds(2), Holds(3)], 4, 2, 2, Idle, Taking(0), [], {0, 1}, 2, 2, 2)
  {
    assert {0} + {1} == {0, 1};
  }

  lemma PollMovesTailBack()
    ensures Burst(Ring([Holds(2), Holds(3)], 4, 2, 2, Idle, Taking(0), [], {0, 1}, 2, 2, 2), Polling, 3)
         == Ring([Null, Holds(3)], 4, 1, 2, Idle, Ready, [Holds(2)], {0, 1}, 2, 2, 2)
  {
    assert {0, 1} + {} == {0, 1};
  }

  // ----- a race that does no harm -----

  /** The third offer overwrites after the poll has cleared its slot; three polls finish. */
  function Harmless(): (s: seq<Actor>) {
    Times(Offering, 5) + Times(Offering, 5) + Times(Polling, 4) + Times(Offering, 7) + Times(Polling, 1)
    + Times(Polling, 5) + Times(Polling, 5)
  }

  /** An overwrite in the middle of a poll need not spoil anything: the frame counted as dropped is
      delivered, and all come out in order. Only the books are off. */
  lemma RaceWithoutHarm()
    ensures var r := Execute(2, Harmless());
      && r.racing == 1 && r.early == 0 && r.drops == 1
      && r.results == [Holds(0), Holds(1), Holds(2)] && r.lost == {} && r.head == r.tail == 3
  {
    hide Execute;
    var s1 := Times(Offering, 5);
    var s2 := s1 + Times(Offering, 5);
    var s3 := s2 + Times(Polling, 4);
    var s4 := s3 + Times(Offering, 7);
    var s5 := s4 + Times(Polling, 1);
    var s6 := s5 + Times(Polling, 5);
    assert [] + s1 == s1;
    BurstExecutes(2, [], Offering, 5);
    BurstExecutes(2, s1, Offering, 5);
    BurstExecutes(2, s2, Polling, 4);
    BurstExecutes(2, s3, Offering, 7);
    BurstExecutes(2, s4, Polling, 1);
    BurstExecutes(2, s5, Polling, 5);
    BurstExecutes(2, s6, Polling, 5);
    StartOfTwo();
    FirstOffer();
    SecondOffer();
    PollClears();
    OverwriteAfterClear();
    PollLeaves();
    PollOne();
    PollTwo();
  }

  lemma PollClears()
    ensures Burst(Ring([Holds(0), Holds(1)], 2, 0, 0, Idle, Ready, [], {}, 0, 0, 0), Polling, 4)
         == Ring([Null, Holds(1)], 2, 0, 0, Idle, Leaving(0, Holds(0)), [], {}, 0, 0, 0)
  {}

  lemma OverwriteAfterClear()
    ensures Burst(Ring([Null, Holds(1)], 2, 0, 0, Idle, Leaving(0, Holds(0)), [], {}, 0, 0, 0), Offering, 7)
         == Ring([Holds(2), Holds(1)], 3, 1, 1, Idle, Leaving(0, Holds(0)), [], {}, 1, 1, 0)
  {
    var r := Ring([Null, Holds(1)], 2, 0, 0, Idle, Leaving(0, Holds(0)), [], {}, 0, 0, 0);
    assert Burst(r, Offering, 3) == r.(tail := 1, p := Won(2), wins := 1, racing := 1);
    assert Burst(r, Offering, 5) == r.(tail := 1, p := Storing(2), drops := 1, wins := 1, racing := 1);
  }

  lemma PollLeaves()
    ensures Burst(Ring([Holds(2), Holds(1)], 3, 1, 1, Idle, Leaving(0, Holds(0)), [], {}, 1, 1, 0), Polling, 1)
         == Ring([Holds(2), Holds(1)], 3, 1, 1, Idle, Ready, [Holds(0)], {}, 1, 1, 0)
  {}

  lemma PollOne()
    ensures Burst(Ring([Holds(2), Holds(1)], 3, 1, 1, Idle, Ready, [Holds(0)], {}, 1, 1, 0), Polling, 5)
         == Ring([Holds(2), Null], 3, 2, 1, Idle, Ready, [Holds(0), Holds(1)], {}, 1, 1, 0)
  {}

  lemma PollTwo()
    ensures Burst(Ring([Holds(2), Null], 3, 2, 1, Idle, Ready, [Holds(0), Holds(1)], {}, 1, 1, 0), Polling, 5)
         == Ring([Null, Null], 3, 3, 1, Idle, Ready, [Holds(0), Holds(1), Holds(2)], {}, 1, 1, 0)
  {}
}

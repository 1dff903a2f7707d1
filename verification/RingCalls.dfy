/** When the ring overwrites, and that offers and polls run one at a time, step by step, are the
    calls of a bounded drop-oldest queue. */
module RingCalls {
  import opened RingSteps
  import opened RingOrder
  import opened RingRaces

  // ----- when a frame is given up -----

  /** In every interleaving, races included: a step gives up the oldest frame only if the ring holds
      at least its capacity just then, and an offer that sees it so and finds tail unmoved does. */
  lemma OverwritesOnlyWhenFull(n: nat, schedule: seq<Actor>, a: Actor)
    requires n > 0
    ensures var r, k := Execute(n, schedule), Step(Execute(n, schedule), a);
      && (k.wins > r.wins ==> a.Offering? && r.head >= r.tail + n && k.tail == r.tail + 1)
      && (a.Offering? && r.p.HasBoth? && r.p.t == r.tail && r.head >= r.tail + n ==> k.wins == r.wins + 1)
      && (k.drops > r.drops ==> r.wins == r.drops + 1)
  {
    hide Execute;
    TailLawHolds(n, schedule);
  }

  /** Without a race it holds exactly its capacity then. */
  lemma QuietOverwritesExactlyFull(n: nat, schedule: seq<Actor>, a: Actor)
    requires n > 0 && Execute(n, schedule).racing == 0
    ensures var r, k := Execute(n, schedule), Step(Execute(n, schedule), a);
      k.wins > r.wins ==> r.head == r.tail + n
  {
    hide Execute;
    OverwritesOnlyWhenFull(n, schedule, a);
    QuietRunIsBounded(n, schedule);
  }

  // ----- whole calls -----

  /** Between calls, after a run without a race. */
  ghost predicate AtRest(r: Ring)
    requires r.Size() > 0
  {
    r.p.Idle? && r.c.Ready? && r.racing == 0 && TailLaw(r) && Room(r) && Orderly(r)
  }

  lemma QuietRest(n: nat, schedule: seq<Actor>)
    requires n > 0 && Execute(n, schedule).racing == 0
    requires Execute(n, schedule).p.Idle? && Execute(n, schedule).c.Ready?
    ensures AtRest(Execute(n, schedule))
  {
    hide Execute, TailLaw, Orderly;
    TailLawHolds(n, schedule);
    QuietRunIsTimely(n, schedule);
    TimelyRunOrderly(n, schedule);
  }

  lemma RoomySteps(r: Ring)
    requires r.Size() > 0 && r.p.Idle? && r.head < r.tail + r.Size()
    ensures var k := Burst(r, Offering, 5);
      && k.p.Idle? && k.c == r.c && k.head == r.head + 1 && k.tail == r.tail && k.results == r.results
      && k.drops == r.drops && k.wins == r.wins && k.racing == r.racing
  {
    hide Casualty;
    var k1 := ProducerStep(r);
    var k2 := ProducerStep(k1);
    var k3 := ProducerStep(k2);
    var k4 := ProducerStep(k3);
    assert Burst(r, Offering, 1) == k1;
    assert Burst(r, Offering, 2) == k2;
    assert Burst(r, Offering, 3) == k3;
    assert Burst(r, Offering, 4) == k4;
    assert Burst(r, Offering, 5) == ProducerStep(k4);
  }

  lemma FullSteps(r: Ring)
    requires r.Size() > 0 && r.p.Idle? && r.c.Ready? && r.head >= r.tail + r.Size()
    ensures var k := Burst(r, Offering, 7);
      && k.p.Idle? && k.c == r.c && k.head == r.head + 1 && k.tail == r.tail + 1 && k.results == r.results
      && k.drops == r.drops + 1 && k.wins == r.wins + 1 && k.racing == r.racing
  {
    hide Casualty;
    var k1 := ProducerStep(r);
    var k2 := ProducerStep(k1);
    var k3 := ProducerStep(k2);
    var k4 := ProducerStep(k3);
    var k5 := ProducerStep(k4);
    var k6 := ProducerStep(k5);
    assert Burst(r, Offering, 1) == k1;
    assert Burst(r, Offering, 2) == k2;
    assert Burst(r, Offering, 3) == k3;
    assert Burst(r, Offering, 4) == k4;
    assert Burst(r, Offering, 5) == k5;
    assert Burst(r, Offering, 6) == k6;
    assert Burst(r, Offering, 7) == ProducerStep(k6);
  }

  lemma EmptySteps(r: Ring)
    requires r.Size() > 0 && r.c.Ready? && r.tail >= r.head
    ensures Burst(r, Polling, 2) == r
  {
    assert Burst(r, Polling, 1) == ConsumerStep(r);
  }

  lemma {:induction false} PollsKeepCounters(r: Ring, k: nat)
    requires r.Size() > 0
    ensures var q := Burst(r, Polling, k);
      q.racing == r.racing && q.drops == r.drops && q.wins == r.wins && q.early == r.early
  {
    if k > 0 {
      PollsKeepCounters(r, k - 1);
    }
  }

  // ----- every call is a call of the queue -----

  /** A frame offered, or a poll. */
  datatype Call = Offer | Poll

  /** A drop-oldest queue of n frames: what waits, how many were offered, what was handed out
      and how many were dropped. */
  datatype Fifo = Fifo(queue: seq<nat>, offered: nat, out: seq<nat>, drops: nat)

  function Called(n: nat, f: Fifo, call: Call): (g: Fifo) {
    match call
    case Offer =>
      var full := |f.queue| == n && f.queue != [];
      Fifo((if full then f.queue[1..] else f.queue) + [f.offered], f.offered + 1, f.out,
           f.drops + (if full then 1 else 0))
    case Poll =>
      if f.queue == [] then f else f.(queue := f.queue[1..], out := f.out + [f.queue[0]])
  }

  function CalledAll(n: nat, calls: seq<Call>): (f: Fifo)
    decreases |calls|
  {
    if calls == [] then Fifo([], 0, [], 0) else Called(n, CalledAll(n, calls[..|calls| - 1]), calls[|calls| - 1])
  }

  /** The steps of one call, given the queue it finds. */
  function StepsOf(n: nat, f: Fifo, call: Call): (s: seq<Actor>) {
    match call
    case Offer => Times(Offering, if |f.queue| == n then 7 else 5)
    case Poll => Times(Polling, if f.queue == [] then 2 else 5)
  }

  function StepsOfAll(n: nat, calls: seq<Call>): (s: seq<Actor>)
    decreases |calls|
  {
    if calls == [] then []
    else
      var before := calls[..|calls| - 1];
      StepsOfAll(n, before) + StepsOf(n, CalledAll(n, before), calls[|calls| - 1])
  }

  function Cells(ids: seq<nat>): (cells: seq<Cell>)
    ensures |cells| == |ids|
  {
    if ids == [] then [] else Cells(ids[..|ids| - 1]) + [Holds(ids[|ids| - 1])]
  }

  lemma CellsMore(ids: seq<nat>, id: nat)
    ensures Cells(ids + [id]) == Cells(ids) + [Holds(id)]
  {
    assert (ids + [id])[..|ids|] == ids;
  }

  /** The ring between calls is this queue. */
  ghost predicate Is(r: Ring, f: Fifo)
    requires r.Size() > 0
  {
    && AtRest(r)
    && Queue(r) == f.queue && r.head == f.offered && r.results == Cells(f.out) && r.drops == f.drops
  }

  /** What is left to say of a ring between calls when it is known how head and tail moved. */
  lemma MovedIs(n: nat, schedule: seq<Actor>, f: Fifo)
    requires n > 0
    requires var r := Execute(n, schedule);
      && r.p.Idle? && r.c.Ready? && r.racing == 0 && r.tail <= r.head
      && Numbers(r.tail, r.head) == f.queue && r.head == f.offered && r.results == Cells(f.out) && r.drops == f.drops
    ensures Is(Execute(n, schedule), f)
  {
    hide Execute, Orderly, TailLaw, Room, Numbers;
    QuietRest(n, schedule);
  }

  lemma IsAtRest(r: Ring, f: Fifo)
    requires r.Size() > 0 && Is(r, f)
    ensures r.p.Idle? && r.c.Ready? && r.racing == 0 && r.tail <= r.head <= r.tail + r.Size()
    ensures Numbers(r.tail, r.head) == f.queue && r.head == f.offered && r.results == Cells(f.out) && r.drops == f.drops
    ensures f.queue != [] ==> r.slots[r.tail % r.Size()] == Holds(f.queue[0])
  {
    hide Numbers;
    if r.tail < r.head {
      assert InSlot(r, r.tail);
    }
  }

  /** An offer run step by step while no poll is under way, whatever the run before as long as it had
      no race: it appends its frame, and gives up the oldest exactly when the ring is full. */
  lemma OfferIsAppend(n: nat, schedule: seq<Actor>, f: Fifo)
    requires n > 0 && Is(Execute(n, schedule), f)
    ensures Is(Execute(n, schedule + StepsOf(n, f, Offer)), Called(n, f, Offer))
  {
    hide Execute, Burst, Is, Numbers;
    var r := Execute(n, schedule);
    IsAtRest(r, f);
    if |f.queue| == n {
      BurstExecutes(n, schedule, Offering, 7);
      FullSteps(r);
      OldestGone(r.tail, r.head);
      NumbersMore(r.tail + 1, r.head);
    } else {
      BurstExecutes(n, schedule, Offering, 5);
      RoomySteps(r);
      NumbersMore(r.tail, r.head);
    }
    MovedIs(n, schedule + StepsOf(n, f, Offer), Called(n, f, Offer));
  }

  /** A poll run step by step while no offer is under way hands out the oldest frame, or
      turns away from an empty ring and leaves it as it was. */
  lemma PollIsTake(n: nat, schedule: seq<Actor>, f: Fifo)
    requires n > 0 && Is(Execute(n, schedule), f)
    ensures Is(Execute(n, schedule + StepsOf(n, f, Poll)), Called(n, f, Poll))
  {
    hide Execute, Burst, Is, Numbers, Cells;
    var r := Execute(n, schedule);
    IsAtRest(r, f);
    if f.queue == [] {
      BurstExecutes(n, schedule, Polling, 2);
      EmptySteps(r);
    } else {
      BurstExecutes(n, schedule, Polling, 5);
      PollFromRest(r);
      PollsKeepCounters(r, 5);
      OldestGone(r.tail, r.head);
      CellsMore(f.out, f.queue[0]);
      MovedIs(n, schedule + StepsOf(n, f, Poll), Called(n, f, Poll));
    }
  }

  /** Any sequence of offers and polls, each run to its end before the next begins, step by step
      over the shared words: the ring is the bounded drop-oldest queue. */
  lemma {:induction false} CallsAreQueue(n: nat, calls: seq<Call>)
    requires n > 0
    ensures Is(Execute(n, StepsOfAll(n, calls)), CalledAll(n, calls))
    decreases |calls|
  {
    hide Execute, Is, Called, StepsOf;
    if calls == [] {
      StartIs(n);
    } else {
      var before := calls[..|calls| - 1];
      CallsAreQueue(n, before);
      match calls[|calls| - 1]
      case Offer => OfferIsAppend(n, StepsOfAll(n, before), CalledAll(n, before));
      case Poll => PollIsTake(n, StepsOfAll(n, before), CalledAll(n, before));
    }
  }

  lemma StartIs(n: nat)
    requires n > 0
    ensures Is(Execute(n, []), Fifo([], 0, [], 0))
  {
    StartTailLaw(n);
    StartOrderly(n);
  }
}

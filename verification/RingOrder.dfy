/** In what order the ring hands out its frames: exactly which stores keep it a drop-oldest
    queue, and what the others do to it. */
module RingOrder {
  import opened RingSteps

  // ----- runs in which no frame is stored over one still to be taken out -----

  /** The numbers from a up to b. */
  function Numbers(a: nat, b: nat): (q: seq<nat>)
    requires a <= b
    ensures |q| == b - a
    ensures forall i :: 0 <= i < |q| ==> q[i] == a + i
    decreases b - a
  {
    if a == b then [] else [a] + Numbers(a + 1, b)
  }

  lemma NumbersMore(a: nat, b: nat)
    requires a <= b
    ensures Numbers(a, b + 1) == Numbers(a, b) + [b]
  {}

  /** The frames still to be taken out, oldest first. */
  function Queue(r: Ring): (q: seq<nat>)
    requires r.Front() <= r.head
  {
    Numbers(r.Front(), r.head)
  }

  /** Every frame to be taken out lies in its slot. */
  ghost predicate Filled(r: Ring)
    requires r.Size() > 0
  {
    forall i: nat :: r.Front() <= i < r.Stored() ==> InSlot(r, i)
  }

  /** The consumer has hold of the frame its tail named. */
  ghost predicate HandIsOwn(r: Ring) {
    r.c.Clearing? || r.c.Leaving? ==> r.c.f == Holds(r.c.t)
  }

  /** Results are frames, in offer order, all older than the bound. */
  predicate Ascending(cells: seq<Cell>, bound: nat) {
    && (forall a :: 0 <= a < |cells| ==> cells[a].Holds? && cells[a].id < bound)
    && InOrder(cells)
  }

  /** Frames in offer order and no null. */
  predicate InOrder(cells: seq<Cell>) {
    && (forall a :: 0 <= a < |cells| ==> cells[a].Holds?)
    && (forall a, b :: 0 <= a < b < |cells| ==> cells[a].id < cells[b].id)
  }

  ghost predicate Orderly(r: Ring)
    requires r.Size() > 0
  {
    && Filled(r) && HandIsOwn(r) && Ascending(r.results, r.Base())
    && r.Stored() <= r.Front() + r.Size()
  }

  lemma StoreKeepsOrder(r: Ring)
    requires r.Size() > 0 && TailLaw(r) && Orderly(r) && r.p.Storing? && !Early(r)
    ensures Orderly(ProducerStep(r))
  {
    var k := ProducerStep(r);
    forall i: nat | k.Front() <= i < k.Stored()
      ensures InSlot(k, i)
    {
      if i < r.head {
        assert InSlot(r, i);
        SlotsApart(i, r.head, r.Size());
      }
    }
  }

  lemma ClearKeepsOrder(r: Ring)
    requires r.Size() > 0 && TailLaw(r) && Orderly(r) && r.c.Clearing?
    ensures Orderly(ConsumerStep(r))
  {
    var k := ConsumerStep(r);
    forall i: nat | k.Front() <= i < k.Stored()
      ensures InSlot(k, i)
    {
      assert InSlot(r, i);
      SlotsApart(r.c.t, i, r.Size());
    }
  }

  lemma TakeKeepsOrder(r: Ring)
    requires r.Size() > 0 && TailLaw(r) && Orderly(r) && r.c.Taking?
    ensures Orderly(ConsumerStep(r))
  {
    var k := ConsumerStep(r);
    assert InSlot(r, r.c.t);
    assert k.c == Clearing(r.c.t, Holds(r.c.t));
    forall i: nat | k.Front() <= i < k.Stored()
      ensures InSlot(k, i)
    {
      assert InSlot(r, i);
    }
  }

  /** Steps that neither read nor write a slot. */
  lemma OtherKeepsOrder(r: Ring, a: Actor)
    requires r.Size() > 0 && TailLaw(r) && Orderly(r)
    requires !(a.Offering? && r.p.Storing?) && !(a.Polling? && (r.c.Clearing? || r.c.Taking?))
    ensures Orderly(Step(r, a))
  {
    hide Lies;
    var k := Step(r, a);
    forall i: nat | k.Front() <= i < k.Stored()
      ensures InSlot(k, i)
    {
      assert InSlot(r, i);
    }
  }

  lemma StepKeepsOrder(r: Ring, a: Actor)
    requires r.Size() > 0 && TailLaw(r) && Orderly(r) && Step(r, a).early == r.early
    ensures Orderly(Step(r, a))
  {
    hide Lies, Orderly, TailLaw;
    if a.Offering? && r.p.Storing? {
      StoreKeepsOrder(r);
    } else if a.Polling? && r.c.Clearing? {
      ClearKeepsOrder(r);
    } else if a.Polling? && r.c.Taking? {
      TakeKeepsOrder(r);
    } else {
      OtherKeepsOrder(r, a);
    }
  }

  lemma EarlyGrows(r: Ring, a: Actor)
    requires r.Size() > 0
    ensures r.early <= Step(r, a).early
  {}

  lemma StartOrderly(n: nat)
    requires n > 0
    ensures Orderly(Start(n))
  {}

  lemma {:induction false} TimelyRunOrderly(n: nat, schedule: seq<Actor>)
    requires n > 0 && Execute(n, schedule).early == 0
    ensures Orderly(Execute(n, schedule))
    decreases |schedule|
  {
    hide Step, Orderly, TailLaw;
    if schedule == [] {
      StartOrderly(n);
    } else {
      var r := Execute(n, schedule[..|schedule| - 1]);
      EarlyGrows(r, schedule[|schedule| - 1]);
      TimelyRunOrderly(n, schedule[..|schedule| - 1]);
      TailLawHolds(n, schedule[..|schedule| - 1]);
      StepKeepsOrder(r, schedule[|schedule| - 1]);
    }
  }

  /** As long as no frame is stored over one still to be taken out, whatever else races: every
      poll that found the ring non-empty returned a frame, in offer order, and the frames to be
      taken out, at most the capacity, lie in their slots. */
  lemma TimelyRunIsFifo(n: nat, schedule: seq<Actor>)
    requires n > 0 && Execute(n, schedule).early == 0
    ensures var r := Execute(n, schedule);
      && InOrder(r.results)
      && r.Stored() <= r.Front() + n
      && (forall i: nat :: r.Front() <= i < r.Stored() ==> InSlot(r, i))
  {
    hide Execute;
    TimelyRunOrderly(n, schedule);
  }

  /** Each step of such a run is a step of the queue or leaves it alone: publishing appends, a CAS
      won between polls drops the oldest of a full ring, clearing a slot takes the oldest out, and what was taken
      out is what the poll then returns. */
  ghost predicate QueueStep(r: Ring, a: Actor, k: Ring) {
    && r.Front() <= r.head && k.Front() <= k.head
    && (if a.Offering? && r.p.Publishing? then Queue(k) == Queue(r) + [r.head]
        else if k.wins > r.wins && r.c.Ready? then Queue(r) != [] && Queue(k) == Queue(r)[1..]
        else if a.Polling? && r.c.Clearing?
        then Queue(r) != [] && Queue(k) == Queue(r)[1..] && k.Hand() == Holds(Queue(r)[0])
        else Queue(k) == Queue(r))
    && k.results == (if a.Polling? && r.c.Leaving? then r.results + [r.Hand()] else r.results)
    && (a.Polling? && r.c.HasTail? && k.c.Ready? ==> Queue(r) == [])
    && (k.wins > r.wins ==> r.head >= r.tail + r.Size())
  }

  lemma OrderlyOffer(r: Ring)
    requires r.Size() > 0 && TailLaw(r) && Orderly(r)
    ensures QueueStep(r, Offering, ProducerStep(r))
  {
    hide Filled, Early, Numbers, Ascending;
    var k := ProducerStep(r);
    if r.p.Publishing? {
      NumbersMore(r.Front(), r.head);
    } else if k.wins > r.wins && r.c.Ready? {
      OldestGone(r.Front(), r.head);
    }
  }

  lemma OldestGone(a: nat, b: nat)
    requires a < b
    ensures Numbers(a, b) != [] && Numbers(a, b)[0] == a && Numbers(a, b)[1..] == Numbers(a + 1, b)
  {}

  lemma EmptyNumbers(a: nat)
    ensures Numbers(a, a) == []
  {}

  lemma OrderlyPoll(r: Ring)
    requires r.Size() > 0 && TailLaw(r) && Orderly(r)
    ensures QueueStep(r, Polling, ConsumerStep(r))
  {
    hide Filled, Numbers, Ascending;
    if r.c.Clearing? {
      OldestGone(r.Front(), r.head);
    } else if r.c.HasTail? {
      EmptyNumbers(r.head);
    }
  }

  lemma TimelyStepIsQueueStep(n: nat, schedule: seq<Actor>, a: Actor)
    requires n > 0 && Execute(n, schedule).early == 0
    ensures QueueStep(Execute(n, schedule), a, Step(Execute(n, schedule), a))
  {
    hide Execute, QueueStep, Orderly, TailLaw, ProducerStep, ConsumerStep;
    TimelyRunOrderly(n, schedule);
    TailLawHolds(n, schedule);
    OrderlyOffer(Execute(n, schedule));
    OrderlyPoll(Execute(n, schedule));
  }

  // ----- runs in which no CAS is won in the middle of a poll -----

  /** Room for the frame the producer is about to store. */
  ghost predicate Room(r: Ring) {
    && r.Base() == r.tail
    && r.Stored() <= r.tail + r.Size()
    && (r.p.HasBoth? ==> r.p.t <= r.tail && r.p.h - r.p.t <= r.Size())
    && (r.p.Won? || r.p.Rereading? || r.p.Storing? ==> r.p.h < r.tail + r.Size())
  }

  lemma StepKeepsRoom(r: Ring, a: Actor)
    requires r.Size() > 0 && TailLaw(r) && Room(r) && Step(r, a).racing == r.racing
    ensures Room(Step(r, a)) && Step(r, a).early == r.early
  {}

  lemma RacingGrows(r: Ring, a: Actor)
    requires r.Size() > 0
    ensures r.racing <= Step(r, a).racing
  {}

  /** Such a run stores no frame over one still to be taken out. */
  lemma {:induction false} QuietRunIsTimely(n: nat, schedule: seq<Actor>)
    requires n > 0 && Execute(n, schedule).racing == 0
    ensures Room(Execute(n, schedule)) && Execute(n, schedule).early == 0
    decreases |schedule|
  {
    hide Step, TailLaw;
    if schedule != [] {
      var r := Execute(n, schedule[..|schedule| - 1]);
      RacingGrows(r, schedule[|schedule| - 1]);
      QuietRunIsTimely(n, schedule[..|schedule| - 1]);
      TailLawHolds(n, schedule[..|schedule| - 1]);
      StepKeepsRoom(r, schedule[|schedule| - 1]);
    }
  }

  /** Moreover head never leads tail by more than the capacity, and polls and overwrites account
      for all frames below tail. */
  lemma QuietRunIsBounded(n: nat, schedule: seq<Actor>)
    requires n > 0 && Execute(n, schedule).racing == 0
    ensures var r := Execute(n, schedule);
      && InOrder(r.results)
      && r.tail <= r.head <= r.tail + n
      && |r.results| + r.wins == r.tail
  {
    hide Execute;
    QuietRunIsTimely(n, schedule);
    TimelyRunIsFifo(n, schedule);
    TailLawHolds(n, schedule);
  }

  lemma AscendingIsPrefix(cells: seq<Cell>, k: nat)
    requires Ascending(cells, |cells|) && k < |cells|
    ensures cells[k] == Holds(k)
  {
    AtLeast(cells, k);
    AtMost(cells, k);
  }

  lemma {:induction false} AtLeast(cells: seq<Cell>, k: nat)
    requires Ascending(cells, |cells|) && k < |cells|
    ensures cells[k].id >= k
  {
    if k > 0 {
      AtLeast(cells, k - 1);
      assert cells[k - 1].id < cells[k].id;
    }
  }

  lemma {:induction false} AtMost(cells: seq<Cell>, k: nat)
    requires Ascending(cells, |cells|) && k < |cells|
    ensures cells[k].id <= k
    decreases |cells| - k
  {
    if k < |cells| - 1 {
      AtMost(cells, k + 1);
      assert cells[k].id < cells[k + 1].id;
    }
  }

  /** In every interleaving in which no overwrite succeeded, stale reads of tail and failed
      CASes included, the polled frames are a prefix of the offered frames. */
  lemma DropFreeIsPrefix(n: nat, schedule: seq<Actor>)
    requires n > 0 && Execute(n, schedule).wins == 0
    ensures var r := Execute(n, schedule);
      && |r.results| == r.tail <= r.head <= r.tail + n
      && (forall k :: 0 <= k < |r.results| ==> r.results[k] == Holds(k))
      && (r.c.Ready? ==> forall i: nat :: r.tail <= i < r.head ==> InSlot(r, i))
      && r.drops == 0
  {
    hide Execute, Lies;
    TailLawHolds(n, schedule);
    QuietRunIsTimely(n, schedule);
    TimelyRunOrderly(n, schedule);
    var r := Execute(n, schedule);
    forall k | 0 <= k < |r.results|
      ensures r.results[k] == Holds(k)
    {
      AscendingIsPrefix(r.results, k);
    }
  }
}

/** The overwrite-oldest ring between the receiving and the drawing thread: every atomic
    access is a step, and the two threads' steps interleave in any order. */
module RingSteps {
  /** A frame is named by the number of its offer, counting from zero. */
  datatype Cell = Null | Holds(id: nat)

  /** Where offer stands: nothing begun, head read, head and tail read, CAS won, about to
      read tail again, about to store the frame, about to publish the new head. */
  datatype Producer =
    | Idle
    | HasHead(h: nat)
    | HasBoth(h: nat, t: nat)
    | Won(h: nat)
    | Rereading(h: nat)
    | Storing(h: nat)
    | Publishing(h: nat)

  /** Where poll stands: nothing begun, tail read, found non-empty, frame read, slot cleared. */
  datatype Consumer =
    | Ready
    | HasTail(t: nat)
    | Taking(t: nat)
    | Clearing(t: nat, f: Cell)
    | Leaving(t: nat, f: Cell)

  /** The shared words, the two program positions, and what happened so far: results of polls
      that found the ring non-empty, frames lost, CASes won, how many of these the consumer was in
      the middle of a poll for, and how many frames were stored over one still to be taken out. */
  datatype Ring = Ring(
    slots: seq<Cell>, head: nat, tail: nat, drops: nat, p: Producer, c: Consumer,
    results: seq<Cell>, lost: set<nat>, wins: nat, racing: nat, early: nat) {

    function Size(): (n: nat) { |slots| }

    /** Frames stored, published or not. */
    function Stored(): (n: nat) { head + (if p.Publishing? then 1 else 0) }

    /** Where the consumer believes the oldest frame is. */
    function Base(): (t: nat) { if c.Ready? then tail else c.t }

    /** The oldest frame the consumer has yet to take out of its slot, or up to where it was dropped. */
    function Front(): (t: nat) { if c.Leaving? then c.t + 1 else Base() }

    /** The frame the consumer has read and not yet returned. */
    function Hand(): (f: Cell) { if c.Clearing? || c.Leaving? then c.f else Null }
  }

  function Start(n: nat): (r: Ring) {
    Ring(seq(n, _ => Null), 0, 0, 0, Idle, Ready, [], {}, 0, 0, 0)
  }

  /** Frames that vanish when a slot is written over, unless the consumer holds them. */
  function Casualty(r: Ring, cell: Cell): (s: set<nat>) {
    if cell.Null? || cell == r.Hand() then {} else {cell.id}
  }

  /** The frame about to be stored would lie over one the consumer has yet to take out. */
  predicate Early(r: Ring) {
    r.p.Storing? && r.p.h >= r.Front() + r.Size()
  }

  function ProducerStep(r: Ring): (k: Ring)
    requires r.Size() > 0
  {
    match r.p
    case Idle => r.(p := HasHead(r.head))
    case HasHead(h) => r.(p := HasBoth(h, r.tail))
    case HasBoth(h, t) =>
      if h - t < r.Size() then r.(p := Storing(h))
      else if r.tail == t
      then r.(tail := t + 1, p := Won(h), wins := r.wins + 1, racing := r.racing + (if r.c.Ready? then 0 else 1))
      else r.(p := Rereading(h))
    case Won(h) => r.(drops := r.drops + 1, p := Rereading(h))
    case Rereading(h) => r.(p := Storing(h))
    case Storing(h) =>
      var i := h % r.Size();
      r.(slots := r.slots[i := Holds(h)], lost := r.lost + Casualty(r, r.slots[i]), p := Publishing(h),
         early := r.early + (if Early(r) then 1 else 0))
    case Publishing(h) => r.(head := h + 1, p := Idle)
  }

  function ConsumerStep(r: Ring): (k: Ring)
    requires r.Size() > 0
  {
    match r.c
    case Ready => r.(c := HasTail(r.tail))
    case HasTail(t) => if t >= r.head then r.(c := Ready) else r.(c := Taking(t))
    case Taking(t) => r.(c := Clearing(t, r.slots[t % r.Size()]))
    case Clearing(t, f) =>
      var i := t % r.Size();
      r.(slots := r.slots[i := Null], lost := r.lost + Casualty(r, r.slots[i]), c := Leaving(t, f))
    case Leaving(t, f) => r.(tail := t + 1, results := r.results + [f], c := Ready)
  }

  datatype Actor = Offering | Polling

  function Step(r: Ring, a: Actor): (k: Ring)
    requires r.Size() > 0
    ensures k.Size() == r.Size()
  {
    if a.Offering? then ProducerStep(r) else ConsumerStep(r)
  }

  /** An interleaving: which thread moves next, any number of offers and polls long. */
  function Execute(n: nat, schedule: seq<Actor>): (r: Ring)
    requires n > 0
    ensures r.Size() == n
    decreases |schedule|
  {
    if schedule == [] then Start(n)
    else Step(Execute(n, schedule[..|schedule| - 1]), schedule[|schedule| - 1])
  }

  // ----- every run: nothing is delivered twice -----

  /** The producer works with the head it read. */
  ghost predicate HeadIsOwn(r: Ring) {
    !r.p.Idle? ==> r.p.h == r.head
  }

  /** A frame sits only in its own slot. */
  ghost predicate InPlace(r: Ring)
    requires r.Size() > 0
  {
    forall j :: 0 <= j < r.Size() && r.slots[j].Holds? ==> r.slots[j].id % r.Size() == j && r.slots[j].id < r.Stored()
  }

  predicate Lies(slots: seq<Cell>, i: nat)
    requires |slots| > 0
  {
    slots[i % |slots|] == Holds(i)
  }

  predicate InSlot(r: Ring, i: nat)
    requires r.Size() > 0
  {
    Lies(r.slots, i)
  }

  predicate Delivered(r: Ring, i: nat) {
    Holds(i) in r.results
  }

  ghost predicate HandFits(r: Ring)
    requires r.Size() > 0
  {
    && (r.c.Clearing? && r.c.f.Holds? ==> r.c.f.id % r.Size() == r.c.t % r.Size())
    && (r.c.Leaving? && r.c.f.Holds? ==> !InSlot(r, r.c.f.id))
  }

  /** How many of the places delivered, in the consumer's hand, lost, and lying in the ring
      (not counting a frame just read from it) hold frame i. */
  function Places(r: Ring, i: nat): (n: nat)
    requires r.Size() > 0
  {
    (if Delivered(r, i) then 1 else 0)
    + (if r.Hand() == Holds(i) then 1 else 0)
    + (if i in r.lost then 1 else 0)
    + (if InSlot(r, i) && r.Hand() != Holds(i) then 1 else 0)
  }

  ghost predicate OnePlaceEach(r: Ring)
    requires r.Size() > 0
  {
    forall i: nat :: Places(r, i) == if i < r.Stored() then 1 else 0
  }

  predicate NoRepeats(cells: seq<Cell>) {
    forall a, b :: 0 <= a < b < |cells| && cells[a].Holds? ==> cells[a] != cells[b]
  }

  ghost predicate Sound(r: Ring)
    requires r.Size() > 0
  {
    HeadIsOwn(r) && InPlace(r) && HandFits(r) && OnePlaceEach(r) && NoRepeats(r.results)
  }

  lemma StoreKeepsPlaces(r: Ring, i: nat)
    requires r.Size() > 0 && r.p.Storing?
    requires HeadIsOwn(r) && InPlace(r) && HandFits(r) && OnePlaceEach(r)
    ensures Places(ProducerStep(r), i) == if i < r.head + 1 then 1 else 0
  {
    var j := r.head % r.Size();
    assert Places(r, i) == if i < r.Stored() then 1 else 0;
    assert Places(r, r.head) == 0;
    if r.slots[j].Holds? {
      assert Places(r, r.slots[j].id) == 1;
    }
  }

  lemma ClearKeepsPlaces(r: Ring, i: nat)
    requires r.Size() > 0 && r.c.Clearing?
    requires InPlace(r) && HandFits(r) && OnePlaceEach(r)
    ensures Places(ConsumerStep(r), i) == if i < r.Stored() then 1 else 0
  {
    var j := r.c.t % r.Size();
    assert Places(r, i) == if i < r.Stored() then 1 else 0;
    if r.slots[j].Holds? {
      assert Places(r, r.slots[j].id) == 1;
    }
  }

  lemma TakeKeepsPlaces(r: Ring, i: nat)
    requires r.Size() > 0 && r.c.Taking?
    requires InPlace(r) && OnePlaceEach(r)
    ensures Places(ConsumerStep(r), i) == if i < r.Stored() then 1 else 0
  {
    assert Places(r, i) == if i < r.Stored() then 1 else 0;
  }

  lemma LeaveKeepsPlaces(r: Ring, i: nat)
    requires r.Size() > 0 && r.c.Leaving?
    requires HandFits(r) && OnePlaceEach(r)
    ensures Places(ConsumerStep(r), i) == if i < r.Stored() then 1 else 0
  {
    assert Places(r, i) == if i < r.Stored() then 1 else 0;
  }

  lemma NewFrameNowhere(r: Ring)
    requires r.Size() > 0 && OnePlaceEach(r)
    ensures r.Hand() != Holds(r.Stored())
  {
    assert Places(r, r.Stored()) == 0;
  }

  lemma ProducerStepSound(r: Ring)
    requires r.Size() > 0 && Sound(r)
    ensures Sound(ProducerStep(r))
  {
    hide Places;
    var k := ProducerStep(r);
    if r.p.Storing? {
      forall i: nat
        ensures Places(k, i) == if i < k.Stored() then 1 else 0
      {
        StoreKeepsPlaces(r, i);
      }
      NewFrameNowhere(r);
    } else {
      forall i: nat
        ensures Places(k, i) == Places(r, i)
      {
        SamePlaces(r, k, i);
      }
    }
  }

  lemma SamePlaces(r: Ring, k: Ring, i: nat)
    requires r.Size() > 0 && k.slots == r.slots && k.results == r.results && k.lost == r.lost && k.Hand() == r.Hand()
    ensures Places(k, i) == Places(r, i)
  {}

  lemma ConsumerStepSound(r: Ring)
    requires r.Size() > 0 && Sound(r)
    ensures Sound(ConsumerStep(r))
  {
    hide Places;
    var k := ConsumerStep(r);
    forall i: nat
      ensures Places(k, i) == if i < k.Stored() then 1 else 0
    {
      if r.c.Taking? {
        TakeKeepsPlaces(r, i);
      } else if r.c.Clearing? {
        ClearKeepsPlaces(r, i);
      } else if r.c.Leaving? {
        LeaveKeepsPlaces(r, i);
      } else {
        SamePlaces(r, k, i);
      }
    }
    if r.c.Leaving? && r.c.f.Holds? {
      HandNotDelivered(r, r.c.f.id);
    }
  }

  lemma HandNotDelivered(r: Ring, i: nat)
    requires r.Size() > 0 && OnePlaceEach(r) && r.Hand() == Holds(i)
    ensures !Delivered(r, i)
  {
    assert Places(r, i) <= 1;
  }

  /** In every interleaving, overwrites racing a poll included: each frame stored is delivered,
      in the consumer's hand, in its slot or lost, and in exactly one of these; no result
      occurs twice and only offered frames are delivered. */
  lemma {:induction false} DeliveredAtMostOnce(n: nat, schedule: seq<Actor>)
    requires n > 0
    ensures Sound(Execute(n, schedule))
    decreases |schedule|
  {
    hide ProducerStep, ConsumerStep, Sound;
    if schedule == [] {
      StartSound(n);
    } else {
      var before := schedule[..|schedule| - 1];
      DeliveredAtMostOnce(n, before);
      if schedule[|schedule| - 1].Offering? {
        ProducerStepSound(Execute(n, before));
      } else {
        ConsumerStepSound(Execute(n, before));
      }
    }
  }

  lemma StartSound(n: nat)
    requires n > 0
    ensures Sound(Start(n))
  {}

  // ----- every run: the exact law of tail -----

  ghost predicate TailLaw(r: Ring) {
    && r.Base() + r.racing == |r.results| + r.wins
    && r.Base() <= r.tail
    && r.racing <= r.wins
    && (r.Base() < r.tail ==> r.Base() < r.head)
    && r.tail <= r.head
    && (r.c.Taking? || r.c.Clearing? || r.c.Leaving? ==> r.c.t < r.head)
    && r.drops == r.wins - (if r.p.Won? then 1 else 0)
    && HeadIsOwn(r)
  }

  lemma ProducerKeepsTailLaw(r: Ring)
    requires r.Size() > 0 && TailLaw(r)
    ensures TailLaw(ProducerStep(r))
  {}

  lemma ConsumerKeepsTailLaw(r: Ring)
    requires r.Size() > 0 && TailLaw(r)
    ensures TailLaw(ConsumerStep(r))
  {}

  /** Whatever the interleaving, tail is the number of polls plus overwrites, less the
      overwrites that fell into the middle of a poll and were undone by its tail store. */
  lemma {:induction false} TailLawHolds(n: nat, schedule: seq<Actor>)
    requires n > 0
    ensures TailLaw(Execute(n, schedule))
    decreases |schedule|
  {
    hide ProducerStep, ConsumerStep, TailLaw;
    if schedule == [] {
      StartTailLaw(n);
    } else {
      var before := schedule[..|schedule| - 1];
      TailLawHolds(n, before);
      ProducerKeepsTailLaw(Execute(n, before));
      ConsumerKeepsTailLaw(Execute(n, before));
    }
  }

  lemma StartTailLaw(n: nat)
    requires n > 0
    ensures TailLaw(Start(n))
  {}

  /** Between operations, offered = polled + dropped + size holds exactly when no overwrite
      ever fell into the middle of a poll. */
  lemma AccountingExactlyWithoutRaces(n: nat, schedule: seq<Actor>)
    requires n > 0
    requires var r := Execute(n, schedule); r.p.Idle? && r.c.Ready?
    ensures var r := Execute(n, schedule);
      r.head == |r.results| + r.drops + (r.head - r.tail) <==> r.racing == 0
  {
    hide Execute;
    TailLawHolds(n, schedule);
  }

  /** In every interleaving a poll turns away empty-handed only when head equals tail. */
  lemma TurnsAwayOnlyWhenEmpty(n: nat, schedule: seq<Actor>)
    requires n > 0
    ensures var r := Execute(n, schedule);
      r.c.HasTail? && ConsumerStep(r).c.Ready? ==> r.head == r.tail
  {
    hide Execute;
    TailLawHolds(n, schedule);
  }

  // ----- arithmetic of the slots -----

  lemma NoMultipleBetween(n: nat, q: int)
    requires n > 0
    ensures !(0 < n * q < n)
  {}

  lemma SlotsApart(i: nat, j: nat, n: nat)
    requires n > 0 && i < j < i + n
    ensures i % n != j % n
  {
    var p, q := i / n, j / n;
    Quotient(i, n);
    Quotient(j, n);
    NoMultipleBetween(n, q - p);
    assert n * q - n * p == n * (q - p);
  }

  lemma Quotient(i: nat, n: nat)
    requires n > 0
    ensures i == n * (i / n) + i % n
  {}

  lemma RemainderIs(h: nat, n: nat, q: nat, rest: nat)
    requires rest < n && h == n * q + rest
    ensures h % n == rest
  {
    Quotient(h, n);
    var p := h / n;
    assert n * (p - q) == rest - h % n;
    NoMultipleBetween(n, p - q);
    NoMultipleBetween(n, q - p);
    assert n * (q - p) == -(n * (p - q));
  }

  lemma SlotsMeet(t: nat, n: nat)
    requires n > 0
    ensures (t + n) % n == t % n
  {
    Quotient(t, n);
    assert n * (t / n + 1) == n * (t / n) + n;
    RemainderIs(t + n, n, t / n + 1, t % n);
  }

  // ----- bursts -----

  function Times(a: Actor, k: nat): (s: seq<Actor>) {
    if k == 0 then [] else Times(a, k - 1) + [a]
  }

  function Burst(r: Ring, a: Actor, k: nat): (q: Ring)
    requires r.Size() > 0
    ensures q.Size() == r.Size()
  {
    if k == 0 then r else Step(Burst(r, a, k - 1), a)
  }

  lemma {:induction false} BurstExecutes(n: nat, before: seq<Actor>, a: Actor, k: nat)
    requires n > 0
    ensures Execute(n, before + Times(a, k)) == Burst(Execute(n, before), a, k)
  {
    hide Step;
    if k == 0 {
      assert before + Times(a, k) == before;
    } else {
      BurstExecutes(n, before, a, k - 1);
      var all := before + Times(a, k);
      assert all[..|all| - 1] == before + Times(a, k - 1) && all[|all| - 1] == a;
    }
  }
}

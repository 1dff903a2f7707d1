/** The edge's main loop and its books: every sequence number it used is sent, failed,
    dropped on purpose or still in the batch. */
module EdgeLoop {
  import opened Bytes
  import opened WireFrame
  import opened FrameBatch
  import opened Uplink
  import opened HopLoss

  datatype Config = Config(transport: Transport, dropPct: int, node: U16)

  datatype FlushInput = FlushInput(now: nat, accepted: bool, flushNs: nat)

  /** What the input gives: a value to send, or nothing more. */
  datatype Source = Value(raw: I32, sensor: U8) | Exhausted

  /** Everything one pass of the loop takes from outside. */
  datatype Input = Input(expired: bool, head: FlushInput, source: Source, stampNs: U64, tail: FlushInput)

  /** consumed: how many sequence numbers were used so far. */
  datatype Loop = Loop(edge: Edge, seqno: U32, sentOk: nat, sentFail: nat, dropped: nat, consumed: nat)

  datatype Pass = Pass(loop: Loop, running: bool)

  predicate Full(b: Batch) { |b.frames| >= b.capacity }

  predicate ShouldFlush(b: Batch) { |b.frames| >= b.flushAt }

  function Flushed(c: Config, s: Loop, a: Answers, i: FlushInput): (r: Outcome)
    requires s.edge.Valid()
    ensures r.edge.Valid()
  {
    FlushedBatch(c.transport, s.edge, a, i.now, i.accepted, i.flushNs)
  }

  /** The flush at the head of the loop; running says whether the pass goes on. */
  function HeadFlush(c: Config, s: Loop, a: Answers, i: FlushInput): (r: Pass)
    requires s.edge.Valid()
    ensures r.loop.edge.Valid()
  {
    var b := s.edge.batch;
    if !(ShouldFlush(b) || b.offset > 0 || Full(b)) then Pass(s, true)
    else
      var f := Flushed(c, s, a, i);
      if f.ok || f.edge.batch.frames == [] then Pass(s.(edge := f.edge, sentOk := s.sentOk + |b.frames|), true)
      else Pass(s.(edge := f.edge, sentFail := s.sentFail + 1), false)
  }

  /** The flush after a push. */
  function TailFlush(c: Config, s: Loop, a: Answers, i: FlushInput): (r: Loop)
    requires s.edge.Valid()
    ensures r.edge.Valid()
  {
    var b := s.edge.batch;
    if !(ShouldFlush(b) || Full(b)) then s
    else
      var f := Flushed(c, s, a, i);
      if f.ok then s.(edge := f.edge, sentOk := s.sentOk + |b.frames|)
      else if f.edge.batch.frames != [] then s.(edge := f.edge)
      else s.(edge := f.edge, sentFail := s.sentFail + |b.frames|)
  }

  function NextNumber(s: Loop): (r: Loop) {
    s.(seqno := (s.seqno + 1) % TWO_TO_THE_32, consumed := s.consumed + 1)
  }

  function Sample(c: Config, s: Loop, v: Source, stampNs: U64): (r: SensorSample)
    requires v.Value?
  {
    SensorSample(s.seqno, stampNs, c.node, v.sensor,
                 if c.transport.TcpOnly? || c.transport.UdpOnly? then 2 else 0, 0, v.raw)
  }

  /** Takes a number and pushes a frame with it; a full batch would refuse it. */
  function Pushing(c: Config, s: Loop, v: Source, stampNs: U64): (r: Loop)
    requires s.edge.Valid() && v.Value?
    ensures r.edge.Valid()
  {
    NextNumber(s).(edge := PushSample(s.edge, Sample(c, s, v, stampNs)))
  }

  /** A value was read: its number is dropped on purpose or goes into a frame. */
  function Emitted(c: Config, s: Loop, a: Answers, v: Source, stampNs: U64, tail: FlushInput): (r: Loop)
    requires s.edge.Valid() && v.Value?
    ensures r.edge.Valid()
  {
    if ShouldDrop(s.seqno, c.dropPct) then NextNumber(s).(dropped := s.dropped + 1)
    else if Full(s.edge.batch) then Pushing(c, s, v, stampNs)
    else TailFlush(c, Pushing(c, s, v, stampNs), a, tail)
  }

  /** One pass of the loop. */
  function Iterated(c: Config, s: Loop, a: Answers, i: Input): (r: Pass)
    requires s.edge.Valid()
    ensures r.loop.edge.Valid()
  {
    if i.expired then Pass(s, false)
    else
      var h := HeadFlush(c, s, a, i.head);
      if !h.running then Pass(h.loop, true)
      else if i.source.Exhausted? then Pass(h.loop, false)
      else Pass(Emitted(c, h.loop, a, i.source, i.stampNs, i.tail), true)
  }

  // ----- the books -----

  /** What holds whenever the loop comes round. */
  ghost predicate Balanced(c: Config, s: Loop)
    requires s.edge.Valid()
  {
    && 1 <= s.edge.batch.flushAt <= s.edge.batch.capacity
    && s.seqno == s.consumed % TWO_TO_THE_32
    && s.consumed == |s.edge.pushed| + s.dropped
    && (if c.transport.TcpOnly?
        then s.consumed == s.sentOk + s.dropped + |s.edge.batch.frames|
        else && s.consumed == s.sentOk + s.sentFail + s.dropped + |s.edge.batch.frames|
             && s.edge.batch.offset == 0 && |s.edge.batch.frames| < s.edge.batch.flushAt)
  }

  /** What a flush keeps, whichever the transport. */
  lemma FlushKeeps(tr: Transport, e: Edge, a: Answers, i: FlushInput)
    requires e.Valid() && 1 <= e.batch.flushAt <= e.batch.capacity
    ensures var r := FlushedBatch(tr, e, a, i.now, i.accepted, i.flushNs);
      && r.edge.pushed == e.pushed
      && 1 <= r.edge.batch.flushAt <= r.edge.batch.capacity == e.batch.capacity
      && (tr != TcpOnly || r.ok ==> r.edge.batch.frames == [] && r.edge.batch.offset == 0)
      && (tr == TcpOnly && !r.ok ==> r.edge.batch.frames == e.batch.frames)
  {
    hide FlushedBatch;
    FlushEmpties(tr, e, a, i.now, i.accepted, i.flushNs);
    FlushKeepsPushed(tr, e, a, i.now, i.accepted, i.flushNs);
    FlushKeepsTarget(tr, e, a, i.now, i.accepted, i.flushNs);
  }

  lemma FlushKeepsTarget(tr: Transport, e: Edge, a: Answers, now: nat, accepted: bool, flushNs: nat)
    requires e.Valid() && 1 <= e.batch.flushAt <= e.batch.capacity
    ensures var b := FlushedBatch(tr, e, a, now, accepted, flushNs).edge.batch;
      1 <= b.flushAt <= b.capacity == e.batch.capacity
  {
    hide FlushedWithin, OverTcp, Took;
    if tr.TcpOnly? || tr.Auto? {
      var rounds := if tr.TcpOnly? then 128 else 64;
      OverTcpMoves(Reconnected(e, now, accepted), a, rounds);
    }
  }

  /** The pushed frame always finds room: the head flush leaves the batch with a free slot
      or ends the pass. */
  lemma PushNeverFails(c: Config, s: Loop, a: Answers, i: FlushInput)
    requires s.edge.Valid() && Balanced(c, s)
    ensures var h := HeadFlush(c, s, a, i); h.running ==> !Full(h.loop.edge.batch)
  {
    hide FlushedBatch;
    FlushKeeps(c.transport, s.edge, a, i);
  }

  /** Only a TCP-only edge ever flushes at the head of the loop. */
  lemma HeadFlushOnlyForTcp(c: Config, s: Loop, a: Answers, i: FlushInput)
    requires s.edge.Valid() && Balanced(c, s) && !c.transport.TcpOnly?
    ensures HeadFlush(c, s, a, i) == Pass(s, true)
  {}

  lemma HeadKeepsBalance(c: Config, s: Loop, a: Answers, i: FlushInput)
    requires s.edge.Valid() && Balanced(c, s)
    ensures Balanced(c, HeadFlush(c, s, a, i).loop)
  {
    hide FlushedBatch;
    FlushKeeps(c.transport, s.edge, a, i);
  }

  /** The books in the moment between a push and the flush after it. */
  ghost predicate JustPushed(c: Config, s: Loop)
    requires s.edge.Valid()
  {
    && s.edge.batch.frames != []
    && 1 <= s.edge.batch.flushAt <= s.edge.batch.capacity
    && s.seqno == s.consumed % TWO_TO_THE_32
    && s.consumed == |s.edge.pushed| + s.dropped
    && (if c.transport.TcpOnly?
        then s.consumed == s.sentOk + s.dropped + |s.edge.batch.frames|
        else s.consumed == s.sentOk + s.sentFail + s.dropped + |s.edge.batch.frames| && s.edge.batch.offset == 0)
  }

  lemma PushBalances(c: Config, s: Loop, v: Source, stampNs: U64)
    requires s.edge.Valid() && Balanced(c, s) && v.Value? && !Full(s.edge.batch)
    ensures JustPushed(c, Pushing(c, s, v, stampNs))
    ensures Pushing(c, s, v, stampNs).edge.pushed == s.edge.pushed + [PackFrame(Sample(c, s, v, stampNs))]
    ensures Pushing(c, s, v, stampNs).consumed == s.consumed + 1
  {
    hide PackFrame, Sample;
    NumberAfter(s.consumed);
  }

  lemma NumberAfter(n: nat)
    ensures (n % TWO_TO_THE_32 + 1) % TWO_TO_THE_32 == (n + 1) % TWO_TO_THE_32
  {}

  lemma TailRestoresBalance(c: Config, s: Loop, a: Answers, i: FlushInput)
    requires s.edge.Valid() && JustPushed(c, s)
    ensures Balanced(c, TailFlush(c, s, a, i))
    ensures TailFlush(c, s, a, i).edge.pushed == s.edge.pushed && TailFlush(c, s, a, i).consumed == s.consumed
  {
    hide FlushedBatch;
    FlushKeeps(c.transport, s.edge, a, i);
  }

  lemma DropBalances(c: Config, s: Loop)
    requires s.edge.Valid() && Balanced(c, s)
    ensures Balanced(c, NextNumber(s).(dropped := s.dropped + 1))
  {}

  lemma EmitKeepsBalance(c: Config, s: Loop, a: Answers, v: Source, stampNs: U64, tail: FlushInput)
    requires s.edge.Valid() && Balanced(c, s) && v.Value? && !Full(s.edge.batch)
    ensures Balanced(c, Emitted(c, s, a, v, stampNs, tail))
  {
    hide TailFlush, ShouldDrop, Pushing, Balanced, JustPushed;
    if ShouldDrop(s.seqno, c.dropPct) {
      DropBalances(c, s);
    } else {
      PushBalances(c, s, v, stampNs);
      TailRestoresBalance(c, Pushing(c, s, v, stampNs), a, tail);
    }
  }

  lemma PassKeepsBalance(c: Config, s: Loop, a: Answers, i: Input)
    requires s.edge.Valid() && Balanced(c, s)
    ensures Balanced(c, Iterated(c, s, a, i).loop)
  {
    hide HeadFlush, Emitted, Balanced;
    if !i.expired {
      HeadKeepsBalance(c, s, a, i.head);
      PushNeverFails(c, s, a, i.head);
      var h := HeadFlush(c, s, a, i.head);
      if h.running && i.source.Value? {
        EmitKeepsBalance(c, h.loop, a, i.source, i.stampNs, i.tail);
      }
    }
  }

  // ----- whole runs -----

  /** The state when the loop is entered: the TCP transports have tried to connect once. */
  function StartLoop(c: Config, capacity: nat, now: nat, accepted: bool): (r: Loop)
    ensures r.edge.Valid()
  {
    var e := Start(capacity);
    Loop(if c.transport.TcpOnly? || c.transport.Auto? then Reconnected(e, now, accepted) else e, 0, 0, 0, 0, 0)
  }

  function LoopRun(c: Config, capacity: nat, now: nat, accepted: bool, a: Answers, ins: seq<Input>): (s: Loop)
    ensures s.edge.Valid()
    decreases |ins|
  {
    if ins == [] then StartLoop(c, capacity, now, accepted)
    else Iterated(c, LoopRun(c, capacity, now, accepted, a, ins[..|ins| - 1]), a, ins[|ins| - 1]).loop
  }

  /** At every head of the loop: the sequence number is, modulo 2^32, what was sent, failed,
      dropped and still waits (for TCP-only without the failures, which count flushes), and the
      flush target lies in 1..capacity. */
  lemma {:induction false} EveryNumberAccounted(
    c: Config, capacity: nat, now: nat, accepted: bool, a: Answers, ins: seq<Input>)
    requires capacity >= 1
    ensures var s := LoopRun(c, capacity, now, accepted, a, ins);
      && s.seqno == (s.sentOk + (if c.transport.TcpOnly? then 0 else s.sentFail) + s.dropped
                     + |s.edge.batch.frames|) % TWO_TO_THE_32
      && |s.edge.pushed| == s.sentOk + (if c.transport.TcpOnly? then 0 else s.sentFail) + |s.edge.batch.frames|
      && 1 <= s.edge.batch.flushAt <= s.edge.batch.capacity
    ensures Balanced(c, LoopRun(c, capacity, now, accepted, a, ins))
    decreases |ins|
  {
    hide Iterated;
    if ins != [] {
      var before := ins[..|ins| - 1];
      EveryNumberAccounted(c, capacity, now, accepted, a, before);
      PassKeepsBalance(c, LoopRun(c, capacity, now, accepted, a, before), a, ins[|ins| - 1]);
    }
  }

  // ----- which numbers are pushed -----

  lemma {:induction false} SurvivorsExtend(a: nat, b: nat, pct: int)
    requires a <= b < TWO_TO_THE_32
    ensures Survivors(a, b + 1, pct) == Survivors(a, b, pct) + (if ShouldDrop(b, pct) then [] else [b])
    decreases b - a
  {
    hide ShouldDrop;
    if a < b {
      SurvivorsExtend(a + 1, b, pct);
    } else {
      assert Survivors(a, b, pct) == [];
      assert Survivors(a + 1, b + 1, pct) == [];
    }
  }

  /** Either nothing happened to the numbers, or one was dropped, or one frame carries it. */
  ghost predicate OneNumber(c: Config, s: Loop, r: Loop) {
    || (r.consumed == s.consumed && r.edge.pushed == s.edge.pushed)
    || (r.consumed == s.consumed + 1 && ShouldDrop(s.seqno, c.dropPct) && r.edge.pushed == s.edge.pushed)
    || (&& r.consumed == s.consumed + 1 && !ShouldDrop(s.seqno, c.dropPct)
        && exists f: Frame :: r.edge.pushed == s.edge.pushed + [f] && SeqOf(f) == s.seqno && NodeOf(f) == c.node)
  }

  lemma EmitsOne(c: Config, s: Loop, a: Answers, v: Source, stampNs: U64, tail: FlushInput)
    requires s.edge.Valid() && Balanced(c, s) && v.Value? && !Full(s.edge.batch)
    ensures OneNumber(c, s, Emitted(c, s, a, v, stampNs, tail))
  {
    hide TailFlush, ShouldDrop, Pushing, Balanced, JustPushed, PackFrame, SeqOf, NodeOf;
    if !ShouldDrop(s.seqno, c.dropPct) {
      PushBalances(c, s, v, stampNs);
      TailRestoresBalance(c, Pushing(c, s, v, stampNs), a, tail);
      PackRoundTrip(Sample(c, s, v, stampNs));
    }
  }

  lemma HeadPushesNothing(c: Config, s: Loop, a: Answers, i: FlushInput)
    requires s.edge.Valid() && Balanced(c, s)
    ensures var h := HeadFlush(c, s, a, i).loop;
      h.consumed == s.consumed && h.edge.pushed == s.edge.pushed && h.seqno == s.seqno
  {}

  lemma PassPushes(c: Config, s: Loop, a: Answers, i: Input)
    requires s.edge.Valid() && Balanced(c, s)
    ensures OneNumber(c, s, Iterated(c, s, a, i).loop)
  {
    hide HeadFlush, Emitted, Balanced, ShouldDrop, SeqOf, NodeOf;
    if !i.expired {
      HeadPushesNothing(c, s, a, i.head);
      PushNeverFails(c, s, a, i.head);
      HeadKeepsBalance(c, s, a, i.head);
      var h := HeadFlush(c, s, a, i.head);
      if h.running && i.source.Value? {
        EmitsOne(c, h.loop, a, i.source, i.stampNs, i.tail);
      }
    }
  }

  /** Until the 32-bit counter wraps, the frames pushed carry exactly the numbers the edge's own
      drop percentage keeps, in order: the edge is one more stage of a chain of hops. */
  lemma {:induction false} PushedAreSurvivors(
    c: Config, capacity: nat, now: nat, accepted: bool, a: Answers, ins: seq<Input>)
    requires capacity >= 1
    requires LoopRun(c, capacity, now, accepted, a, ins).consumed <= TWO_TO_THE_32
    ensures var s := LoopRun(c, capacity, now, accepted, a, ins);
      SeqNos(s.edge.pushed) == Survivors(0, s.consumed, c.dropPct)
    decreases |ins|
  {
    hide Iterated, ShouldDrop, SeqOf, NodeOf, Survivors, Balanced;
    if ins == [] {
      NothingYet(c, capacity, now, accepted);
    } else {
      var before := ins[..|ins| - 1];
      var s := LoopRun(c, capacity, now, accepted, a, before);
      var r := LoopRun(c, capacity, now, accepted, a, ins);
      EveryNumberAccounted(c, capacity, now, accepted, a, before);
      PassPushes(c, s, a, ins[|ins| - 1]);
      PushedAreSurvivors(c, capacity, now, accepted, a, before);
      NumberIs(c, s);
      if r.consumed != s.consumed {
        SurvivorsExtend(0, s.consumed, c.dropPct);
        if !ShouldDrop(s.seqno, c.dropPct) {
          var f: Frame :| r.edge.pushed == s.edge.pushed + [f] && SeqOf(f) == s.seqno && NodeOf(f) == c.node;
          SeqNosLast(s.edge.pushed, f);
        }
      }
    }
  }

  /** Every frame the edge pushes carries its own node number. */
  lemma {:induction false} PushedFromNode(
    c: Config, capacity: nat, now: nat, accepted: bool, a: Answers, ins: seq<Input>)
    requires capacity >= 1
    ensures FromNode(LoopRun(c, capacity, now, accepted, a, ins).edge.pushed, c.node)
    decreases |ins|
  {
    hide Iterated, ShouldDrop, SeqOf, NodeOf, Balanced;
    if ins != [] {
      var before := ins[..|ins| - 1];
      var s := LoopRun(c, capacity, now, accepted, a, before);
      EveryNumberAccounted(c, capacity, now, accepted, a, before);
      PassPushes(c, s, a, ins[|ins| - 1]);
      PushedFromNode(c, capacity, now, accepted, a, before);
    }
  }

  ghost predicate FromNode(fs: seq<Frame>, node: U16) {
    forall f :: f in fs ==> NodeOf(f) == node
  }

  lemma NothingYet(c: Config, capacity: nat, now: nat, accepted: bool)
    ensures var s := StartLoop(c, capacity, now, accepted);
      s.edge.pushed == [] && SeqNos([]) == Survivors(0, 0, c.dropPct) == []
  {}

  lemma NumberIs(c: Config, s: Loop)
    requires s.edge.Valid() && Balanced(c, s)
    ensures s.consumed < TWO_TO_THE_32 ==> s.seqno == s.consumed
  {}

  // ----- the loop in place -----

  class EdgeNode {
    const config: Config
    const uplink: EdgeUplink
    var seqno: U32
    var sentOk: nat
    var sentFail: nat
    var dropped: nat
    ghost var consumed: nat

    ghost predicate Valid()
      reads this, uplink, uplink.batch, uplink.batch.frames, uplink.tcp, uplink.gate, uplink.router, uplink.udp
    {
      uplink.Valid()
    }

    ghost function State(): (r: Loop)
      requires Valid()
      reads this, uplink, uplink.batch, uplink.batch.frames, uplink.tcp, uplink.gate, uplink.router, uplink.udp
    {
      Loop(uplink.State(), seqno, sentOk, sentFail, dropped, consumed)
    }

    /** Sets up and, for the TCP transports, tries to connect once. */
    constructor (config: Config, capacity: nat, outside: Answers, now: nat, accepted: bool)
      ensures Valid() && this.config == config && uplink.Outside() == outside
      ensures State() == StartLoop(config, capacity, now, accepted)
    {
      this.config := config;
      uplink := new EdgeUplink(capacity, outside);
      seqno, sentOk, sentFail, dropped, consumed := 0, 0, 0, 0, 0;
      new;
      if config.transport.TcpOnly? || config.transport.Auto? {
        var up := uplink.gate.TryConnect(uplink.tcp, now, accepted);
      }
    }

    /** Flushes at the head of the loop when something is due. */
    method FlushAtHead(i: FlushInput) returns (running: bool)
      requires Valid()
      modifies this`sentOk, this`sentFail
      modifies uplink, uplink.batch, uplink.batch.frames, uplink.tcp, uplink.gate, uplink.router, uplink.udp
      ensures Valid()
      ensures Pass(State(), running) == HeadFlush(config, old(State()), uplink.Outside(), i)
    {
      hide FlushedBatch;
      var batch := uplink.batch;
      if batch.count >= batch.flushAt || batch.sendOffset > 0 || batch.count >= batch.frames.Length {
        var n := batch.count;
        var ok := uplink.FlushBatch(config.transport, i.now, i.accepted, i.flushNs);
        if ok || batch.count == 0 {
          sentOk := sentOk + n;
        } else {
          sentFail := sentFail + 1;
          return false;
        }
      }
      return true;
    }

    /** Flushes after a push when the target is reached. */
    method FlushAtTail(i: FlushInput)
      requires Valid()
      modifies this`sentOk, this`sentFail
      modifies uplink, uplink.batch, uplink.batch.frames, uplink.tcp, uplink.gate, uplink.router, uplink.udp
      ensures Valid()
      ensures State() == TailFlush(config, old(State()), uplink.Outside(), i)
    {
      hide FlushedBatch;
      var batch := uplink.batch;
      if batch.count >= batch.flushAt || batch.count >= batch.frames.Length {
        var n := batch.count;
        var ok := uplink.FlushBatch(config.transport, i.now, i.accepted, i.flushNs);
        if ok {
          sentOk := sentOk + n;
        } else if batch.count == 0 {
          sentFail := sentFail + n;
        }
      }
    }

    /** A value was read. */
    method Emit(v: Source, stampNs: U64, tail: FlushInput)
      requires Valid() && v.Value?
      modifies this
      modifies uplink, uplink.batch, uplink.batch.frames, uplink.tcp, uplink.gate, uplink.router, uplink.udp
      ensures Valid()
      ensures State() == Emitted(config, old(State()), uplink.Outside(), v, stampNs, tail)
    {
      hide TailFlush, ShouldDrop, PackFrame;
      if ShouldDrop(seqno, config.dropPct) {
        seqno := (seqno + 1) % TWO_TO_THE_32;
        consumed := consumed + 1;
        dropped := dropped + 1;
        return;
      }
      var sample := SensorSample(seqno, stampNs, config.node, v.sensor,
        if config.transport.TcpOnly? || config.transport.UdpOnly? then 2 else 0, 0, v.raw);
      seqno := (seqno + 1) % TWO_TO_THE_32;
      consumed := consumed + 1;
      var stored := uplink.PushFrame(sample);
      if !stored {
        return;
      }
      FlushAtTail(tail);
    }

    method Iterate(i: Input) returns (running: bool)
      requires Valid()
      modifies this
      modifies uplink, uplink.batch, uplink.batch.frames, uplink.tcp, uplink.gate, uplink.router, uplink.udp
      ensures Valid()
      ensures Pass(State(), running) == Iterated(config, old(State()), uplink.Outside(), i)
    {
      hide HeadFlush, Emitted;
      if i.expired {
        return false;
      }
      running := FlushAtHead(i.head);
      if !running {
        return true;
      }
      if i.source.Exhausted? {
        return false;
      }
      Emit(i.source, i.stampNs, i.tail);
      return true;
    }
  }
}

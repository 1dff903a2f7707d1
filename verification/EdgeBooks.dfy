/** When the edge flushes, and which count each batch goes to. */
module EdgeBooks {
  import opened Basics
  import opened Bytes
  import opened WireFrame
  import opened FrameBatch
  import opened Uplink
  import opened EdgeLoop
  import opened EdgeToOperator
  import opened FlushProgress
  import opened HopLoss

  // ----- one pass -----

  /** The uplink just after a push. */
  function WithFrame(e: Edge, f: Frame): (r: Edge) {
    e.(batch := e.batch.(frames := e.batch.frames + [f]), pushed := e.pushed + [f])
  }

  /** What a pass that pushes frame f does to uplink and counts: below the target the frame just waits;
      at the target the batch is flushed and counted as sent or as failed as a whole, or, on a
      TCP-only edge whose flush failed, kept and not counted yet. */
  ghost predicate PushesAndFlushes(c: Config, s: Loop, a: Answers, tail: FlushInput, f: Frame, r: Loop)
    requires s.edge.Valid() && |s.edge.batch.frames| < s.edge.batch.capacity
  {
    var e, n := WithFrame(s.edge, f), |s.edge.batch.frames| + 1;
    if n < s.edge.batch.flushAt then r.edge == e && r.sentOk == s.sentOk && r.sentFail == s.sentFail
    else
      var o := FlushedBatch(c.transport, e, a, tail.now, tail.accepted, tail.flushNs);
      && r.edge == o.edge
      && r.sentOk == s.sentOk + (if o.ok then n else 0)
      && r.sentFail == s.sentFail + (if o.ok || c.transport.TcpOnly? then 0 else n)
  }

  lemma WithFrameIs(c: Config, s: Loop, v: Source, stampNs: U64)
    requires s.edge.Valid() && v.Value? && |s.edge.batch.frames| < s.edge.batch.capacity
    ensures Pushing(c, s, v, stampNs).edge == WithFrame(s.edge, PackFrame(Sample(c, s, v, stampNs)))
    ensures WithFrame(s.edge, PackFrame(Sample(c, s, v, stampNs))).Valid()
    ensures Pushing(c, s, v, stampNs).sentOk == s.sentOk && Pushing(c, s, v, stampNs).sentFail == s.sentFail
    ensures Pushing(c, s, v, stampNs).dropped == s.dropped
  {
    hide PackFrame, Sample;
  }

  lemma EmitBooks(c: Config, s: Loop, a: Answers, v: Source, stampNs: U64, tail: FlushInput)
    requires s.edge.Valid() && Balanced(c, s) && v.Value? && !Full(s.edge.batch)
    ensures var r := Emitted(c, s, a, v, stampNs, tail);
      if ShouldDrop(s.seqno, c.dropPct)
      then r.edge == s.edge && r.sentOk == s.sentOk && r.sentFail == s.sentFail && r.dropped == s.dropped + 1
      else r.dropped == s.dropped
           && PushesAndFlushes(c, s, a, tail, PackFrame(Sample(c, s, v, stampNs)), r)
  {
    hide FlushedBatch, ShouldDrop, PackFrame, Sample;
    if !ShouldDrop(s.seqno, c.dropPct) {
      WithFrameIs(c, s, v, stampNs);
      FlushKeeps(c.transport, Pushing(c, s, v, stampNs).edge, a, tail);
    }
  }

  /** A flush is due at the head of the loop: the batch is at its target, or partly sent. */
  predicate HeadDue(b: Batch) {
    |b.frames| >= b.flushAt || b.offset > 0
  }

  /** The head of a pass: nothing happens unless a flush is due, which only a TCP-only edge ever meets;
      then the whole batch is counted as sent and the pass goes on, or one failure is counted and
      the pass ends there. */
  lemma HeadBooks(c: Config, s: Loop, a: Answers, i: FlushInput)
    requires s.edge.Valid() && Balanced(c, s)
    ensures HeadDue(s.edge.batch) ==> c.transport.TcpOnly?
    ensures var h := HeadFlush(c, s, a, i);
      if !HeadDue(s.edge.batch) then h == Pass(s, true)
      else
        var o := FlushedBatch(TcpOnly, s.edge, a, i.now, i.accepted, i.flushNs);
        h == Pass(s.(edge := o.edge, sentOk := s.sentOk + (if o.ok then |s.edge.batch.frames| else 0),
                     sentFail := s.sentFail + (if o.ok then 0 else 1)), o.ok)
    ensures HeadTrail(s, i) == if HeadDue(s.edge.batch) then [FlushOf(i)] else []
  {
    hide FlushedBatch;
    FlushKeeps(c.transport, s.edge, a, i);
  }

  // ----- whole runs -----

  /** Frames in the batches that were flushed with a given answer, along a trail. */
  function FlushedFrames(tr: Transport, e: Edge, a: Answers, evs: seq<Event>, ok: bool): (n: nat)
    requires e.Valid()
    decreases |evs|
  {
    if evs == [] then 0
    else FramesIn(tr, e, a, evs[0], ok) + FlushedFrames(tr, Step(tr, e, a, evs[0]), a, evs[1..], ok)
  }

  function FramesIn(tr: Transport, e: Edge, a: Answers, ev: Event, ok: bool): (n: nat)
    requires e.Valid()
  {
    match ev
    case FlushNow(now, accepted, flushNs) =>
      if FlushedBatch(tr, e, a, now, accepted, flushNs).ok == ok then |e.batch.frames| else 0
    case Push(_) => 0
    case Connect(_, _) => 0
  }

  lemma {:induction false} FlushedFramesAppend(tr: Transport, e: Edge, a: Answers, x: seq<Event>, y: seq<Event>,
      ok: bool)
    requires e.Valid()
    ensures FlushedFrames(tr, e, a, x + y, ok)
         == FlushedFrames(tr, e, a, x, ok) + FlushedFrames(tr, Steps(tr, e, a, x), a, y, ok)
    decreases |x|
  {
    hide Step, FramesIn;
    if x == [] {
      assert x + y == y;
    } else {
      assert (x + y)[1..] == x[1..] + y;
      FlushedFramesAppend(tr, Step(tr, e, a, x[0]), a, x[1..], y, ok);
    }
  }

  lemma OneFlush(tr: Transport, e: Edge, a: Answers, ev: Event, ok: bool)
    requires e.Valid()
    ensures FlushedFrames(tr, e, a, [ev], ok) == FramesIn(tr, e, a, ev, ok)
    ensures FlushedFrames(tr, e, a, [], ok) == 0
  {
    hide Step, FramesIn;
  }

  lemma EmitCounts(c: Config, s: Loop, a: Answers, v: Source, stampNs: U64, tail: FlushInput)
    requires s.edge.Valid() && Balanced(c, s) && v.Value? && !Full(s.edge.batch)
    ensures var r, evs := Emitted(c, s, a, v, stampNs, tail), EmitTrail(c, s, v, stampNs, tail);
      && r.sentOk == s.sentOk + FlushedFrames(c.transport, s.edge, a, evs, true)
      && (!c.transport.TcpOnly? ==> r.sentFail == s.sentFail + FlushedFrames(c.transport, s.edge, a, evs, false))
      && (c.transport.TcpOnly? ==> r.sentFail == s.sentFail)
  {
    hide FlushedBatch, ShouldDrop, PackFrame, Sample, FlushedFrames, Balanced, Pushing;
    EmitBooks(c, s, a, v, stampNs, tail);
    OneFlush(c.transport, s.edge, a, FlushOf(tail), true);
    OneFlush(c.transport, s.edge, a, FlushOf(tail), false);
    if !ShouldDrop(s.seqno, c.dropPct) {
      BalancedTarget(c, s);
      WithFrameIs(c, s, v, stampNs);
      var push := Push(Sample(c, s, v, stampNs));
      var e := Step(c.transport, s.edge, a, push);
      PushStep(c, s, a, v, stampNs);
      forall ok: bool
        ensures FlushedFrames(c.transport, s.edge, a, [push], ok) == 0
        ensures FlushedFrames(c.transport, s.edge, a, [push] + [FlushOf(tail)], ok)
             == FramesIn(c.transport, e, a, FlushOf(tail), ok)
      {
        OneFlush(c.transport, s.edge, a, push, ok);
        OneFlush(c.transport, e, a, FlushOf(tail), ok);
        FlushedFramesAppend(c.transport, s.edge, a, [push], [FlushOf(tail)], ok);
        OneStep(c.transport, s.edge, a, push);
      }
      assert [push] + [] == [push];
    }
  }

  lemma BalancedTarget(c: Config, s: Loop)
    requires s.edge.Valid() && Balanced(c, s)
    ensures 1 <= s.edge.batch.flushAt <= s.edge.batch.capacity
  {}

  lemma PushStep(c: Config, s: Loop, a: Answers, v: Source, stampNs: U64)
    requires s.edge.Valid() && v.Value?
    ensures Step(c.transport, s.edge, a, Push(Sample(c, s, v, stampNs))) == Pushing(c, s, v, stampNs).edge
  {
    hide PackFrame, Sample;
  }

  /** How often a head flush failed so far. */
  ghost function FailedHeads(c: Config, capacity: nat, now: nat, accepted: bool, a: Answers, ins: seq<Input>): (n: nat)
    decreases |ins|
  {
    if ins == [] then 0
    else
      var before, i := ins[..|ins| - 1], ins[|ins| - 1];
      var e := LoopRun(c, capacity, now, accepted, a, before).edge;
      FailedHeads(c, capacity, now, accepted, a, before)
      + (if !i.expired && HeadDue(e.batch) && !TcpFinishes(e, a, i.head.now, i.head.accepted, 128) then 1 else 0)
  }

  lemma PassCounts(c: Config, s: Loop, a: Answers, i: Input)
    requires s.edge.Valid() && Balanced(c, s)
    ensures var r, evs := Iterated(c, s, a, i).loop, PassTrail(c, s, a, i);
      && r.sentOk == s.sentOk + FlushedFrames(c.transport, s.edge, a, evs, true)
      && (!c.transport.TcpOnly? ==> r.sentFail == s.sentFail + FlushedFrames(c.transport, s.edge, a, evs, false))
      && (c.transport.TcpOnly? ==>
            r.sentFail == s.sentFail + (if !i.expired && HeadDue(s.edge.batch)
                                           && !TcpFinishes(s.edge, a, i.head.now, i.head.accepted, 128) then 1 else 0))
  {
    hide FlushedBatch, HeadFlush, Emitted, EmitTrail, HeadTrail, FlushedFrames, Balanced, TcpFinishes, Steps, FramesIn;
    OneFlush(c.transport, s.edge, a, FlushOf(i.head), true);
    OneFlush(c.transport, s.edge, a, FlushOf(i.head), false);
    if !i.expired {
      HeadBooks(c, s, a, i.head);
      HeadVerdicts(c, s, a, i.head);
      HeadSteps(c, s, a, i.head);
      var h := HeadFlush(c, s, a, i.head);
      if h.running && i.source.Value? {
        PushNeverFails(c, s, a, i.head);
        HeadKeepsBalance(c, s, a, i.head);
        EmitCounts(c, h.loop, a, i.source, i.stampNs, i.tail);
        var evs := EmitTrail(c, h.loop, i.source, i.stampNs, i.tail);
        FlushedFramesAppend(c.transport, s.edge, a, HeadTrail(s, i.head), evs, true);
        FlushedFramesAppend(c.transport, s.edge, a, HeadTrail(s, i.head), evs, false);
      } else {
        assert HeadTrail(s, i.head) + [] == HeadTrail(s, i.head);
      }
    }
  }

  lemma HeadVerdicts(c: Config, s: Loop, a: Answers, i: FlushInput)
    requires s.edge.Valid() && Balanced(c, s)
    ensures var h, evs := HeadFlush(c, s, a, i), HeadTrail(s, i);
      && h.loop.sentOk == s.sentOk + FlushedFrames(c.transport, s.edge, a, evs, true)
      && (!c.transport.TcpOnly? ==> h.loop.sentFail == s.sentFail + FlushedFrames(c.transport, s.edge, a, evs, false))
      && h.loop.sentFail == s.sentFail + (if h.running then 0 else 1)
      && (h.running <==> HeadDue(s.edge.batch) ==> TcpFinishes(s.edge, a, i.now, i.accepted, 128))
  {
    hide FlushedBatch, HeadFlush, HeadTrail, FlushedFrames, Balanced, TcpFinishes;
    HeadBooks(c, s, a, i);
    OneFlush(c.transport, s.edge, a, FlushOf(i), true);
    OneFlush(c.transport, s.edge, a, FlushOf(i), false);
    TcpFlushSucceedsExactly(s.edge, a, i.now, i.accepted, i.flushNs);
  }

  /** Over any run: sent_ok counts exactly the frames of the batches whose flush said yes. For Auto, UDP
      and mesh edges sent_fail counts exactly the frames of the others; for a TCP-only edge it
      counts the head flushes that failed. */
  lemma {:induction false} CountsAreVerdicts(
    c: Config, capacity: nat, now: nat, accepted: bool, a: Answers, ins: seq<Input>)
    requires capacity >= 1
    ensures var s, evs := LoopRun(c, capacity, now, accepted, a, ins), Trail(c, capacity, now, accepted, a, ins);
      && s.sentOk == FlushedFrames(c.transport, Start(capacity), a, evs, true)
      && s.sentFail == (if c.transport.TcpOnly? then FailedHeads(c, capacity, now, accepted, a, ins)
                        else FlushedFrames(c.transport, Start(capacity), a, evs, false))
    decreases |ins|
  {
    hide Iterated, PassTrail, Step, FlushedFrames, TcpFinishes, Balanced, HeadDue, Steps;
    if ins == [] {
      NothingFlushed(c, capacity, now, accepted, a, true);
      NothingFlushed(c, capacity, now, accepted, a, false);
    } else {
      var before, i := ins[..|ins| - 1], ins[|ins| - 1];
      var s := LoopRun(c, capacity, now, accepted, a, before);
      CountsAreVerdicts(c, capacity, now, accepted, a, before);
      EveryNumberAccounted(c, capacity, now, accepted, a, before);
      PassCounts(c, s, a, i);
      var evs := Trail(c, capacity, now, accepted, a, before);
      LoopIsRun(c, capacity, now, accepted, a, before);
      RunContinues(c.transport, capacity, a, [], evs);
      assert [] + evs == evs;
      FlushedFramesAppend(c.transport, Start(capacity), a, evs, PassTrail(c, s, a, i), true);
      FlushedFramesAppend(c.transport, Start(capacity), a, evs, PassTrail(c, s, a, i), false);
    }
  }

  lemma NothingFlushed(c: Config, capacity: nat, now: nat, accepted: bool, a: Answers, ok: bool)
    ensures FlushedFrames(c.transport, Start(capacity), a, Trail(c, capacity, now, accepted, a, []), ok) == 0
  {}
}

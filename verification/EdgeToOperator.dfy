/** The main loop as a run of the uplink, and what arrives of the numbers it used. */
module EdgeToOperator {
  import opened Bytes
  import opened WireFrame
  import opened StreamScan
  import opened FrameBatch
  import opened Uplink
  import opened EdgeLoop
  import opened HopLoss
  import Analyze
  import AutoLedger
  import TcpStream

  // ----- the pushes and flushes of a pass -----

  function FlushOf(i: FlushInput): (r: Event) {
    FlushNow(i.now, i.accepted, i.flushNs)
  }

  function HeadTrail(s: Loop, i: FlushInput): (r: seq<Event>) {
    var b := s.edge.batch;
    if ShouldFlush(b) || b.offset > 0 || Full(b) then [FlushOf(i)] else []
  }

  function EmitTrail(c: Config, s: Loop, v: Source, stampNs: U64, tail: FlushInput): (r: seq<Event>)
    requires s.edge.Valid() && v.Value?
  {
    if ShouldDrop(s.seqno, c.dropPct) then []
    else
      var b := Pushing(c, s, v, stampNs).edge.batch;
      [Push(Sample(c, s, v, stampNs))]
      + (if !Full(s.edge.batch) && (ShouldFlush(b) || Full(b)) then [FlushOf(tail)] else [])
  }

  function PassTrail(c: Config, s: Loop, a: Answers, i: Input): (r: seq<Event>)
    requires s.edge.Valid()
  {
    if i.expired then []
    else
      var h := HeadFlush(c, s, a, i.head);
      HeadTrail(s, i.head)
      + (if h.running && i.source.Value? then EmitTrail(c, h.loop, i.source, i.stampNs, i.tail) else [])
  }

  function Trail(c: Config, capacity: nat, now: nat, accepted: bool, a: Answers, ins: seq<Input>): (r: seq<Event>)
    decreases |ins|
  {
    if ins == [] then (if c.transport.TcpOnly? || c.transport.Auto? then [Connect(now, accepted)] else [])
    else
      Trail(c, capacity, now, accepted, a, ins[..|ins| - 1])
      + PassTrail(c, LoopRun(c, capacity, now, accepted, a, ins[..|ins| - 1]), a, ins[|ins| - 1])
  }

  // ----- a pass does what its trail says -----

  function Steps(tr: Transport, e: Edge, a: Answers, evs: seq<Event>): (r: Edge)
    requires e.Valid()
    ensures r.Valid()
    decreases |evs|
  {
    if evs == [] then e else Steps(tr, Step(tr, e, a, evs[0]), a, evs[1..])
  }

  lemma {:induction false} StepsAppend(tr: Transport, e: Edge, a: Answers, x: seq<Event>, y: seq<Event>)
    requires e.Valid()
    ensures Steps(tr, e, a, x + y) == Steps(tr, Steps(tr, e, a, x), a, y)
    decreases |x|
  {
    hide Step;
    if x == [] {
      assert x + y == y;
    } else {
      assert (x + y)[1..] == x[1..] + y;
      StepsAppend(tr, Step(tr, e, a, x[0]), a, x[1..], y);
    }
  }

  lemma OneStep(tr: Transport, e: Edge, a: Answers, ev: Event)
    requires e.Valid()
    ensures Steps(tr, e, a, [ev]) == Step(tr, e, a, ev)
  {}

  lemma {:induction false} RunContinues(tr: Transport, capacity: nat, a: Answers, before: seq<Event>, more: seq<Event>)
    ensures Run(tr, capacity, a, before + more) == Steps(tr, Run(tr, capacity, a, before), a, more)
    decreases |more|
  {
    hide Step;
    if more == [] {
      assert before + more == before;
    } else {
      var n := |more| - 1;
      var all := before + more;
      assert all[..|all| - 1] == before + more[..n] && all[|all| - 1] == more[n];
      RunContinues(tr, capacity, a, before, more[..n]);
      StepsAppend(tr, Run(tr, capacity, a, before), a, more[..n], [more[n]]);
      OneStep(tr, Steps(tr, Run(tr, capacity, a, before), a, more[..n]), a, more[n]);
      assert more[..n] + [more[n]] == more;
    }
  }

  lemma HeadSteps(c: Config, s: Loop, a: Answers, i: FlushInput)
    requires s.edge.Valid()
    ensures HeadFlush(c, s, a, i).loop.edge == Steps(c.transport, s.edge, a, HeadTrail(s, i))
  {}

  lemma NoSteps(tr: Transport, e: Edge, a: Answers)
    requires e.Valid()
    ensures Steps(tr, e, a, []) == e
  {}

  lemma EmitSteps(c: Config, s: Loop, a: Answers, v: Source, stampNs: U64, tail: FlushInput)
    requires s.edge.Valid() && v.Value?
    ensures Emitted(c, s, a, v, stampNs, tail).edge == Steps(c.transport, s.edge, a, EmitTrail(c, s, v, stampNs, tail))
  {
    hide FlushedBatch, Steps, ShouldDrop, PushSample, Sample;
    var push := Push(Sample(c, s, v, stampNs));
    var p := Pushing(c, s, v, stampNs);
    NoSteps(c.transport, s.edge, a);
    OneStep(c.transport, s.edge, a, push);
    StepsAppend(c.transport, s.edge, a, [push], [FlushOf(tail)]);
    OneStep(c.transport, p.edge, a, FlushOf(tail));
    assert [push] + [] == [push];
  }

  lemma PassSteps(c: Config, s: Loop, a: Answers, i: Input)
    requires s.edge.Valid()
    ensures Iterated(c, s, a, i).loop.edge == Steps(c.transport, s.edge, a, PassTrail(c, s, a, i))
  {
    hide HeadFlush, Emitted, Steps, HeadTrail, EmitTrail;
    if i.expired {
      NoSteps(c.transport, s.edge, a);
    } else {
      HeadSteps(c, s, a, i.head);
      var h := HeadFlush(c, s, a, i.head);
      if h.running && i.source.Value? {
        EmitSteps(c, h.loop, a, i.source, i.stampNs, i.tail);
        StepsAppend(c.transport, s.edge, a, HeadTrail(s, i.head), EmitTrail(c, h.loop, i.source, i.stampNs, i.tail));
      } else {
        assert HeadTrail(s, i.head) + [] == HeadTrail(s, i.head);
      }
    }
  }

  /** The main loop drives the uplink through exactly the pushes and flushes of its trail. */
  lemma {:induction false} LoopIsRun(c: Config, capacity: nat, now: nat, accepted: bool, a: Answers, ins: seq<Input>)
    ensures LoopRun(c, capacity, now, accepted, a, ins).edge
         == Run(c.transport, capacity, a, Trail(c, capacity, now, accepted, a, ins))
    decreases |ins|
  {
    hide Iterated, PassTrail, Step, Run;
    if ins == [] {
      StartIsRun(c, capacity, now, accepted, a);
    } else {
      var before := ins[..|ins| - 1];
      var s := LoopRun(c, capacity, now, accepted, a, before);
      LoopIsRun(c, capacity, now, accepted, a, before);
      PassSteps(c, s, a, ins[|ins| - 1]);
      RunContinues(c.transport, capacity, a, Trail(c, capacity, now, accepted, a, before),
                   PassTrail(c, s, a, ins[|ins| - 1]));
    }
  }

  lemma StartIsRun(c: Config, capacity: nat, now: nat, accepted: bool, a: Answers)
    ensures StartLoop(c, capacity, now, accepted).edge
         == Run(c.transport, capacity, a, Trail(c, capacity, now, accepted, a, []))
  {}

  // ----- every number of an Auto edge -----

  /** Everything an Auto edge pushed is the ledger of its trail and what waits in the batch, in
      push order; the mesh got exactly the ledger's mesh entries, the receiver of each
      connection decodes exactly that connection's entries, and there are no others. */
  lemma AutoEdgePartition(
    c: Config, capacity: nat, now: nat, accepted: bool, a: Answers, ins: seq<Input>)
    requires c.transport.Auto?
    ensures var e := LoopRun(c, capacity, now, accepted, a, ins).edge;
      var l := AutoLedger.LedgerOf(capacity, a, Trail(c, capacity, now, accepted, a, ins));
      && e.pushed == AutoLedger.All(l) + e.batch.frames
      && e.meshed == AutoLedger.On(l, AutoLedger.OnMesh)
      && (forall k :: 0 <= k < |e.tcp.logs| ==>
            ScanStream(e.tcp.logs[k]).frames == AutoLedger.On(l, AutoLedger.OnTcp(k)))
      && (forall i :: 0 <= i < |l| && l[i].route.OnTcp? ==> l[i].route.connection < |e.tcp.logs|)
  {
    hide LoopRun, Trail, Run, ScanStream, ReceiveAll, AutoLedger.LedgerOf, AutoLedger.All, AutoLedger.On,
        AutoLedger.LogsCarry, AutoLedger.StartOfMeshed;
    var evs := Trail(c, capacity, now, accepted, a, ins);
    LoopIsRun(c, capacity, now, accepted, a, ins);
    AutoLedger.AutoRunKeepsLedger(capacity, a, evs);
    var e := Run(Auto, capacity, a, evs);
    forall k | 0 <= k < |e.tcp.logs|
      ensures ScanStream(e.tcp.logs[k]).frames
           == AutoLedger.On(AutoLedger.LedgerOf(capacity, a, evs), AutoLedger.OnTcp(k))
    {
      OneChunk(e.tcp.logs[k]);
      AutoLedger.ReceiverSeesTcpShare(capacity, a, evs, k, [e.tcp.logs[k]]);
    }
  }

  lemma OneChunk(log: seq<Byte>)
    ensures Concat([log]) == log && ReceiveAll(EMPTY, [log]) == ScanStream(log)
  {
    hide ScanStream, ReceiveAll;
    ChunkingIrrelevant([log]);
  }

  /** Exactly one position of xs holds q. */
  ghost predicate Once(xs: seq<U32>, q: U32) {
    exists i :: 0 <= i < |xs| && xs[i] == q && forall j :: 0 <= j < |xs| && xs[j] == q ==> j == i
  }

  /** Of all numbers an Auto edge used before its counter wrapped, those its drop percentage
      drops are carried by no frame, and every other one by exactly one frame of the ledger or
      the batch: decoded by one connection's receiver, given to the mesh once, or waiting. */
  lemma AutoEdgeAccountsForAll(
    c: Config, capacity: nat, now: nat, accepted: bool, a: Answers, ins: seq<Input>)
    requires capacity >= 1 && c.transport.Auto?
    ensures var s := LoopRun(c, capacity, now, accepted, a, ins);
      var l := AutoLedger.LedgerOf(capacity, a, Trail(c, capacity, now, accepted, a, ins));
      var numbers := SeqNos(AutoLedger.All(l) + s.edge.batch.frames);
      && s.consumed == s.dropped + |numbers|
      && |numbers| == AutoLedger.DecodedTotal(s.edge.tcp.logs, |s.edge.tcp.logs|) + s.edge.rescued
                      + |s.edge.batch.frames|
      && s.edge.rescued == |s.edge.meshed|
      && (s.consumed <= TWO_TO_THE_32 ==>
            && numbers == Survivors(0, s.consumed, c.dropPct)
            && (forall q: U32 :: q < s.consumed && !ShouldDrop(q, c.dropPct) ==> Once(numbers, q))
            && (forall q: U32 :: q >= s.consumed || ShouldDrop(q, c.dropPct) ==> q !in numbers))
  {
    hide LoopRun, Trail, Run, Balanced, AutoLedger.LedgerOf, AutoLedger.All, AutoLedger.On, Survivors, SeqNos,
        ShouldDrop, ScanStream, Once, AutoLedger.DecodedTotal, AutoLedger.LogsCarry, AutoLedger.InOrder;
    LoopIsRun(c, capacity, now, accepted, a, ins);
    AutoLedger.EveryFrameOnce(capacity, a, Trail(c, capacity, now, accepted, a, ins));
    AutoLedger.AutoRunKeepsLedger(capacity, a, Trail(c, capacity, now, accepted, a, ins));
    AutoEdgePartition(c, capacity, now, accepted, a, ins);
    EveryNumberAccounted(c, capacity, now, accepted, a, ins);
    var s := LoopRun(c, capacity, now, accepted, a, ins);
    PushedAndDropped(c, s);
    if s.consumed <= TWO_TO_THE_32 {
      PushedAreSurvivors(c, capacity, now, accepted, a, ins);
      EachSurvivorOnce(s.consumed, c.dropPct);
    }
  }

  lemma EachSurvivorOnce(n: nat, pct: int)
    requires n <= TWO_TO_THE_32
    ensures forall q: U32 :: q < n && !ShouldDrop(q, pct) ==> Once(Survivors(0, n, pct), q)
    ensures forall q: U32 :: q >= n || ShouldDrop(q, pct) ==> q !in Survivors(0, n, pct)
  {
    hide Survivors, ShouldDrop, Once;
    var xs := Survivors(0, n, pct);
    SurvivorsIncrease(0, n, pct);
    forall q: U32
      ensures q < n && !ShouldDrop(q, pct) ==> Once(xs, q)
      ensures q >= n || ShouldDrop(q, pct) ==> q !in xs
    {
      SurvivorsAre(0, n, pct, q);
      if q in xs {
        IncreasingOnce(xs, q);
      }
    }
  }

  lemma IncreasingOnce(xs: seq<U32>, q: U32)
    requires Analyze.StrictlyIncreasing(xs) && q in xs
    ensures Once(xs, q)
  {
    var i :| 0 <= i < |xs| && xs[i] == q;
    forall j | 0 <= j < |xs| && xs[j] == q
      ensures j == i
    {
      if i < j {
        Analyze.IncreasingOrder(xs, i, j);
      } else {
        Analyze.IncreasingOrder(xs, j, i);
      }
    }
  }

  lemma PushedAndDropped(c: Config, s: Loop)
    requires s.edge.Valid() && Balanced(c, s)
    ensures s.consumed == |s.edge.pushed| + s.dropped
  {}

  /** A TCP-only edge that never had to reconnect and has drained its batch: the operator
      decodes exactly the numbers the edge's drop percentage keeps, in order. */
  lemma TcpEdgeDeliversSurvivors(
    c: Config, capacity: nat, now: nat, accepted: bool, a: Answers, ins: seq<Input>)
    requires capacity >= 1 && c.transport.TcpOnly?
    ensures var s := LoopRun(c, capacity, now, accepted, a, ins);
      s.consumed <= TWO_TO_THE_32 && |s.edge.tcp.logs| == 1 && s.edge.batch.frames == [] ==>
      SeqNos(ScanStream(s.edge.tcp.logs[0]).frames) == Survivors(0, s.consumed, c.dropPct)
  {
    hide LoopRun, Trail, Run, ScanStream, Survivors, SeqNos;
    var s := LoopRun(c, capacity, now, accepted, a, ins);
    LoopIsRun(c, capacity, now, accepted, a, ins);
    TcpStream.OneConnectionDeliversAll(capacity, a, Trail(c, capacity, now, accepted, a, ins));
    if s.consumed <= TWO_TO_THE_32 {
      PushedAreSurvivors(c, capacity, now, accepted, a, ins);
    }
  }
}

/** A mesh flush over the real router: which hop took which frame of the batch. */
module MeshFlush {
  import opened Bytes
  import opened WireFrame
  import opened FrameBatch
  import opened Uplink
  import opened Router

  /** What a mesh flush of frames fs does to a table and the socket's trace. */
  function OverRouter(table: seq<Route>, node: U16, net: Net, now: U64, trace: seq<Sent>, fs: seq<Frame>): (q: BatchRun)
    requires Find(table, node) < |table| && table[Find(table, node)].Valid()
    ensures |q.parts| == |q.oks| == |fs|
  {
    ForwardEach(Progress(table[Find(table, node)], trace, []), net, now, fs)
  }

  predicate AllYes(oks: seq<bool>) {
    forall i :: 0 <= i < |oks| ==> oks[i]
  }

  lemma {:induction false} AllYesCount(oks: seq<bool>)
    ensures AllYes(oks) <==> Yes(oks) == |oks|
    decreases |oks|
  {
    if oks != [] {
      var n := |oks| - 1;
      AllYesCount(oks[..n]);
      assert oks == oks[..n] + [oks[n]];
    }
  }

  ghost predicate AllValid(t: seq<Route>) {
    forall i :: 0 <= i < |t| ==> t[i].Valid()
  }

  /** Table and trace after some frames, of which `yes` forwards said yes. */
  ghost predicate After(t0: seq<Route>, node: U16, net: Net, now: U64, trace0: seq<Sent>, fs: seq<Frame>,
      t: seq<Route>, trace: seq<Sent>, yes: nat)
    requires AllValid(t0)
  {
    var k := Find(t0, node);
    if k == |t0| then t == t0 && trace == trace0 && yes == 0
    else
      var q := OverRouter(t0, node, net, now, trace0, fs);
      t == t0[k := q.end.route] && q.end.route.node == node && trace == q.end.trace && yes == Yes(q.oks)
  }

  lemma BeforeAny(t0: seq<Route>, node: U16, net: Net, now: U64, trace0: seq<Sent>)
    requires AllValid(t0)
    ensures After(t0, node, net, now, trace0, [], t0, trace0, 0)
  {}

  /** Replacing a route keeps where its node is found. */
  lemma FindAfterUpdate(table: seq<Route>, node: U16, r: Route)
    requires Find(table, node) < |table| && r.node == node
    ensures Find(table[Find(table, node) := r], node) == Find(table, node)
  {
    FindIs(table[Find(table, node) := r], node, Find(table, node));
  }

  /** While a node has a route, its route is what the forwards so far made of it. */
  lemma AfterKnown(t0: seq<Route>, node: U16, net: Net, now: U64, trace0: seq<Sent>, fs: seq<Frame>, t: seq<Route>,
      trace: seq<Sent>, yes: nat)
    requires AllValid(t0)
    requires After(t0, node, net, now, trace0, fs, t, trace, yes) && Find(t0, node) < |t0|
    ensures t0[Find(t0, node)].Valid()
    ensures var k, q := Find(t0, node), OverRouter(t0, node, net, now, trace0, fs);
      && Find(t, node) == k && |t| == |t0| && t[k] == q.end.route && t[k].node == node && t[k].Valid()
      && t == t0[k := t[k]] && trace == q.end.trace && yes == Yes(q.oks)
  {
    hide ForwardEach, Find, Yes;
    FindAfterUpdate(t0, node, OverRouter(t0, node, net, now, trace0, fs).end.route);
  }

  lemma AfterIs(t0: seq<Route>, node: U16, net: Net, now: U64, trace0: seq<Sent>, fs: seq<Frame>, r: Route,
      trace: seq<Sent>, yes: nat)
    requires AllValid(t0)
    requires Find(t0, node) < |t0| && r.node == node
    requires var q := OverRouter(t0, node, net, now, trace0, fs);
      r == q.end.route && trace == q.end.trace && yes == Yes(q.oks)
    ensures After(t0, node, net, now, trace0, fs, t0[Find(t0, node) := r], trace, yes)
  {
    hide ForwardEach, Find, Yes;
  }

  /** One more frame forwarded by the router. */
  lemma AfterOneMore(t0: seq<Route>, node: U16, net: Net, now: U64, trace0: seq<Sent>, fs: seq<Frame>, f: Frame,
      t: seq<Route>, trace: seq<Sent>, yes: nat)
    requires AllValid(t0)
    requires After(t0, node, net, now, trace0, fs, t, trace, yes) && Find(t0, node) < |t0|
    ensures Find(t, node) == Find(t0, node) < |t| && t[Find(t, node)].Valid()
    ensures var k := Find(t, node);
      var g := Forwarded(t[k], now, f, net, trace);
      After(t0, node, net, now, trace0, fs + [f], t[k := g.route], g.trace, yes + (if g.ok then 1 else 0))
  {
    hide Forwarded, Find, ForwardEach, After, Yes, AllValid, Route.Valid;
    AfterKnown(t0, node, net, now, trace0, fs, t, trace, yes);
    var k := Find(t0, node);
    EachOneMore(Progress(t0[k], trace0, []), net, now, fs, f);
    var g := Forwarded(t[k], now, f, net, trace);
    AfterIs(t0, node, net, now, trace0, fs + [f], g.route, g.trace, yes + (if g.ok then 1 else 0));
    assert t[k := g.route] == t0[k := g.route];
  }

  lemma EachOneMore(p: Progress, net: Net, now: U64, fs: seq<Frame>, f: Frame)
    requires p.route.Valid()
    ensures var b, q := ForwardEach(p, net, now, fs), ForwardEach(p, net, now, fs + [f]);
      var g := Forwarded(b.end.route, now, f, net, b.end.trace);
      && q.end.route == g.route && q.end.trace == g.trace && g.route.node == b.end.route.node
      && Yes(q.oks) == Yes(b.oks) + (if g.ok then 1 else 0)
  {
    hide Forwarded, RouteStep;
    var b := ForwardEach(p, net, now, fs);
    var g := Forwarded(b.end.route, now, f, net, b.end.trace);
    assert (fs + [f])[..|fs|] == fs;
    StepIsForward(b.end, net, now, f);
    YesMore(b.oks, g.ok);
  }

  lemma StepIsForward(p: Progress, net: Net, now: U64, f: Frame)
    requires p.route.Valid()
    ensures var q, g := RouteStep(p, net, Forward(now, f)), Forwarded(p.route, now, f, net, p.trace);
      q.route == g.route && q.trace == g.trace && g.route.node == p.route.node
  {
    hide Forwarded, Masked, RoundFrom, Honest, OneAcceptance, Tried, Probes, Settled;
    ForwardLaws(p.route, now, f, net, p.trace);
  }

  /** Forwards the unsent frames one by one and empties the batch. */
  method FlushUdpMesh(router: MeshRouter, udp: HopSocket, node: U16, batch: FrameSlab, now: U64) returns (ok: bool)
    requires router.Valid() && batch.Valid()
    requires router.routes as object != batch.frames  // two arrays of different element types
    modifies batch, batch.frames, router.routes, udp
    ensures router.Valid() && batch.Valid() && batch.State() == Cleared(old(batch.State()))
    ensures var fs, t := Unsent(Discarded(old(batch.State()))), old(router.Table());
      var k := Find(t, node);
      if k == |t| then ok == (fs == []) && router.Table() == t && udp.trace == old(udp.trace)
      else
        var q := OverRouter(t, node, udp.net, now, old(udp.trace), fs);
        ok == AllYes(q.oks) && router.Table() == t[k := q.end.route] && udp.trace == q.end.trace
  {
    hide Discarded, Forwarded, ForwardEach, Find;
    ghost var t0, trace0 := router.Table(), udp.trace;
    batch.DiscardFullySent();
    var first := batch.sendOffset / 24;
    var n := if first >= batch.count then 0 else batch.count - first;
    ghost var fs := Unsent(batch.State());
    assert batch.frames[first..first + n] == fs;
    var forwarded := ForwardFrames(router, udp, node, batch, first, n, now);
    ok := forwarded == n;
    if Find(t0, node) < |t0| {
      AllYesCount(OverRouter(t0, node, udp.net, now, trace0, fs).oks);
    }
    ClearForgets(old(batch.State()));
    batch.Clear();
  }

  method ForwardFrames(router: MeshRouter, udp: HopSocket, node: U16, batch: FrameSlab, first: nat, n: nat, now: U64)
      returns (forwarded: nat)
    requires router.Valid() && first + n <= batch.frames.Length
    requires router.routes as object != batch.frames  // two arrays of different element types
    modifies router.routes, udp
    ensures router.Valid()
    ensures After(old(router.Table()), node, udp.net, now, old(udp.trace), batch.frames[first..first + n],
        router.Table(), udp.trace, forwarded)
  {
    hide Forwarded, After, Find;
    ghost var t0, trace0 := router.Table(), udp.trace;
    BeforeAny(t0, node, udp.net, now, trace0);
    assert batch.frames[first..first] == [];
    forwarded := 0;
    for i := 0 to n
      invariant router.Valid()
      invariant After(t0, node, udp.net, now, trace0, batch.frames[first..first + i], router.Table(), udp.trace,
          forwarded)
    {
      ghost var fs := batch.frames[first..first + i];
      ghost var t, trace := router.Table(), udp.trace;
      var frame := batch.frames[first + i];
      assert batch.frames[first..first + i + 1] == fs + [frame];
      if Find(t0, node) < |t0| {
        AfterOneMore(t0, node, udp.net, now, trace0, fs, frame, t, trace, forwarded);
      } else {
        AfterUnknown(t0, node, udp.net, now, trace0, fs, frame, t, trace, forwarded);
      }
      var accepted := router.ForwardUdp(udp, node, frame, now);
      if accepted {
        forwarded := forwarded + 1;
      }
    }
  }

  lemma AfterUnknown(t0: seq<Route>, node: U16, net: Net, now: U64, trace0: seq<Sent>, fs: seq<Frame>, f: Frame,
      t: seq<Route>, trace: seq<Sent>, yes: nat)
    requires AllValid(t0)
    requires After(t0, node, net, now, trace0, fs, t, trace, yes) && Find(t0, node) == |t0|
    ensures t == t0
    ensures After(t0, node, net, now, trace0, fs + [f], t, trace, yes)
  {}

  // ----- the uplink's view -----

  /** The uplink's flush over the mesh, with the router's answers: every unsent frame has its own
      stretch of sends and the flush says yes exactly when a hop accepted each of them. */
  lemma MeshFlushOverRouter(e: Edge, a: Answers, t: seq<Route>, node: U16, net: Net, now: U64, trace: seq<Sent>)
    requires e.Valid() && Find(t, node) < |t| && t[Find(t, node)].Valid()
    requires var q := OverRouter(t, node, net, now, trace, Unsent(Discarded(e.batch)));
      forall i :: 0 <= i < |q.oks| ==> a.forwards(|e.meshed| + i) == q.oks[i]
    ensures var fs := Unsent(Discarded(e.batch));
      var q, f := OverRouter(t, node, net, now, trace, fs), FlushedUdpMesh(e, a);
      && f.edge.meshed == e.meshed + fs && f.edge.batch.frames == []
      && f.ok == AllYes(q.oks)
      && BatchLaw(Progress(t[Find(t, node)], trace, []), fs, q)
  {
    hide Discarded, Unsent, ForwardEach, BatchLaw, Find;
    DiscardKeepsUnsent(e.batch);
    var fs := Unsent(Discarded(e.batch));
    BatchDeliversOnce(Progress(t[Find(t, node)], trace, []), net, now, fs);
    var q := OverRouter(t, node, net, now, trace, fs);
    SameAnswers(a.forwards, |e.meshed|, q.oks);
  }

  lemma SameAnswers(answers: nat -> bool, from: nat, oks: seq<bool>)
    requires forall i :: 0 <= i < |oks| ==> answers(from + i) == oks[i]
    ensures AllAccepted(answers, from, |oks|) == AllYes(oks)
  {
    if AllAccepted(answers, from, |oks|) {
      forall i | 0 <= i < |oks|
        ensures oks[i]
      {
        assert answers(from + i);
      }
    } else {
      var k: nat :| from <= k < from + |oks| && !answers(k);
      assert !oks[k - from];
    }
  }

  // ----- all mesh traffic of a run -----

  lemma MeshedGrows(tr: Transport, e: Edge, a: Answers, ev: Event)
    requires e.Valid()
    ensures e.meshed <= Step(tr, e, a, ev).meshed
  {
    hide OverTcp, Adapted, AllAccepted, Discarded, Unsent, Uplinked, PackFrame;
    if ev.FlushNow? && (tr.TcpOnly? || tr.Auto?) {
      OverTcpMoves(Reconnected(e, ev.now, ev.accepted), a, if tr.TcpOnly? then 128 else 64);
    }
  }

  /** What a run hands to the mesh, forwarded by a router that starts with a fresh route;
      clock(n) is the time of the forwards in event n. */
  function MeshTraffic(tr: Transport, capacity: nat, a: Answers, evs: seq<Event>, node: U16, hops: seq<Endpoint>,
      net: Net, clock: nat -> U64): (q: BatchRun)
    requires 1 <= |hops| <= MAX_FALLBACKS
    ensures q.end.route.Valid()
    decreases |evs|
  {
    if evs == [] then BatchRun(Progress(NewRoute(node, hops), [], []), [], [])
    else
      var n := |evs| - 1;
      var b := MeshTraffic(tr, capacity, a, evs[..n], node, hops, net, clock);
      var e := Run(tr, capacity, a, evs[..n]);
      MeshedGrows(tr, e, a, evs[n]);
      Continued(b, ForwardEach(b.end, net, clock(n), Step(tr, e, a, evs[n]).meshed[|e.meshed|..]))
  }

  function Continued(b: BatchRun, q: BatchRun): (r: BatchRun) {
    BatchRun(q.end, b.parts + q.parts, b.oks + q.oks)
  }

  lemma {:induction false} JoinedAppend(a: seq<seq<Sent>>, b: seq<seq<Sent>>)
    ensures Joined(a + b) == Joined(a) + Joined(b)
    decreases |b|
  {
    if b == [] {
      assert a + b == a;
    } else {
      var n := |b| - 1;
      assert (a + b)[..|a + b| - 1] == a + b[..n];
      JoinedAppend(a, b[..n]);
      AppendAssoc(Joined(a), Joined(b[..n]), b[n]);
    }
  }

  lemma {:induction false} YesAppend(a: seq<bool>, b: seq<bool>)
    ensures Yes(a + b) == Yes(a) + Yes(b)
    decreases |b|
  {
    if b == [] {
      assert a + b == a;
    } else {
      var n := |b| - 1;
      assert (a + b)[..|a + b| - 1] == a + b[..n];
      YesAppend(a, b[..n]);
    }
  }

  lemma SameFrameLaw(r: Route, k: Route, frame: seq<Byte>, sends: seq<Sent>, ok: bool)
    requires |r.hops| <= MAX_FALLBACKS && r.hops == k.hops && r.mask == k.mask && FrameLaw(k, frame, sends, ok)
    ensures FrameLaw(r, frame, sends, ok)
  {
    hide Masked, Tried, OneAcceptance;
  }

  /** One batch after another is one batch. */
  lemma BatchLawContinues(p: Progress, x: seq<seq<Byte>>, b: BatchRun, y: seq<seq<Byte>>, q: BatchRun)
    requires |p.route.hops| <= MAX_FALLBACKS && BatchLaw(p, x, b)
    requires BatchKeepsHops(p, b) && BatchLaw(b.end, y, q)
    ensures BatchLaw(p, x + y, Continued(b, q))
  {
    hide AcceptedTotal, FrameLaw, Joined, Yes;
    JoinedAppend(b.parts, q.parts);
    YesAppend(b.oks, q.oks);
    AppendAssoc(p.trace, Joined(b.parts), Joined(q.parts));
    var r := Continued(b, q);
    forall i | 0 <= i < |x + y|
      ensures FrameLaw(p.route, (x + y)[i], r.parts[i], r.oks[i])
    {
      if i >= |x| {
        SameFrameLaw(p.route, b.end.route, y[i - |x|], q.parts[i - |x|], q.oks[i - |x|]);
      }
    }
  }

  ghost predicate BatchKeepsHops(p: Progress, b: BatchRun) {
    b.end.route.hops == p.route.hops
  }

  /** In every run, of whatever transport, the i-th frame handed to the mesh has the i-th stretch
      of the socket's trace: accepted by exactly one hop if its forward says yes, by none,
      every hop having refused it, otherwise. */
  lemma {:induction false} RunDeliversOnce(tr: Transport, capacity: nat, a: Answers, evs: seq<Event>, node: U16,
      hops: seq<Endpoint>, net: Net, clock: nat -> U64)
    requires 1 <= |hops| <= MAX_FALLBACKS
    ensures BatchLaw(Progress(NewRoute(node, hops), [], []), Run(tr, capacity, a, evs).meshed,
        MeshTraffic(tr, capacity, a, evs, node, hops, net, clock))
    decreases |evs|
  {
    hide Step, ForwardEach, BatchLaw;
    var start := Progress(NewRoute(node, hops), [], []);
    if evs == [] {
      EmptyBatch(start);
    } else {
      var n := |evs| - 1;
      RunDeliversOnce(tr, capacity, a, evs[..n], node, hops, net, clock);
      var b := MeshTraffic(tr, capacity, a, evs[..n], node, hops, net, clock);
      var e := Run(tr, capacity, a, evs[..n]);
      MeshedGrows(tr, e, a, evs[n]);
      var all := Step(tr, e, a, evs[n]).meshed;
      var fs := all[|e.meshed|..];
      assert all == e.meshed + fs;
      BatchKeepsRoute(start, e.meshed, b);
      BatchDeliversOnce(b.end, net, clock(n), fs);
      BatchLawContinues(start, e.meshed, b, fs, ForwardEach(b.end, net, clock(n), fs));
    }
  }
}

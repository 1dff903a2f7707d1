/** How the edge empties its batch: the reconnect gate, the four transports and the
    fail-over from a stalled TCP stream to the mesh. */
module Uplink {
  import opened Basics
  import opened Bytes
  import opened WireFrame
  import opened StreamScan
  import opened FrameBatch

  datatype Transport = Auto | TcpOnly | UdpOnly | MeshOnly

  // ----- the reconnect gate -----

  const MS := 1_000_000
  const FIRST_BACKOFF := 50
  const LAST_BACKOFF := 2000

  datatype Gate = Gate(nextNs: nat, backoffMs: nat)

  const OPEN_GATE := Gate(0, FIRST_BACKOFF)

  /** Whether a call at time `now` gets as far as connect. */
  predicate Attempts(g: Gate, t: Tcp, now: nat) {
    !t.connected && now >= g.nextNs
  }

  /** `accepted` is what connect would answer. */
  function Uplinked(g: Gate, t: Tcp, now: nat, accepted: bool): (r: (Gate, Tcp))
    ensures t.Valid() ==> r.1.Valid()
  {
    if !Attempts(g, t, now) then (g, t)
    else if accepted then (OPEN_GATE, Connected(t, true))
    else (Gate(now + g.backoffMs * MS, Min(LAST_BACKOFF, g.backoffMs * 2)), Connected(t, false))
  }

  /** The times at which connect is really called when the gate is asked at the given
      times and every connect is refused. */
  function RefusedAt(g: Gate, calls: seq<nat>): (r: seq<nat>)
    decreases |calls|
  {
    if calls == [] then []
    else
      var down := Tcp(false, [], 0);
      var g' := Uplinked(g, down, calls[0], false).0;
      (if Attempts(g, down, calls[0]) then [calls[0]] else []) + RefusedAt(g', calls[1..])
  }

  /** The wait in force after k refusals in a row. */
  function Backoff(k: nat): (r: nat) {
    Min(2000, 50 * Pow2(k))
  }

  lemma BackoffDoubles(k: nat)
    ensures Min(LAST_BACKOFF, Backoff(k) * 2) == Backoff(k + 1)
  {}

  /** However often the gate is asked, the k-th and next refused connects are at least
      min(2000, 50 * 2^k) milliseconds apart. */
  lemma {:induction false} RefusalsSpaced(g: Gate, calls: seq<nat>, k: nat)
    requires g.backoffMs == Backoff(k)
    ensures var r := RefusedAt(g, calls);
      && (r != [] ==> r[0] >= g.nextNs)
      && forall i :: 0 <= i < |r| - 1 ==> r[i + 1] >= r[i] + Backoff(k + i) * 1_000_000
    decreases |calls|
  {
    hide Backoff;
    if calls != [] {
      var down := Tcp(false, [], 0);
      var g' := Uplinked(g, down, calls[0], false).0;
      if Attempts(g, down, calls[0]) {
        BackoffDoubles(k);
        RefusalsSpaced(g', calls[1..], k + 1);
        SpacedAfter(calls[0], RefusedAt(g', calls[1..]), k);
      } else {
        RefusalsSpaced(g, calls[1..], k);
        assert RefusedAt(g, calls) == RefusedAt(g, calls[1..]);
      }
    }
  }

  lemma SpacedAfter(first: nat, t: seq<nat>, k: nat)
    requires t != [] ==> t[0] >= first + Backoff(k) * MS
    requires forall i :: 0 <= i < |t| - 1 ==> t[i + 1] >= t[i] + Backoff(k + 1 + i) * MS
    ensures var r := [first] + t;
      forall i :: 0 <= i < |r| - 1 ==> r[i + 1] >= r[i] + Backoff(k + i) * MS
  {}

  // ----- the gate over a whole history -----

  datatype GateEvent = Ask(now: nat, accepted: bool) | Lost

  function GateRun(evs: seq<GateEvent>): (r: (Gate, Tcp)) {
    if evs == [] then (OPEN_GATE, Tcp(false, [], 0))
    else
      var (g, t) := GateRun(evs[..|evs| - 1]);
      match evs[|evs| - 1]
      case Lost => (g, Closed(t))
      case Ask(now, accepted) => Uplinked(g, t, now, accepted)
  }

  /** Whether there is a connection, the connects refused since one last succeeded, and the time of
      the latest. */
  datatype Link = Link(up: bool, refused: nat, latest: nat)

  /** When connect is next worth trying: 50 ms after a first refusal, twice as long after each
      further one, two seconds at most. */
  function OpensAt(l: Link): (t: nat) {
    if l.refused == 0 then 0 else l.latest + Min(2000, 50 * Pow2(l.refused - 1)) * 1_000_000
  }

  function LinkAfter(evs: seq<GateEvent>): (l: Link) {
    if evs == [] then Link(false, 0, 0)
    else
      var l := LinkAfter(evs[..|evs| - 1]);
      match evs[|evs| - 1]
      case Lost => l.(up := false)
      case Ask(now, accepted) =>
        if l.up || now < OpensAt(l) then l
        else if accepted then Link(true, 0, 0)
        else Link(false, l.refused + 1, now)
  }

  /** Whatever the history of asking, connecting and losing the connection: after k refusals in
      a row the gate waits min(2000, 50 * 2^(k-1)) ms from the latest; a success starts over. */
  lemma {:induction false} GateFollowsRefusals(evs: seq<GateEvent>)
    ensures var l := LinkAfter(evs);
      && GateRun(evs).0 == Gate(OpensAt(l), Backoff(l.refused))
      && GateRun(evs).1.connected == l.up
    decreases |evs|
  {
    hide Backoff;
    FirstBackoff();
    if evs != [] {
      var before := evs[..|evs| - 1];
      GateFollowsRefusals(before);
      BackoffDoubles(LinkAfter(before).refused);
      BackoffIs(LinkAfter(before).refused);
    }
  }

  lemma BackoffIs(k: nat)
    ensures Backoff(k) == Min(2000, 50 * Pow2(k))
  {}

  /** Asked while there is no connection: before its time the gate changes nothing, from then on it
      connects if connect is accepted. */
  lemma GateOpensInTime(evs: seq<GateEvent>, now: nat, accepted: bool)
    requires !LinkAfter(evs).up
    ensures var t, t' := GateRun(evs).1, GateRun(evs + [Ask(now, accepted)]).1;
      && (now < OpensAt(LinkAfter(evs)) ==> t' == t && !t'.connected)
      && (now >= OpensAt(LinkAfter(evs)) ==> t'.connected == accepted)
      && t'.logs == t.logs + (if now >= OpensAt(LinkAfter(evs)) && accepted then [[]] else [])
  {
    hide OpensAt;
    GateFollowsRefusals(evs);
    assert (evs + [Ask(now, accepted)])[..|evs|] == evs;
  }

  lemma FirstBackoff()
    ensures Backoff(0) == FIRST_BACKOFF
  {}

  // ----- flushing the batch -----

  /** What the outside answers: the TCP socket, the mesh router and the datagram socket,
      each by the number of the call. */
  datatype Answers = Answers(sends: SendOracle, forwards: nat -> bool, datagrams: nat -> bool)

  /** `meshed` and `direct` are the frames handed to the router and to the operator's
      datagram port; `pushed` is every frame the batch ever took. */
  datatype Edge = Edge(
    batch: Batch, tcp: Tcp, gate: Gate, meshed: seq<Frame>, direct: seq<Frame>, pushed: seq<Frame>,
    failovers: nat, aborts: nat, rescued: nat) {

    ghost predicate Valid() {
      batch.Valid() && tcp.Valid() && (batch.offset < 24 * |batch.frames| || batch.frames == [])
    }
  }

  datatype Outcome = Outcome(edge: Edge, ok: bool)

  predicate AllAccepted(answers: nat -> bool, from: nat, n: nat) {
    forall k: nat :: from <= k < from + n ==> answers(k)
  }

  function FlushedUdpDirect(e: Edge, a: Answers): (r: Outcome)
    requires e.Valid()
    ensures r.edge.Valid()
  {
    var b := Discarded(e.batch);
    var fs := Unsent(b);
    Outcome(e.(batch := Cleared(b), direct := e.direct + fs), AllAccepted(a.datagrams, |e.direct|, |fs|))
  }

  function FlushedUdpMesh(e: Edge, a: Answers): (r: Outcome)
    requires e.Valid()
    ensures r.edge.Valid()
  {
    var b := Discarded(e.batch);
    var fs := Unsent(b);
    Outcome(e.(batch := Cleared(b), meshed := e.meshed + fs), AllAccepted(a.forwards, |e.meshed|, |fs|))
  }

  /** Up to `attempts` rounds over TCP, if there is a connection at all. */
  function OverTcp(e: Edge, a: Answers, attempts: nat): (r: Outcome)
    requires e.Valid()
    ensures r.edge.Valid()
  {
    if !e.tcp.connected then Outcome(e, false)
    else
      FlushedWithinMoves(e.batch, e.tcp, a.sends, attempts);
      var f := FlushedWithin(e.batch, e.tcp, a.sends, attempts);
      Outcome(e.(batch := f.batch, tcp := f.tcp), f.ok)
  }

  /** The mesh takes what TCP did not finish, and a stream cut short is given up. */
  function FailOver(e: Edge, a: Answers): (r: Outcome)
    requires e.Valid()
    ensures r.edge.Valid()
  {
    var m := FlushedUdpMesh(e.(failovers := e.failovers + 1, rescued := e.rescued + UnsentCount(e.batch)), a);
    if e.batch.offset > 0 && e.tcp.connected
    then Outcome(m.edge.(tcp := Closed(e.tcp), aborts := e.aborts + 1), m.ok)
    else m
  }

  function Reconnected(e: Edge, now: nat, accepted: bool): (r: Edge)
    requires e.Valid()
    ensures r.Valid()
  {
    var (g, t) := Uplinked(e.gate, e.tcp, now, accepted);
    e.(gate := g, tcp := t)
  }

  /** now: the clock when the gate is asked; accepted: what connect would answer;
      flushNs: how long the TCP part took. */
  function FlushedBatch(tr: Transport, e: Edge, a: Answers, now: nat, accepted: bool, flushNs: nat): (r: Outcome)
    requires e.Valid()
    ensures r.edge.Valid()
  {
    match tr
    case UdpOnly => FlushedUdpDirect(e, a)
    case MeshOnly => FlushedUdpMesh(e, a)
    case TcpOnly =>
      var s := OverTcp(Reconnected(e, now, accepted), a, 128);
      Outcome(s.edge.(batch := Adapted(s.edge.batch, s.ok, flushNs)), s.ok)
    case Auto =>
      var s := OverTcp(Reconnected(e, now, accepted), a, 64);
      var b := s.edge.(batch := Adapted(s.edge.batch, s.ok, flushNs));
      if s.ok then Outcome(b, true) else FailOver(b, a)
  }

  /** A batch is empty after every flush, except that TCP-only keeps what it could not send. */
  lemma FlushEmpties(tr: Transport, e: Edge, a: Answers, now: nat, accepted: bool, flushNs: nat)
    requires e.Valid()
    ensures var r := FlushedBatch(tr, e, a, now, accepted, flushNs);
      && (tr != TcpOnly || r.ok ==> r.edge.batch.frames == [] && r.edge.batch.offset == 0)
      && (tr == TcpOnly && !r.ok ==> r.edge.batch.frames == e.batch.frames && r.edge.batch.offset >= e.batch.offset)
  {
    hide FlushedWithin;
    if tr.TcpOnly? || tr.Auto? {
      OverTcpMoves(Reconnected(e, now, accepted), a, if tr.TcpOnly? then 128 else 64);
    }
  }

  lemma OverTcpMoves(e: Edge, a: Answers, attempts: nat)
    requires e.Valid()
    ensures var r := OverTcp(e, a, attempts);
      && Moves(e.batch, e.tcp, Flush(r.edge.batch, r.edge.tcp, r.ok))
      && r.edge == e.(batch := r.edge.batch, tcp := r.edge.tcp)
  {
    hide Took, FlushedWithin;
    if e.tcp.connected {
      FlushedWithinMoves(e.batch, e.tcp, a.sends, attempts);
    } else {
      TookNothing(e.batch, e.tcp, e.tcp);
    }
  }

  // ----- whole runs -----

  datatype Event =
    | Push(sample: SensorSample)
    | FlushNow(now: nat, accepted: bool, flushNs: nat)
    | Connect(now: nat, accepted: bool)

  function Start(capacity: nat): (r: Edge)
    ensures r.Valid()
  {
    Edge(Batch([], 0, capacity, capacity), Tcp(false, [], 0), OPEN_GATE, [], [], [], 0, 0, 0)
  }

  function PushSample(e: Edge, s: SensorSample): (r: Edge)
    requires e.Valid()
    ensures r.Valid()
  {
    if |e.batch.frames| >= e.batch.capacity then e
    else e.(batch := Pushed(e.batch, PackFrame(s)), pushed := e.pushed + [PackFrame(s)])
  }

  function Step(tr: Transport, e: Edge, a: Answers, ev: Event): (r: Edge)
    requires e.Valid()
    ensures r.Valid()
  {
    match ev
    case Push(s) => PushSample(e, s)
    case FlushNow(now, accepted, flushNs) => FlushedBatch(tr, e, a, now, accepted, flushNs).edge
    case Connect(now, accepted) => Reconnected(e, now, accepted)
  }

  function Run(tr: Transport, capacity: nat, a: Answers, evs: seq<Event>): (r: Edge)
    ensures r.Valid()
    decreases |evs|
  {
    if evs == [] then Start(capacity)
    else Step(tr, Run(tr, capacity, a, evs[..|evs| - 1]), a, evs[|evs| - 1])
  }

  /** Every frame ever pushed verifies. */
  lemma {:induction false} PushedVerify(tr: Transport, capacity: nat, a: Answers, evs: seq<Event>)
    ensures AllVerify(Run(tr, capacity, a, evs).pushed)
    decreases |evs|
  {
    hide VerifyFrame, PackFrame, FlushedBatch;
    if evs != [] {
      PushedVerify(tr, capacity, a, evs[..|evs| - 1]);
      var e := Run(tr, capacity, a, evs[..|evs| - 1]);
      match evs[|evs| - 1]
      case Push(s) =>
        PackRoundTrip(s);
      case FlushNow(now, accepted, flushNs) =>
        FlushKeepsPushed(tr, e, a, now, accepted, flushNs);
      case Connect(_, _) =>
    }
  }

  lemma FlushKeepsPushed(tr: Transport, e: Edge, a: Answers, now: nat, accepted: bool, flushNs: nat)
    requires e.Valid()
    ensures FlushedBatch(tr, e, a, now, accepted, flushNs).edge.pushed == e.pushed
  {}

  /** Every pushed frame that left the batch was handed to one port exactly once, in push order,
      and the other port saw none. */
  ghost predicate HandedOnce(tr: Transport, e: Edge) {
    && e.pushed == (if tr.UdpOnly? then e.direct else e.meshed) + e.batch.frames
    && (if tr.UdpOnly? then e.meshed else e.direct) == []
    && e.batch.offset == 0
  }

  lemma FlushHandsOnce(tr: Transport, e: Edge, a: Answers, now: nat, accepted: bool, flushNs: nat)
    requires tr.UdpOnly? || tr.MeshOnly?
    requires e.Valid() && HandedOnce(tr, e)
    ensures HandedOnce(tr, FlushedBatch(tr, e, a, now, accepted, flushNs).edge)
  {
    hide AllAccepted, Reconnected, OverTcp, FailOver;
    assert Unsent(Discarded(e.batch)) == e.batch.frames;
  }

  lemma PushHandsOnce(tr: Transport, e: Edge, s: SensorSample)
    requires e.Valid() && HandedOnce(tr, e)
    ensures HandedOnce(tr, PushSample(e, s))
  {
    hide PackFrame;
    if |e.batch.frames| < e.batch.capacity {
      AppendAssoc(if tr.UdpOnly? then e.direct else e.meshed, e.batch.frames, [PackFrame(s)]);
    }
  }

  /** In every datagram or mesh run. */
  lemma {:induction false} DatagramsHandedOnce(tr: Transport, capacity: nat, a: Answers, evs: seq<Event>)
    requires tr.UdpOnly? || tr.MeshOnly?
    ensures HandedOnce(tr, Run(tr, capacity, a, evs))
    decreases |evs|
  {
    hide FlushedBatch, PushSample, Uplinked;
    if evs != [] {
      var before := evs[..|evs| - 1];
      DatagramsHandedOnce(tr, capacity, a, before);
      var e := Run(tr, capacity, a, before);
      match evs[|evs| - 1]
      case Push(s) =>
        PushHandsOnce(tr, e, s);
      case FlushNow(now, accepted, flushNs) =>
        FlushHandsOnce(tr, e, a, now, accepted, flushNs);
      case Connect(_, _) =>
    }
  }

  lemma ClearForgets(b: Batch)
    requires b.Valid()
    ensures Cleared(Discarded(b)) == Cleared(b)
  {}

  lemma AdaptKeeps(b: Batch, fullySent: bool, flushNs: nat)
    ensures var r := Adapted(b, fullySent, flushNs);
      r.frames == b.frames && r.offset == b.offset && r.capacity == b.capacity
  {}

  // ----- the classes that do this in place -----

  class ReconnectGate {
    var nextNs: nat
    var backoffMs: nat

    ghost function State(): (r: Gate)
      reads this
    {
      Gate(nextNs, backoffMs)
    }

    constructor ()
      ensures State() == OPEN_GATE
    {
      nextNs, backoffMs := 0, FIRST_BACKOFF;
    }

    method TryConnect(tcp: TcpClient, now: nat, accepted: bool) returns (up: bool)
      requires tcp.Valid()
      modifies this, tcp
      ensures tcp.Valid() && up == tcp.connected
      ensures (State(), tcp.State()) == Uplinked(old(State()), old(tcp.State()), now, accepted)
    {
      if tcp.connected {
        return true;
      }
      if now < nextNs {
        return false;
      }
      tcp.Connect(accepted);
      if accepted {
        backoffMs := FIRST_BACKOFF;
        nextNs := 0;
        return true;
      }
      nextNs := now + backoffMs * MS;
      backoffMs := Min(LAST_BACKOFF, backoffMs * 2);
      return false;
    }
  }

  /** Where single frames are handed to: the mesh router or the operator's datagram port. */
  class FramePort {
    var handed: seq<Frame>
    const answers: nat -> bool

    constructor (answers: nat -> bool)
      ensures handed == [] && this.answers == answers
    {
      handed := [];
      this.answers := answers;
    }

    method Send(f: Frame) returns (accepted: bool)
      modifies this
      ensures handed == old(handed) + [f] && accepted == answers(|old(handed)|)
    {
      accepted := answers(|handed|);
      handed := handed + [f];
    }
  }

  class EdgeUplink {
    const batch: FrameSlab
    const tcp: TcpClient
    const gate: ReconnectGate
    const router: FramePort
    const udp: FramePort
    var failovers: nat
    var aborts: nat
    var rescued: nat
    ghost var pushed: seq<Frame>

    ghost predicate Valid()
      reads this, batch, batch.frames, tcp, gate, router, udp
    {
      router != udp && batch.Valid() && State().Valid()
    }

    ghost function State(): (r: Edge)
      requires batch.Valid()
      reads this, batch, batch.frames, tcp, gate, router, udp
    {
      Edge(batch.State(), tcp.State(), gate.State(), router.handed, udp.handed, pushed, failovers, aborts, rescued)
    }

    ghost function Outside(): (r: Answers) {
      Answers(tcp.answers, router.answers, udp.answers)
    }

    constructor (capacity: nat, outside: Answers)
      ensures Valid() && Outside() == outside && State() == Start(capacity)
      ensures fresh(batch) && fresh(batch.frames) && fresh(tcp) && fresh(gate) && fresh(router) && fresh(udp)
    {
      batch := new FrameSlab(capacity);
      tcp := new TcpClient(outside.sends);
      gate := new ReconnectGate();
      router := new FramePort(outside.forwards);
      udp := new FramePort(outside.datagrams);
      failovers, aborts, rescued := 0, 0, 0;
      pushed := [];
    }

    method PushFrame(sample: SensorSample) returns (stored: bool)
      requires Valid()
      modifies this`pushed, batch`count, batch.frames
      ensures Valid() && State() == PushSample(old(State()), sample)
      ensures stored <==> |old(State()).batch.frames| < old(State()).batch.capacity
    {
      hide PackFrame;
      stored := batch.Push(sample);
      if stored {
        pushed := pushed + [PackFrame(sample)];
      }
    }

    /** Hands n frames to a port one by one. */
    method SendEach(port: FramePort, first: nat, n: nat) returns (ok: bool)
      requires first + n <= batch.frames.Length
      modifies port
      ensures port.handed == old(port.handed) + batch.frames[first..first + n]
      ensures ok == AllAccepted(port.answers, |old(port.handed)|, n)
    {
      ghost var base := port.handed;
      var forwarded := 0;
      for i := 0 to n
        invariant port.handed == base + batch.frames[first..first + i]
        invariant forwarded <= i && (forwarded == i <==> AllAccepted(port.answers, |base|, i))
      {
        var accepted := port.Send(batch.frames[first + i]);
        if accepted {
          forwarded := forwarded + 1;
        }
      }
      return forwarded == n;
    }

    /** Hands the unsent frames to a port and empties the batch. */
    method HandOver(port: FramePort) returns (ok: bool)
      requires Valid() && port in {router, udp}
      modifies batch, batch.frames, port
      ensures batch.Valid() && batch.State() == Cleared(old(batch.State()))
      ensures var fs := Unsent(Discarded(old(batch.State())));
        port.handed == old(port.handed) + fs && ok == AllAccepted(port.answers, |old(port.handed)|, |fs|)
    {
      hide Discarded, AllAccepted;
      batch.DiscardFullySent();
      var first := batch.sendOffset / 24;
      var n := if first >= batch.count then 0 else batch.count - first;
      ghost var fs := Unsent(batch.State());
      assert batch.frames[first..first + n] == fs;
      ok := SendEach(port, first, n);
      ClearForgets(old(batch.State()));
      batch.Clear();
    }

    method FlushUdpDirect() returns (ok: bool)
      requires Valid()
      modifies batch, batch.frames, udp
      ensures Valid() && Outcome(State(), ok) == FlushedUdpDirect(old(State()), Outside())
    {
      ok := HandOver(udp);
    }

    method FlushUdpMesh() returns (ok: bool)
      requires Valid()
      modifies batch, batch.frames, router
      ensures Valid() && Outcome(State(), ok) == FlushedUdpMesh(old(State()), Outside())
    {
      ok := HandOver(router);
    }

    method FlushBatch(tr: Transport, now: nat, accepted: bool, flushNs: nat) returns (ok: bool)
      requires Valid()
      modifies this, batch, batch.frames, tcp, gate, router, udp
      ensures Valid()
      ensures Outcome(State(), ok) == FlushedBatch(tr, old(State()), Outside(), now, accepted, flushNs)
    {
      hide Reconnected, OverTcp, FailOver, FlushedUdpDirect, FlushedUdpMesh, Adapted;
      match tr {
        case UdpOnly =>
          ok := FlushUdpDirect();
        case MeshOnly =>
          ok := FlushUdpMesh();
        case TcpOnly =>
          ok := TcpRounds(now, accepted, 128, flushNs);
        case Auto =>
          ok := TcpRounds(now, accepted, 64, flushNs);
          if !ok {
            ok := TakeToMesh();
          }
      }
    }

    method TakeToMesh() returns (ok: bool)
      requires Valid()
      modifies this`failovers, this`aborts, this`rescued, batch, batch.frames, tcp, router
      ensures Valid() && Outcome(State(), ok) == FailOver(old(State()), Outside())
    {
      hide Discarded, Unsent;
      var hadPartial := batch.sendOffset > 0;
      var first := batch.sendOffset / 24;
      failovers := failovers + 1;
      rescued := rescued + (if first >= batch.count then 0 else batch.count - first);
      ok := FlushUdpMesh();
      if hadPartial && tcp.connected {
        tcp.Close();
        aborts := aborts + 1;
      }
    }

    /** The TCP part of a flush: the gate, the rounds of sending, the adapted target. */
    method TcpRounds(now: nat, accepted: bool, attempts: nat, flushNs: nat) returns (ok: bool)
      requires Valid()
      modifies batch, tcp, gate
      ensures Valid()
      ensures var s := OverTcp(Reconnected(old(State()), now, accepted), Outside(), attempts);
        ok == s.ok && State() == s.edge.(batch := Adapted(s.edge.batch, s.ok, flushNs))
    {
      hide FlushedWithin, Uplinked, Adapted;
      var up := gate.TryConnect(tcp, now, accepted);
      ok := false;
      if up {
        FlushedWithinMoves(batch.State(), tcp.State(), tcp.answers, attempts);
        ok := batch.FlushTcpRetry(tcp, attempts);
      }
      ghost var b := batch.State();
      AdaptKeeps(b, ok, flushNs);
      batch.Adapt(ok, flushNs);
    }
  }
}

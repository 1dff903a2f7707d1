/** When a flush gets through: exactly which answers of the socket let it, and what an edge does
    otherwise. */
module FlushProgress {
  import opened Basics
  import opened Bytes
  import opened WireFrame
  import opened StreamScan
  import opened FrameBatch
  import opened Uplink

  // ----- the socket's answers -----

  /** Bytes the socket would take with m answers from the k-th on. */
  function Offered(o: SendOracle, k: nat, m: nat): (n: nat) {
    if m == 0 then 0 else Offered(o, k, m - 1) + (if o(k + m - 1) > 0 then o(k + m - 1) else 0)
  }

  /** How many of these answers are that it would block. */
  function Stalls(o: SendOracle, k: nat, m: nat): (n: nat) {
    if m == 0 then 0 else Stalls(o, k, m - 1) + (if o(k + m - 1) == 0 then 1 else 0)
  }

  ghost predicate NoError(o: SendOracle, k: nat, m: nat) {
    forall j: nat :: k <= j < k + m ==> o(j) >= 0
  }

  /** m answers that take `need` bytes with no hard error and fewer than `attempts` stalls. */
  ghost predicate Enough(o: SendOracle, k: nat, need: nat, attempts: nat, m: nat) {
    NoError(o, k, m) && Offered(o, k, m) >= need && Stalls(o, k, m) < attempts
  }

  /** The socket takes `need` bytes before a hard error and before it has stalled `attempts` times. */
  ghost predicate Takes(o: SendOracle, k: nat, need: nat, attempts: nat) {
    exists m: nat :: Enough(o, k, need, attempts, m)
  }

  /** m answers short of `need` bytes and of `attempts` stalls, and then a hard error. */
  ghost predicate Breaking(o: SendOracle, k: nat, need: nat, attempts: nat, m: nat) {
    NoError(o, k, m) && Offered(o, k, m) < need && Stalls(o, k, m) < attempts && o(k + m) < 0
  }

  ghost predicate Breaks(o: SendOracle, k: nat, need: nat, attempts: nat) {
    exists m: nat :: Breaking(o, k, need, attempts, m)
  }

  lemma {:induction false} FirstAnswer(o: SendOracle, k: nat, m: nat)
    requires m > 0
    ensures Offered(o, k, m) == (if o(k) > 0 then o(k) else 0) + Offered(o, k + 1, m - 1)
    ensures Stalls(o, k, m) == (if o(k) == 0 then 1 else 0) + Stalls(o, k + 1, m - 1)
    decreases m
  {
    if m > 1 {
      FirstAnswer(o, k, m - 1);
    }
  }

  /** One answer more or less. */
  lemma AnswerPeels(o: SendOracle, k: nat, need: nat, attempts: nat, m: nat)
    requires o(k) >= 0 && o(k) < need && (o(k) == 0 ==> attempts > 1)
    ensures Enough(o, k, need, attempts, m + 1)
      <==> Enough(o, k + 1, need - o(k), if o(k) == 0 then attempts - 1 else attempts, m)
    ensures Breaking(o, k, need, attempts, m + 1)
      <==> Breaking(o, k + 1, need - o(k), if o(k) == 0 then attempts - 1 else attempts, m)
  {
    FirstAnswer(o, k, m + 1);
    assert NoError(o, k, m + 1) <==> NoError(o, k + 1, m) by {
      if NoError(o, k + 1, m) {
        forall j: nat | k <= j < k + (m + 1)
          ensures o(j) >= 0
        {}
      }
    }
  }

  lemma TakesPeels(o: SendOracle, k: nat, need: nat, attempts: nat)
    requires o(k) >= 0 && o(k) < need && (o(k) == 0 ==> attempts > 1)
    ensures Takes(o, k, need, attempts)
      <==> Takes(o, k + 1, need - o(k), if o(k) == 0 then attempts - 1 else attempts)
    ensures Breaks(o, k, need, attempts)
      <==> Breaks(o, k + 1, need - o(k), if o(k) == 0 then attempts - 1 else attempts)
  {
    hide Enough, Breaking;
    var next, rest, less := k + 1, need - o(k), if o(k) == 0 then attempts - 1 else attempts;
    NoAnswerYet(o, k, need, attempts);
    if m: nat :| Enough(o, k, need, attempts, m) {
      assert m > 0;
      AnswerPeels(o, k, need, attempts, m - 1);
    }
    if m: nat :| Enough(o, next, rest, less, m) {
      AnswerPeels(o, k, need, attempts, m);
    }
    if m: nat :| Breaking(o, k, need, attempts, m) {
      assert m > 0;
      AnswerPeels(o, k, need, attempts, m - 1);
    }
    if m: nat :| Breaking(o, next, rest, less, m) {
      AnswerPeels(o, k, need, attempts, m);
    }
  }

  lemma NoAnswerYet(o: SendOracle, k: nat, need: nat, attempts: nat)
    requires need > 0 && o(k) >= 0
    ensures !Enough(o, k, need, attempts, 0) && !Breaking(o, k, need, attempts, 0)
  {}

  /** The first answer decides. */
  lemma DecidedAtOnce(o: SendOracle, k: nat, need: nat, attempts: nat)
    requires need > 0 && attempts > 0
    ensures o(k) < 0 ==> !Takes(o, k, need, attempts) && Breaks(o, k, need, attempts)
    ensures o(k) >= need ==> Takes(o, k, need, attempts) && !Breaks(o, k, need, attempts)
    ensures o(k) == 0 && attempts == 1 ==> !Takes(o, k, need, attempts) && !Breaks(o, k, need, attempts)
  {
    if o(k) < 0 {
      assert Breaking(o, k, need, attempts, 0);
    } else if o(k) >= need {
      assert NoError(o, k, 1);
      assert Offered(o, k, 0) == 0 && Stalls(o, k, 0) == 0;
      assert Enough(o, k, need, attempts, 1);
    }
    forall m: nat
      ensures o(k) < 0 ==> !Enough(o, k, need, attempts, m)
      ensures o(k) >= need ==> !Breaking(o, k, need, attempts, m)
      ensures o(k) == 0 && attempts == 1 ==> !Enough(o, k, need, attempts, m) && !Breaking(o, k, need, attempts, m)
    {
      if m > 0 {
        FirstAnswer(o, k, m);
        assert k <= k < k + m;
      }
    }
  }

  // ----- a flush follows its answers -----

  function Need(b: Batch): (n: nat)
    requires b.Valid()
  {
    24 * |b.frames| - b.offset
  }

  function Pending(b: Batch): (r: seq<Byte>)
    requires b.Valid()
    ensures |r| == Need(b)
  {
    ConcatLength(b.frames);
    b.Bytes()[b.offset..]
  }

  ghost predicate Ready(b: Batch, t: Tcp) {
    b.Valid() && t.Valid() && t.connected && b.offset < 24 * |b.frames|
  }

  /** What the next answer of the socket means for a flush. */
  lemma OneAnswer(b: Batch, t: Tcp, o: SendOracle, attempts: nat)
    requires Ready(b, t) && attempts > 0
    ensures var r, n, u := FlushedWithin(b, t, o, attempts), o(t.sends), t.(sends := t.sends + 1);
      && (n < 0 ==> !r.ok && !r.tcp.connected)
      && (n >= Need(b) ==> r.ok && r.tcp.connected)
      && (n == 0 && attempts == 1 ==> !r.ok && r.tcp.connected)
  {
    ConcatLength(b.frames);
    var (t', n) := Send(t, o, Pending(b));
    if n > 0 && n == Need(b) {
      var done := b.(offset := b.offset + n);
      assert SendLoop(done, t', o) == Flush(Cleared(done), t', true);
      assert SendLoop(b, t, o) == SendLoop(done, t', o);
    } else if n <= 0 {
      assert SendLoop(b, t, o) == Flush(b, t', false);
    }
  }

  lemma AfterStall(b: Batch, t: Tcp, o: SendOracle, attempts: nat)
    requires Ready(b, t) && attempts > 1 && o(t.sends) == 0
    ensures FlushedWithin(b, t, o, attempts) == FlushedWithin(b, Send(t, o, Pending(b)).0, o, attempts - 1)
    ensures Ready(b, Send(t, o, Pending(b)).0)
    ensures Send(t, o, Pending(b)).0.sends == t.sends + 1
  {
    ConcatLength(b.frames);
    var t' := Send(t, o, Pending(b)).0;
    assert SendLoop(b, t, o) == Flush(b, t', false);
  }

  lemma AfterBytes(b: Batch, t: Tcp, o: SendOracle, attempts: nat)
    requires Ready(b, t) && attempts > 0 && 0 < o(t.sends) < Need(b)
    ensures var t', c := Send(t, o, Pending(b)).0, b.(offset := b.offset + o(t.sends));
      && Ready(c, t') && t'.sends == t.sends + 1 && Need(c) == Need(b) - o(t.sends)
      && FlushedWithin(b, t, o, attempts).ok == FlushedWithin(c, t', o, attempts).ok
      && FlushedWithin(b, t, o, attempts).tcp == FlushedWithin(c, t', o, attempts).tcp
  {
    ConcatLength(b.frames);
    var (t', n) := Send(t, o, Pending(b));
    var c := b.(offset := b.offset + n);
    assert SendLoop(b, t, o) == SendLoop(c, t', o);
    assert Flushed(b, t, o) == Flushed(c, t', o);
  }

  /** With frames waiting and a connection up, a flush of so many attempts ends well exactly when the
      socket takes all that is unsent before a hard error and before stalling that often; when it
      does not, the connection is lost exactly when a hard error came first. */
  lemma {:induction false} FlushSucceedsExactly(b: Batch, t: Tcp, o: SendOracle, attempts: nat)
    requires b.Valid() && t.Valid() && t.connected && b.offset < 24 * |b.frames| && attempts > 0
    ensures FlushedWithin(b, t, o, attempts).ok <==> Takes(o, t.sends, 24 * |b.frames| - b.offset, attempts)
    ensures FlushedWithin(b, t, o, attempts).tcp.connected
      <==> !Breaks(o, t.sends, 24 * |b.frames| - b.offset, attempts)
    ensures FlushedWithin(b, t, o, attempts).ok ==> FlushedWithin(b, t, o, attempts).tcp.connected
    decreases attempts, 24 * |b.frames| - b.offset
  {
    hide FlushedWithin, Takes, Breaks, Send;
    var n, need := o(t.sends), Need(b);
    if n < 0 || n >= need || (n == 0 && attempts == 1) {
      DecidedAtOnce(o, t.sends, need, attempts);
      OneAnswer(b, t, o, attempts);
    } else {
      TakesPeels(o, t.sends, need, attempts);
      ConcatLength(b.frames);
      var t' := Send(t, o, Pending(b)).0;
      if n == 0 {
        AfterStall(b, t, o, attempts);
        FlushSucceedsExactly(b, t', o, attempts - 1);
      } else {
        AfterBytes(b, t, o, attempts);
        FlushSucceedsExactly(b.(offset := b.offset + n), t', o, attempts);
      }
    }
  }

  // ----- the flush target over many flushes -----

  /** How a flush went: whether everything was sent, and how long it took. */
  datatype Went = Went(fullySent: bool, ns: nat)

  function AdaptedBy(b: Batch, went: seq<Went>): (r: Batch) {
    if went == [] then b
    else Adapted(AdaptedBy(b, went[..|went| - 1]), went[|went| - 1].fullySent, went[|went| - 1].ns)
  }

  function Halved(x: nat, k: nat): (r: nat) {
    if k == 0 then x else Halved(x, k - 1) / 2
  }

  /** k flushes in a row that stall or take over two milliseconds halve the target k times, down to one
      frame; k that finish in under 200 microseconds raise it by k, up to the capacity; any other
      leaves it alone. */
  lemma {:induction false} TargetAfter(b: Batch, went: seq<Went>)
    requires 1 <= b.flushAt <= b.capacity
    ensures (forall w :: w in went ==> !w.fullySent || w.ns > 2_000_000) ==>
      AdaptedBy(b, went).flushAt == Max(1, Halved(b.flushAt, |went|))
    ensures (forall w :: w in went ==> w.fullySent && w.ns < 200_000) ==>
      AdaptedBy(b, went).flushAt == Min(b.capacity, b.flushAt + |went|)
    ensures (forall w :: w in went ==> w.fullySent && 200_000 <= w.ns <= 2_000_000) ==>
      AdaptedBy(b, went).flushAt == b.flushAt
    ensures AdaptedBy(b, went) == b.(flushAt := AdaptedBy(b, went).flushAt)
    decreases |went|
  {
    if went != [] {
      var n := |went| - 1;
      TargetAfter(b, went[..n]);
      assert went[n] in went;
      assert forall w :: w in went[..n] ==> w in went;
    }
  }

  lemma Regroup(q: nat, p: nat)
    ensures q * (2 * p) == (2 * q) * p
    ensures (2 * q + 1) * p == (2 * q) * p + p
    ensures (q + 1) * (2 * p) == (2 * q) * p + 2 * p
    ensures (2 * q + 2) * p == (2 * q) * p + 2 * p
  {}

  lemma HalfStep(x: nat, h: nat, p: nat)
    requires h * p <= x < (h + 1) * p
    ensures (h / 2) * (2 * p) <= x < (h / 2 + 1) * (2 * p)
  {
    var q := h / 2;
    Regroup(q, p);
    if h % 2 == 0 {
      assert h == 2 * q;
    } else {
      assert h == 2 * q + 1;
      assert (h + 1) * p == (2 * q + 2) * p;
    }
  }

  /** Halving k times is dividing by 2^k. */
  lemma {:induction false} HalvedIsQuotient(x: nat, k: nat)
    ensures Halved(x, k) * Pow2(k) <= x < (Halved(x, k) + 1) * Pow2(k)
  {
    if k > 0 {
      HalvedIsQuotient(x, k - 1);
      HalfStep(x, Halved(x, k - 1), Pow2(k - 1));
    }
  }

  // ----- the uplink -----

  /** Whether there is a connection once the gate has been asked. */
  predicate Linked(e: Edge, now: nat, accepted: bool) {
    e.tcp.connected || (now >= e.gate.nextNs && accepted)
  }

  /** Whether TCP gets rid of the whole batch in so many attempts. */
  ghost predicate TcpFinishes(e: Edge, a: Answers, now: nat, accepted: bool, attempts: nat)
    requires e.Valid()
  {
    && Linked(e, now, accepted)
    && (e.batch.frames == [] || Takes(a.sends, e.tcp.sends, Need(e.batch), attempts))
  }

  lemma ReconnectIs(e: Edge, now: nat, accepted: bool)
    requires e.Valid()
    ensures var r := Reconnected(e, now, accepted);
      && r.tcp.connected == Linked(e, now, accepted) && r.tcp.sends == e.tcp.sends && r.batch == e.batch
      && r == e.(gate := r.gate, tcp := r.tcp)
  {}

  lemma RoundsFinish(e: Edge, a: Answers, now: nat, accepted: bool, attempts: nat)
    requires e.Valid() && attempts > 0
    ensures OverTcp(Reconnected(e, now, accepted), a, attempts).ok == TcpFinishes(e, a, now, accepted, attempts)
    ensures OverTcp(Reconnected(e, now, accepted), a, attempts).edge.tcp.connected
      <==> Linked(e, now, accepted)
           && (e.batch.frames == [] || !Breaks(a.sends, e.tcp.sends, Need(e.batch), attempts))
    ensures OverTcp(Reconnected(e, now, accepted), a, attempts).ok ==>
      OverTcp(Reconnected(e, now, accepted), a, attempts).edge.tcp.connected
  {
    hide Takes, Breaks, Reconnected, Linked;
    ReconnectIs(e, now, accepted);
    var r := Reconnected(e, now, accepted);
    if r.tcp.connected && e.batch.frames != [] {
      hide FlushedWithin;
      FlushSucceedsExactly(r.batch, r.tcp, a.sends, attempts);
    }
  }

  /** A TCP-only flush says yes exactly when there is a connection that takes the whole batch before
      a hard error and before 128 stalls. */
  lemma TcpFlushSucceedsExactly(e: Edge, a: Answers, now: nat, accepted: bool, flushNs: nat)
    requires e.Valid()
    ensures FlushedBatch(TcpOnly, e, a, now, accepted, flushNs).ok == TcpFinishes(e, a, now, accepted, 128)
  {
    hide TcpFinishes, OverTcp, Reconnected, Adapted;
    RoundsFinish(e, a, now, accepted, 128);
  }

  /** An Auto flush leaves the batch to the mesh exactly when there is no connection, or the
      connection breaks or stalls 64 times first; then it counts a fail-over and halves its target. It
      gives up a connection that is still there exactly when that has taken part of the batch. */
  lemma AutoFailsOverExactly(e: Edge, a: Answers, now: nat, accepted: bool, flushNs: nat)
    requires e.Valid()
    ensures var f := FlushedBatch(Auto, e, a, now, accepted, flushNs);
      var s := OverTcp(Reconnected(e, now, accepted), a, 64).edge;
      if TcpFinishes(e, a, now, accepted, 64)
      then f.ok && f.edge.meshed == e.meshed && f.edge.tcp.connected
           && f.edge.failovers == e.failovers && f.edge.aborts == e.aborts && f.edge.rescued == e.rescued
      else && f.edge.failovers == e.failovers + 1
           && f.edge.rescued == e.rescued + (|f.edge.meshed| - |e.meshed|)
           && f.edge.batch.flushAt == Max(1, e.batch.flushAt / 2)
           && f.edge.aborts == e.aborts + (if s.tcp.connected && s.batch.offset > 0 then 1 else 0)
           && (f.edge.tcp.connected <==> s.tcp.connected && s.batch.offset == 0)
           && (s.tcp.connected <==>
                 (Linked(e, now, accepted)
                  && (e.batch.frames == [] || !Breaks(a.sends, e.tcp.sends, Need(e.batch), 64))))
  {
    hide TcpFinishes, OverTcp, Reconnected, Took, Takes, Breaks, Linked, FailOver, Adapted, FlushedBatch;
    RoundsFinish(e, a, now, accepted, 64);
    AutoFinishes(e, a, now, accepted, flushNs);
    AutoTurnsToMesh(e, a, now, accepted, flushNs);
  }

  lemma AutoFinishes(e: Edge, a: Answers, now: nat, accepted: bool, flushNs: nat)
    requires e.Valid()
    ensures var s, f := OverTcp(Reconnected(e, now, accepted), a, 64), FlushedBatch(Auto, e, a, now, accepted, flushNs);
      s.ok ==> f.ok && f.edge.meshed == e.meshed && f.edge.tcp.connected == s.edge.tcp.connected
               && f.edge.failovers == e.failovers && f.edge.aborts == e.aborts && f.edge.rescued == e.rescued
  {
    hide OverTcp, Reconnected, Took, FailOver, Adapted;
    ReconnectIs(e, now, accepted);
    OverTcpMoves(Reconnected(e, now, accepted), a, 64);
  }

  lemma AutoTurnsToMesh(e: Edge, a: Answers, now: nat, accepted: bool, flushNs: nat)
    requires e.Valid()
    ensures var s, f := OverTcp(Reconnected(e, now, accepted), a, 64), FlushedBatch(Auto, e, a, now, accepted, flushNs);
      !s.ok ==>
        && f.edge.failovers == e.failovers + 1
        && f.edge.rescued == e.rescued + (|f.edge.meshed| - |e.meshed|)
        && f.edge.batch.flushAt == Max(1, e.batch.flushAt / 2)
        && f.edge.aborts == e.aborts + (if s.edge.tcp.connected && s.edge.batch.offset > 0 then 1 else 0)
        && (f.edge.tcp.connected <==> s.edge.tcp.connected && s.edge.batch.offset == 0)
  {
    hide OverTcp, Reconnected, Took, AllAccepted;
    ReconnectIs(e, now, accepted);
    OverTcpMoves(Reconnected(e, now, accepted), a, 64);
    var s := OverTcp(Reconnected(e, now, accepted), a, 64);
    if !s.ok {
      DiscardKeepsUnsent(Adapted(s.edge.batch, false, flushNs));
    }
  }

  /** Over TCP and Auto the flush target adapts to whether TCP finished and how long it took; the
      datagram transports leave it alone. */
  lemma FlushAdaptsTarget(tr: Transport, e: Edge, a: Answers, now: nat, accepted: bool, flushNs: nat)
    requires e.Valid() && 1 <= e.batch.flushAt <= e.batch.capacity
    ensures var t := FlushedBatch(tr, e, a, now, accepted, flushNs).edge.batch.flushAt;
      match tr
      case TcpOnly => t == AdaptedBy(e.batch, [Went(TcpFinishes(e, a, now, accepted, 128), flushNs)]).flushAt
      case Auto => t == AdaptedBy(e.batch, [Went(TcpFinishes(e, a, now, accepted, 64), flushNs)]).flushAt
      case UdpOnly => t == e.batch.flushAt
      case MeshOnly => t == e.batch.flushAt
  {
    hide TcpFinishes, OverTcp, Reconnected, Took;
    if tr.TcpOnly? || tr.Auto? {
      var rounds := if tr.TcpOnly? then 128 else 64;
      RoundsFinish(e, a, now, accepted, rounds);
      ReconnectIs(e, now, accepted);
      OverTcpMoves(Reconnected(e, now, accepted), a, rounds);
    }
  }

  /** A flush by single datagrams says yes exactly when the port took every frame it was handed. */
  lemma DatagramsAllTaken(e: Edge, a: Answers, now: nat, accepted: bool, flushNs: nat)
    requires e.Valid()
    ensures var f := FlushedBatch(UdpOnly, e, a, now, accepted, flushNs);
      f.ok <==> forall k: nat :: |e.direct| <= k < |f.edge.direct| ==> a.datagrams(k)
    ensures var f := FlushedBatch(MeshOnly, e, a, now, accepted, flushNs);
      f.ok <==> forall k: nat :: |e.meshed| <= k < |f.edge.meshed| ==> a.forwards(k)
  {
    hide Discarded, Unsent;
  }
}

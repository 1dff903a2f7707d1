/** Where each frame of an Auto-transport run went: wholly to one TCP connection or,
    once, to the mesh; and what a receiver on each connection makes of its bytes. */
module AutoLedger {
  import opened Basics
  import opened Bytes
  import opened WireFrame
  import opened StreamScan
  import opened FrameBatch
  import opened Uplink

  datatype Route = OnTcp(connection: nat) | OnMesh

  datatype Entry = Entry(frame: Frame, route: Route)

  /** The frames of a ledger that took a route, in order. */
  function On(l: seq<Entry>, r: Route): (fs: seq<Frame>) {
    if l == [] then [] else (if l[0].route == r then [l[0].frame] else []) + On(l[1..], r)
  }

  function All(l: seq<Entry>): (fs: seq<Frame>)
    ensures |fs| == |l|
  {
    if l == [] then [] else [l[0].frame] + All(l[1..])
  }

  function Routed(fs: seq<Frame>, r: Route): (l: seq<Entry>)
    ensures |l| == |fs|
  {
    if fs == [] then [] else [Entry(fs[0], r)] + Routed(fs[1..], r)
  }

  lemma {:induction false} OnAppend(a: seq<Entry>, b: seq<Entry>, r: Route)
    ensures On(a + b, r) == On(a, r) + On(b, r)
  {
    if a == [] {
      assert a + b == b;
    } else {
      OnAppend(a[1..], b, r);
      assert (a + b)[1..] == a[1..] + b;
      var first := if a[0].route == r then [a[0].frame] else [];
      AppendAssoc(first, On(a[1..], r), On(b, r));
      assert On(a, r) == first + On(a[1..], r);
      assert On(a + b, r) == first + On(a[1..] + b, r);
    }
  }

  lemma {:induction false} AllAppend(a: seq<Entry>, b: seq<Entry>)
    ensures All(a + b) == All(a) + All(b)
  {
    if a == [] {
      assert a + b == b;
    } else {
      AllAppend(a[1..], b);
      assert (a + b)[1..] == a[1..] + b;
      AppendAssoc([a[0].frame], All(a[1..]), All(b));
    }
  }

  lemma {:induction false} RoutedParts(fs: seq<Frame>, r: Route, q: Route)
    ensures All(Routed(fs, r)) == fs
    ensures On(Routed(fs, r), q) == if q == r then fs else []
    ensures forall k :: 0 <= k < |fs| ==> Routed(fs, r)[k] == Entry(fs[k], r)
  {
    if fs != [] {
      RoutedParts(fs[1..], r, q);
      assert Routed(fs, r)[1..] == Routed(fs[1..], r);
      assert fs == [fs[0]] + fs[1..];
    }
  }

  // ----- the ledger property -----

  /** Connection numbers never go down along the ledger and name connections that exist. */
  ghost predicate InOrder(l: seq<Entry>, connections: nat) {
    && (forall i :: 0 <= i < |l| && l[i].route.OnTcp? ==> l[i].route.connection < connections)
    && (forall i, j :: 0 <= i < j < |l| && l[i].route.OnTcp? && l[j].route.OnTcp? ==>
                         l[i].route.connection <= l[j].route.connection)
  }

  /** At entry i the use of connection c ends: what TCP took before went to c or an earlier
      connection, what it took after to a later one. */
  ghost predicate EndsAt(l: seq<Entry>, i: nat, c: nat) {
    forall j :: 0 <= j < |l| && l[j].route.OnTcp? ==> (j < i <==> l[j].route.connection <= c)
  }

  /** `part` is a proper beginning of the frame the mesh carried at the end of connection c. */
  ghost predicate StartOfMeshed(l: seq<Entry>, part: seq<Byte>, c: nat) {
    exists i :: 0 <= i < |l| && l[i].route == OnMesh && part < l[i].frame && EndsAt(l, i, c)
  }

  /** What connection c took: its whole frames, then, only if it is no longer in use, perhaps
      the beginning of the frame that ended it and went to the mesh instead. */
  ghost predicate Carried(l: seq<Entry>, log: seq<Byte>, mine: seq<Frame>, inUse: bool, c: nat) {
    && Concat(mine) <= log
    && |log| < |Concat(mine)| + 24
    && (log != Concat(mine) ==> !inUse && StartOfMeshed(l, log[|Concat(mine)|..], c))
  }

  ghost predicate InUse(t: Tcp, c: nat) {
    t.connected && c == |t.logs| - 1
  }

  ghost predicate LogsCarry(l: seq<Entry>, t: Tcp) {
    forall c :: 0 <= c < |t.logs| ==> Carried(l, t.logs[c], On(l, OnTcp(c)), InUse(t, c), c)
  }

  ghost predicate Ledger(e: Edge, l: seq<Entry>) {
    && e.pushed == All(l) + e.batch.frames
    && e.batch.offset == 0
    && e.meshed == On(l, OnMesh)
    && e.rescued == |e.meshed|
    && InOrder(l, |e.tcp.logs|)
    && LogsCarry(l, e.tcp)
  }

  // ----- one flush -----

  function Last(t: Tcp): (r: nat) {
    if t.logs == [] then 0 else |t.logs| - 1
  }

  /** Entries for a batch of which TCP took the first k frames. */
  function Split(fs: seq<Frame>, k: nat, c: nat): (r: seq<Entry>)
    requires k <= |fs|
  {
    Routed(fs[..k], OnTcp(c)) + Routed(fs[k..], OnMesh)
  }

  lemma SplitAll(l: seq<Entry>, fs: seq<Frame>, k: nat, c: nat)
    requires k <= |fs|
    ensures All(l + Split(fs, k, c)) == All(l) + fs
  {
    hide All, Split;
    AllAppend(l, Split(fs, k, c));
    SplitFrames(fs, k, c);
  }

  lemma SplitFrames(fs: seq<Frame>, k: nat, c: nat)
    requires k <= |fs|
    ensures All(Split(fs, k, c)) == fs
  {
    hide All, On, Routed;
    AllAppend(Routed(fs[..k], OnTcp(c)), Routed(fs[k..], OnMesh));
    RoutedFrames(fs[..k], OnTcp(c));
    RoutedFrames(fs[k..], OnMesh);
    assert fs[..k] + fs[k..] == fs;
  }

  lemma RoutedFrames(fs: seq<Frame>, r: Route)
    ensures All(Routed(fs, r)) == fs
  {
    RoutedParts(fs, r, r);
  }

  lemma SplitOn(l: seq<Entry>, fs: seq<Frame>, k: nat, c: nat, q: Route)
    requires k <= |fs|
    ensures On(l + Split(fs, k, c), q)
         == On(l, q) + (if q == OnTcp(c) then fs[..k] else if q == OnMesh then fs[k..] else [])
  {
    hide On, All, Routed;
    var a, b := Routed(fs[..k], OnTcp(c)), Routed(fs[k..], OnMesh);
    RoutedParts(fs[..k], OnTcp(c), q);
    RoutedParts(fs[k..], OnMesh, q);
    OnAppend(a, b, q);
    OnAppend(l, a + b, q);
  }

  lemma SplitEntries(fs: seq<Frame>, k: nat, c: nat)
    requires k <= |fs|
    ensures var s := Split(fs, k, c);
      && |s| == |fs|
      && (forall j :: 0 <= j < k ==> s[j].route == OnTcp(c))
      && (forall j :: k <= j < |fs| ==> s[j] == Entry(fs[j], OnMesh))
  {
    hide Routed, On, All;
    RoutedParts(fs[..k], OnTcp(c), OnMesh);
    RoutedParts(fs[k..], OnMesh, OnMesh);
  }

  lemma SplitInOrder(l: seq<Entry>, fs: seq<Frame>, k: nat, c: nat, n: nat)
    requires k <= |fs| && InOrder(l, n)
    requires k > 0 ==> c == n - 1
    ensures InOrder(l + Split(fs, k, c), n)
  {
    hide Split;
    var s := Split(fs, k, c);
    SplitEntries(fs, k, c);
    forall i | 0 <= i < |s| && s[i].route.OnTcp?
      ensures s[i].route.connection == c == n - 1
    {}
  }

  /** A longer ledger keeps where a connection ended, as long as TCP goes on with later ones. */
  lemma CarriedGrows(l: seq<Entry>, more: seq<Entry>, log: seq<Byte>, mine: seq<Frame>, inUse: bool, now: bool, c: nat)
    requires Carried(l, log, mine, inUse, c)
    requires now ==> inUse
    requires !inUse ==> forall k :: 0 <= k < |more| && more[k].route.OnTcp? ==> more[k].route.connection > c
    ensures Carried(l + more, log, mine, now, c)
  {
    hide Concat;
    if log != Concat(mine) {
      var part := log[|Concat(mine)|..];
      var i :| 0 <= i < |l| && l[i].route == OnMesh && part < l[i].frame && EndsAt(l, i, c);
      assert (l + more)[i] == l[i];
      EndStays(l, more, i, c);
    }
  }

  lemma EndStays(l: seq<Entry>, more: seq<Entry>, i: nat, c: nat)
    requires i < |l| && EndsAt(l, i, c)
    requires forall k :: 0 <= k < |more| && more[k].route.OnTcp? ==> more[k].route.connection > c
    ensures EndsAt(l + more, i, c)
  {
    var all := l + more;
    forall j | 0 <= j < |all| && all[j].route.OnTcp?
      ensures j < i <==> all[j].route.connection <= c
    {
      if j >= |l| {
        assert all[j] == more[j - |l|];
      }
    }
  }

  lemma CarriedMoreBy(l: seq<Entry>, log: seq<Byte>, mine: seq<Frame>, fs: seq<Frame>, taken: nat, now: bool, c: nat)
    requires Carried(l, log, mine, true, c) && InOrder(l, c + 1)
    requires taken <= |Concat(fs)| == 24 * |fs|
    requires taken % 24 != 0 ==> !now
    ensures Carried(l + Split(fs, taken / 24, c), log + Concat(fs)[..taken], mine + fs[..taken / 24], now, c)
  {
    hide Concat, Split, InOrder, EndsAt;
    var k := taken / 24;
    var part := if taken % 24 == 0 then [] else fs[k][..taken % 24];
    PrefixOfFrames(fs, taken);
    ConcatAppend(mine, fs[..k]);
    AppendAssoc(log, Concat(fs[..k]), part);
    var log' := log + Concat(fs)[..taken];
    assert log' == Concat(mine + fs[..k]) + part;
    if part != [] {
      assert log'[|Concat(mine + fs[..k])|..] == part;
      assert part < fs[k];
      MeshedEntry(l, fs, k, c);
    }
  }

  /** The first frame TCP did not finish is in the ledger as a mesh frame. */
  lemma MeshedEntry(l: seq<Entry>, fs: seq<Frame>, k: nat, c: nat)
    requires k < |fs| && InOrder(l, c + 1)
    ensures |l| + k < |l + Split(fs, k, c)|
    ensures (l + Split(fs, k, c))[|l| + k] == Entry(fs[k], OnMesh)
    ensures EndsAt(l + Split(fs, k, c), |l| + k, c)
  {
    hide Split, Routed;
    var s := Split(fs, k, c);
    SplitEntries(fs, k, c);
    assert (l + s)[|l| + k] == s[k];
    forall j | 0 <= j < |l + s| && (l + s)[j].route.OnTcp?
      ensures j < |l| + k && (l + s)[j].route.connection <= c
    {
      if j >= |l| {
        assert (l + s)[j] == s[j - |l|];
      }
    }
  }

  // ----- whole runs -----

  /** Pushing adds to the batch only. */
  lemma PushKeepsLedger(e: Edge, s: SensorSample, l: seq<Entry>)
    requires e.Valid() && Ledger(e, l)
    ensures Ledger(PushSample(e, s), l)
  {
    hide PackFrame, LogsCarry, InOrder;
    if |e.batch.frames| < e.batch.capacity {
      AppendAssoc(All(l), e.batch.frames, [PackFrame(s)]);
    }
  }

  /** A new connection starts clean, and what the old one left behind stays as it is. */
  lemma ReconnectKeepsLedger(e: Edge, now: nat, accepted: bool, l: seq<Entry>)
    requires e.Valid() && Ledger(e, l)
    ensures Ledger(Reconnected(e, now, accepted), l)
  {
    hide Carried;
    var r := Reconnected(e, now, accepted);
    if Attempts(e.gate, e.tcp, now) {
      var n := |e.tcp.logs|;
      forall c | 0 <= c < |r.tcp.logs|
        ensures Carried(l, r.tcp.logs[c], On(l, OnTcp(c)), InUse(r.tcp, c), c)
      {
        if c < n {
          assert Carried(l, e.tcp.logs[c], On(l, OnTcp(c)), InUse(e.tcp, c), c);
          CarriedRetired(l, e.tcp.logs[c], On(l, OnTcp(c)), InUse(e.tcp, c), c);
        } else {
          NoneYet(l, n, n);
          NewLog(l, n);
        }
      }
      InOrderMore(l, n, |r.tcp.logs|);
    }
  }

  lemma CarriedRetired(l: seq<Entry>, log: seq<Byte>, mine: seq<Frame>, inUse: bool, c: nat)
    requires Carried(l, log, mine, inUse, c)
    ensures Carried(l, log, mine, false, c)
  {}

  lemma NewLog(l: seq<Entry>, c: nat)
    ensures Carried(l, [], [], true, c)
  {}

  lemma InOrderMore(l: seq<Entry>, n: nat, m: nat)
    requires InOrder(l, n) && n <= m
    ensures InOrder(l, m)
  {}

  lemma {:induction false} NoneYet(l: seq<Entry>, n: nat, c: nat)
    requires forall i :: 0 <= i < |l| && l[i].route.OnTcp? ==> l[i].route.connection < n
    requires n <= c
    ensures On(l, OnTcp(c)) == []
  {
    if l != [] {
      NoneYet(l[1..], n, c);
    }
  }

  /** The logs after TCP took the first `taken` bytes of the batch, the connection then
      being in use (`now`) or not. */
  lemma LogsAfter(l: seq<Entry>, t: Tcp, t': Tcp, fs: seq<Frame>, taken: nat)
    requires LogsCarry(l, t) && InOrder(l, |t.logs|)
    requires taken <= |Concat(fs)| == 24 * |fs|
    requires taken > 0 ==> t.connected && t.logs != []
    requires |t'.logs| == |t.logs|
    requires t.logs != [] ==> t'.logs == t.logs[Last(t) := t.logs[Last(t)] + Concat(fs)[..taken]]
    requires t'.connected ==> t.connected && taken % 24 == 0
    ensures LogsCarry(l + Split(fs, taken / 24, Last(t)), t')
  {
    hide Carried, Split, Concat, On, InOrder;
    var k, last := taken / 24, Last(t);
    SplitEntries(fs, k, last);
    forall c | 0 <= c < |t'.logs|
      ensures Carried(l + Split(fs, k, last), t'.logs[c], On(l + Split(fs, k, last), OnTcp(c)), InUse(t', c), c)
    {
      assert Carried(l, t.logs[c], On(l, OnTcp(c)), InUse(t, c), c);
      SplitOn(l, fs, k, last, OnTcp(c));
      if c == last && taken > 0 {
        CarriedMoreBy(l, t.logs[c], On(l, OnTcp(c)), fs, taken, InUse(t', c), last);
      } else {
        assert t'.logs[c] == t.logs[c] by {
          assert Concat(fs)[..0] == [];
        }
        CarriedGrows(l, Split(fs, k, last), t.logs[c], On(l, OnTcp(c)), InUse(t, c), InUse(t', c), c);
        assert On(l + Split(fs, k, last), OnTcp(c)) == On(l, OnTcp(c));
      }
    }
  }

  /** The entries an Auto flush adds: TCP's whole frames, then the mesh's. */
  function Added(e: Edge, a: Answers, now: nat, accepted: bool): (r: seq<Entry>)
    requires e.Valid()
  {
    var s := OverTcp(Reconnected(e, now, accepted), a, 64);
    Split(e.batch.frames, Min(|e.batch.frames|, Taken(e, s) / 24), Last(s.edge.tcp))
  }

  /** How many batch bytes the TCP part of an Auto flush got rid of. */
  function Taken(e: Edge, s: Outcome): (r: nat)
    requires s.edge.Valid()
  {
    if s.ok then 24 * |e.batch.frames| else s.edge.batch.offset
  }

  /** What an Auto flush leaves, in terms of how far TCP got. */
  lemma AutoFlushEffect(e: Edge, a: Answers, now: nat, accepted: bool, flushNs: nat)
    requires e.Valid() && e.batch.offset == 0
    ensures var e1 := Reconnected(e, now, accepted);
      var s := OverTcp(e1, a, 64);
      var r := FlushedBatch(Auto, e, a, now, accepted, flushNs).edge;
      var fs := e.batch.frames;
      var taken := Taken(e, s);
      && taken <= 24 * |fs|
      && (taken > 0 ==> e1.tcp.connected)
      && r.pushed == e.pushed && r.batch.frames == [] && r.batch.offset == 0
      && r.meshed == e.meshed + fs[taken / 24..]
      && r.rescued == e.rescued + |fs[taken / 24..]|
      && r.tcp.logs == s.edge.tcp.logs
      && (r.tcp.connected ==> e1.tcp.connected && taken % 24 == 0)
  {
    hide FlushedWithin, Took;
    var e1 := Reconnected(e, now, accepted);
    var s := OverTcp(e1, a, 64);
    OverTcpMoves(e1, a, 64);
    var fs := e.batch.frames;
    if s.ok {
      assert fs[|fs|..] == [];
      assert e.meshed + [] == e.meshed;
    } else {
      var b := Adapted(s.edge.batch, false, flushNs);
      DiscardKeepsUnsent(b);
      assert Unsent(b) == fs[s.edge.batch.offset / 24..];
    }
  }

  lemma FlushKeepsLedger(e: Edge, a: Answers, now: nat, accepted: bool, flushNs: nat, l: seq<Entry>)
    requires e.Valid() && Ledger(e, l)
    ensures Ledger(FlushedBatch(Auto, e, a, now, accepted, flushNs).edge, l + Added(e, a, now, accepted))
  {
    hide FlushedWithin, Carried, Split, Concat, On, InOrder, LogsCarry, All, FlushedBatch, Reconnected, OverTcp, Took;
    var e1 := Reconnected(e, now, accepted);
    ReconnectKeepsLedger(e, now, accepted, l);
    ReconnectedBatch(e, now, accepted);
    var s := OverTcp(e1, a, 64);
    OverTcpMoves(e1, a, 64);
    var r := FlushedBatch(Auto, e, a, now, accepted, flushNs).edge;
    var fs := e.batch.frames;
    ConcatLength(fs);
    var taken := Taken(e, s);
    var k := taken / 24;
    AutoFlushEffect(e, a, now, accepted, flushNs);
    TookFromStart(e1, s, taken);
    SplitAll(l, fs, k, Last(e1.tcp));
    SplitOn(l, fs, k, Last(e1.tcp), OnMesh);
    SplitInOrder(l, fs, k, Last(e1.tcp), |e1.tcp.logs|);
    LogsAfter(l, e1.tcp, r.tcp, fs, taken);
    assert All(l) + fs == All(l + Split(fs, k, Last(e1.tcp))) + [];
  }

  lemma ReconnectedBatch(e: Edge, now: nat, accepted: bool)
    requires e.Valid()
    ensures Reconnected(e, now, accepted).batch == e.batch
    ensures Reconnected(e, now, accepted).pushed == e.pushed
    ensures Reconnected(e, now, accepted).meshed == e.meshed
    ensures Reconnected(e, now, accepted).rescued == e.rescued
  {}

  lemma TookFromStart(e: Edge, s: Outcome, taken: nat)
    requires e.Valid() && e.batch.offset == 0
    requires Took(e.batch, e.tcp, s.edge.tcp, taken)
    ensures taken > 0 ==> e.tcp.logs != []
    ensures |s.edge.tcp.logs| == |e.tcp.logs|
    ensures taken <= |Concat(e.batch.frames)|
    ensures e.tcp.logs != [] ==>
      s.edge.tcp.logs == e.tcp.logs[Last(e.tcp) := e.tcp.logs[Last(e.tcp)] + Concat(e.batch.frames)[..taken]]
  {
    hide Concat;
    assert e.batch.Bytes()[0..taken] == Concat(e.batch.frames)[..taken];
  }

  lemma StartLedger(capacity: nat)
    ensures Ledger(Start(capacity), [])
  {}

  /** The ledger of an Auto run, flush by flush. */
  function LedgerOf(capacity: nat, a: Answers, evs: seq<Event>): (l: seq<Entry>)
    decreases |evs|
  {
    if evs == [] then []
    else
      var before := evs[..|evs| - 1];
      LedgerOf(capacity, a, before) +
      (match evs[|evs| - 1]
       case Push(_) => []
       case Connect(_, _) => []
       case FlushNow(now, accepted, _) => Added(Run(Auto, capacity, a, before), a, now, accepted))
  }

  /** In every Auto run each frame that left the batch went wholly to one TCP connection
      or once to the mesh, in the order pushed. */
  lemma {:induction false} AutoRunKeepsLedger(capacity: nat, a: Answers, evs: seq<Event>)
    ensures Ledger(Run(Auto, capacity, a, evs), LedgerOf(capacity, a, evs))
    decreases |evs|
  {
    hide FlushedBatch, PushSample, Carried, On, Added, Ledger;
    if evs == [] {
      StartLedger(capacity);
    } else {
      var before := evs[..|evs| - 1];
      var e := Run(Auto, capacity, a, before);
      var l := LedgerOf(capacity, a, before);
      AutoRunKeepsLedger(capacity, a, before);
      match evs[|evs| - 1]
      case Push(s) =>
        PushKeepsLedger(e, s, l);
        assert l + [] == l;
      case Connect(now, accepted) =>
        ReconnectKeepsLedger(e, now, accepted, l);
        assert l + [] == l;
      case FlushNow(now, accepted, flushNs) =>
        FlushKeepsLedger(e, a, now, accepted, flushNs, l);
    }
  }

  /** The receiver of connection c, whatever chunks its bytes arrive in, decodes exactly the
      frames the ledger puts on c: nothing fails a check and nothing is skipped. */
  lemma ReceiverSeesTcpShare(capacity: nat, a: Answers, evs: seq<Event>, c: nat, chunks: seq<seq<Byte>>)
    requires c < |Run(Auto, capacity, a, evs).tcp.logs|
    requires Concat(chunks) == Run(Auto, capacity, a, evs).tcp.logs[c]
    ensures var r := ReceiveAll(EMPTY, chunks);
      && r.frames == On(LedgerOf(capacity, a, evs), OnTcp(c))
      && r.drops == 0 && r.resync == 0
      && (r.rest != [] ==>
          !InUse(Run(Auto, capacity, a, evs).tcp, c) && StartOfMeshed(LedgerOf(capacity, a, evs), r.rest, c))
  {
    hide Run, LedgerOf, On, Concat, ScanStream, VerifyFrame, InOrder, ReceiveAll;
    AutoRunKeepsLedger(capacity, a, evs);
    var e := Run(Auto, capacity, a, evs);
    var l := LedgerOf(capacity, a, evs);
    PushedVerify(Auto, capacity, a, evs);
    OnAmong(l, OnTcp(c), e.batch.frames);
    ChunkingIrrelevant(chunks);
    DecodesCarried(l, e.tcp.logs[c], On(l, OnTcp(c)), InUse(e.tcp, c), c);
  }

  lemma DecodesCarried(l: seq<Entry>, log: seq<Byte>, mine: seq<Frame>, inUse: bool, c: nat)
    requires Carried(l, log, mine, inUse, c)
    requires AllVerify(mine)
    ensures ScanStream(log) == Scan(mine, 0, 0, log[|Concat(mine)|..])
    ensures log[|Concat(mine)|..] != [] ==> !inUse && StartOfMeshed(l, log[|Concat(mine)|..], c)
  {
    hide Concat, ScanStream, VerifyFrame, StartOfMeshed;
    var tail := log[|Concat(mine)|..];
    CleanStream(mine, tail);
    assert log == Concat(mine) + tail;
    if log == Concat(mine) {
      assert tail == [];
    }
  }

  lemma {:induction false} OnAmong(l: seq<Entry>, r: Route, rest: seq<Frame>)
    requires AllVerify(All(l) + rest)
    ensures AllVerify(On(l, r))
  {
    hide VerifyFrame;
    if l != [] {
      assert All(l) + rest == [l[0].frame] + (All(l[1..]) + rest);
      OnAmong(l[1..], r, rest);
      assert ([l[0].frame] + (All(l[1..]) + rest))[0] == l[0].frame;
    }
  }

  // ----- nothing lost, nothing twice -----

  /** Frames decoded from the first n logs. */
  function DecodedTotal(logs: seq<seq<Byte>>, n: nat): (r: nat)
    requires n <= |logs|
  {
    if n == 0 then 0 else DecodedTotal(logs, n - 1) + |ScanStream(logs[n - 1]).frames|
  }

  function TcpShare(l: seq<Entry>, n: nat): (r: nat) {
    if n == 0 then 0 else TcpShare(l, n - 1) + |On(l, OnTcp(n - 1))|
  }

  /** Frames decoded over all connections, frames rescued by the mesh and frames still in
      the batch add up to the frames pushed. */
  lemma EveryFrameOnce(capacity: nat, a: Answers, evs: seq<Event>)
    ensures var e := Run(Auto, capacity, a, evs);
      DecodedTotal(e.tcp.logs, |e.tcp.logs|) + e.rescued + |e.batch.frames| == |e.pushed|
  {
    hide Run, LedgerOf, On, All, LogsCarry;
    AutoRunKeepsLedger(capacity, a, evs);
    var e := Run(Auto, capacity, a, evs);
    var l := LedgerOf(capacity, a, evs);
    ShareIsDecoded(capacity, a, evs, |e.tcp.logs|);
    Shares(l, |e.tcp.logs|);
  }

  lemma {:induction false} ShareIsDecoded(capacity: nat, a: Answers, evs: seq<Event>, n: nat)
    requires n <= |Run(Auto, capacity, a, evs).tcp.logs|
    ensures DecodedTotal(Run(Auto, capacity, a, evs).tcp.logs, n) == TcpShare(LedgerOf(capacity, a, evs), n)
    decreases n
  {
    hide Run, LedgerOf, On, ScanStream;
    if n > 0 {
      ShareIsDecoded(capacity, a, evs, n - 1);
      var log := Run(Auto, capacity, a, evs).tcp.logs[n - 1];
      assert Concat([log]) == log;
      ReceiverSeesTcpShare(capacity, a, evs, n - 1, [log]);
      ChunkingIrrelevant([log]);
    }
  }

  lemma {:induction false} Shares(l: seq<Entry>, n: nat)
    requires forall i :: 0 <= i < |l| && l[i].route.OnTcp? ==> l[i].route.connection < n
    ensures TcpShare(l, n) + |On(l, OnMesh)| == |l|
  {
    if l == [] {
      NoShares(n);
    } else {
      Shares(l[1..], n);
      ShareStep(l, n);
    }
  }

  lemma {:induction false} NoShares(n: nat)
    ensures TcpShare([], n) == 0
  {
    if n > 0 {
      NoShares(n - 1);
    }
  }

  lemma OnFirst(l: seq<Entry>, r: Route)
    requires l != []
    ensures |On(l, r)| == |On(l[1..], r)| + (if l[0].route == r then 1 else 0)
  {}

  lemma {:induction false} ShareStep(l: seq<Entry>, n: nat)
    requires l != []
    ensures TcpShare(l, n) == TcpShare(l[1..], n) + (if l[0].route.OnTcp? && l[0].route.connection < n then 1 else 0)
    decreases n
  {
    hide On;
    if n > 0 {
      ShareStep(l, n - 1);
      OnFirst(l, OnTcp(n - 1));
    }
  }

  // ----- connections no longer in use -----

  lemma ReconnectLeavesDead(e: Edge, now: nat, accepted: bool, c: nat)
    requires e.Valid() && c < |e.tcp.logs| && !InUse(e.tcp, c)
    ensures var t := Reconnected(e, now, accepted).tcp;
      c < |t.logs| && t.logs[c] == e.tcp.logs[c] && !InUse(t, c)
  {}

  lemma RoundsLeaveDead(e: Edge, a: Answers, attempts: nat, c: nat)
    requires e.Valid() && c < |e.tcp.logs| && !InUse(e.tcp, c)
    ensures var t := OverTcp(e, a, attempts).edge.tcp;
      c < |t.logs| && t.logs[c] == e.tcp.logs[c] && !InUse(t, c)
  {
    hide FlushedWithin;
    OverTcpMoves(e, a, attempts);
  }

  lemma FlushLeavesDead(tr: Transport, e: Edge, a: Answers, now: nat, accepted: bool, flushNs: nat, c: nat)
    requires e.Valid() && c < |e.tcp.logs| && !InUse(e.tcp, c)
    ensures var t := FlushedBatch(tr, e, a, now, accepted, flushNs).edge.tcp;
      c < |t.logs| && t.logs[c] == e.tcp.logs[c] && !InUse(t, c)
  {
    hide Reconnected, OverTcp, Adapted, Discarded;
    ReconnectLeavesDead(e, now, accepted, c);
    RoundsLeaveDead(Reconnected(e, now, accepted), a, if tr.TcpOnly? then 128 else 64, c);
  }

  /** A connection no longer in use is never written to or used again, whatever follows. */
  lemma {:induction false} DeadLogStays(tr: Transport, capacity: nat, a: Answers, evs: seq<Event>, more: seq<Event>,
      c: nat)
    requires var t := Run(tr, capacity, a, evs).tcp; c < |t.logs| && !InUse(t, c)
    ensures var t, t' := Run(tr, capacity, a, evs).tcp, Run(tr, capacity, a, evs + more).tcp;
      c < |t'.logs| && t'.logs[c] == t.logs[c] && !InUse(t', c)
    decreases |more|
  {
    hide FlushedBatch, PushSample, Reconnected;
    if more == [] {
      assert evs + more == evs;
    } else {
      var n := |more| - 1;
      var all := evs + more;
      assert all[..|all| - 1] == evs + more[..n] && all[|all| - 1] == more[n];
      DeadLogStays(tr, capacity, a, evs, more[..n], c);
      var e := Run(tr, capacity, a, evs + more[..n]);
      match more[n]
      case Push(s) =>
        PushKeepsTcp(e, s);
      case Connect(now, accepted) =>
        ReconnectLeavesDead(e, now, accepted, c);
      case FlushNow(now, accepted, flushNs) =>
        FlushLeavesDead(tr, e, a, now, accepted, flushNs, c);
    }
  }

  lemma PushKeepsTcp(e: Edge, s: SensorSample)
    requires e.Valid()
    ensures PushSample(e, s).tcp == e.tcp
  {}
}

/** TCP-only runs: no byte is lost or repeated on the sending side, and which frames
    receivers get to see when the stream is spread over several connections. */
module TcpStream {
  import opened Bytes
  import opened WireFrame
  import opened StreamScan
  import opened FrameBatch
  import opened Uplink

  // ----- conservation on the sending side -----

  /** What all connections accepted, followed by what the batch still has to send, is
      what was pushed. */
  ghost predicate Conserved(e: Edge)
    requires e.Valid()
  {
    ConcatLength(e.batch.frames);
    Concat(e.tcp.logs) + Concat(e.batch.frames)[e.batch.offset..] == Concat(e.pushed)
  }

  lemma ConcatOne(s: seq<Byte>)
    ensures Concat([s]) == s
  {}

  lemma PushConserves(e: Edge, s: SensorSample)
    requires e.Valid() && Conserved(e)
    ensures Conserved(PushSample(e, s))
  {
    hide PackFrame, Concat;
    if |e.batch.frames| < e.batch.capacity {
      var f := PackFrame(s);
      ConcatLength(e.batch.frames);
      ConcatAppend(e.batch.frames, [f]);
      ConcatAppend(e.pushed, [f]);
      ConcatOne(f);
      var x := Concat(e.batch.frames);
      assert (x + f)[e.batch.offset..] == x[e.batch.offset..] + f;
      AppendAssoc(Concat(e.tcp.logs), x[e.batch.offset..], f);
    }
  }

  lemma ReconnectConserves(e: Edge, now: nat, accepted: bool)
    requires e.Valid() && Conserved(e)
    ensures Conserved(Reconnected(e, now, accepted))
  {
    hide Concat;
    ConcatAppend(e.tcp.logs, [[]]);
    ConcatOne([]);
    assert Concat(e.tcp.logs) + [] == Concat(e.tcp.logs);
  }

  lemma LastGrows(logs: seq<seq<Byte>>, x: seq<Byte>)
    requires logs != []
    ensures Concat(logs[|logs| - 1 := logs[|logs| - 1] + x]) == Concat(logs) + x
  {
    hide Concat;
    var k := |logs| - 1;
    ConcatAppend(logs[..k], [logs[k]]);
    ConcatAppend(logs[..k], [logs[k] + x]);
    ConcatOne(logs[k]);
    ConcatOne(logs[k] + x);
    assert logs[..k] + [logs[k]] == logs;
    assert logs[..k] + [logs[k] + x] == logs[k := logs[k] + x];
    AppendAssoc(Concat(logs[..k]), logs[k], x);
  }

  lemma TookConserves(b: Batch, t: Tcp, t': Tcp, to: nat)
    requires b.Valid() && Took(b, t, t', to)
    ensures Concat(t'.logs) + b.Bytes()[to..] == Concat(t.logs) + b.Bytes()[b.offset..]
  {
    hide Concat;
    var x := b.Bytes();
    if t.logs != [] {
      LastGrows(t.logs, x[b.offset..to]);
      AppendAssoc(Concat(t.logs), x[b.offset..to], x[to..]);
      assert x[b.offset..to] + x[to..] == x[b.offset..];
    } else {
      assert t'.logs == [];
    }
  }

  lemma OverTcpConserves(e: Edge, a: Answers, attempts: nat)
    requires e.Valid() && Conserved(e)
    ensures Conserved(OverTcp(e, a, attempts).edge)
  {
    hide Concat, OverTcp, Took, FlushedWithin;
    var r := OverTcp(e, a, attempts);
    OverTcpMoves(e, a, attempts);
    ConcatLength(e.batch.frames);
    ConcatLength(r.edge.batch.frames);
    var to := if r.ok then 24 * |e.batch.frames| else r.edge.batch.offset;
    TookBound(e.batch, e.tcp, r.edge.tcp, to);
    TookConserves(e.batch, e.tcp, r.edge.tcp, to);
    if r.ok {
      NoBytes();
      assert e.batch.Bytes()[to..] == [] == Concat(r.edge.batch.frames)[0..];
    }
  }

  lemma TookBound(b: Batch, t: Tcp, t': Tcp, to: nat)
    requires b.Valid() && Took(b, t, t', to)
    ensures to <= |b.Bytes()|
  {}

  lemma NoBytes()
    ensures Concat([]) == []
  {}

  lemma FlushConserves(e: Edge, a: Answers, now: nat, accepted: bool, flushNs: nat)
    requires e.Valid() && Conserved(e)
    ensures Conserved(FlushedBatch(TcpOnly, e, a, now, accepted, flushNs).edge)
  {
    hide Concat, OverTcp, Reconnected;
    ReconnectConserves(e, now, accepted);
    OverTcpConserves(Reconnected(e, now, accepted), a, 128);
    var s := OverTcp(Reconnected(e, now, accepted), a, 128);
    AdaptKeeps(s.edge.batch, s.ok, flushNs);
  }

  /** Whatever the socket does and however often the connection is replaced. */
  lemma {:induction false} TcpRunConserves(capacity: nat, a: Answers, evs: seq<Event>)
    ensures Conserved(Run(TcpOnly, capacity, a, evs))
    decreases |evs|
  {
    hide FlushedBatch, PushSample, Conserved;
    if evs == [] {
      StartConserved(capacity);
    } else {
      var before := evs[..|evs| - 1];
      TcpRunConserves(capacity, a, before);
      match evs[|evs| - 1]
      case Push(s) =>
        PushConserves(Run(TcpOnly, capacity, a, before), s);
      case FlushNow(now, accepted, flushNs) =>
        FlushConserves(Run(TcpOnly, capacity, a, before), a, now, accepted, flushNs);
      case Connect(now, accepted) =>
        ReconnectConserves(Run(TcpOnly, capacity, a, before), now, accepted);
    }
  }

  lemma StartConserved(capacity: nat)
    ensures Conserved(Start(capacity))
  {}

  // ----- what the receivers see -----

  function Indices(a: nat, b: nat): (r: seq<nat>)
    decreases b - a
  {
    if a >= b then [] else [a] + Indices(a + 1, b)
  }

  /** First frame boundary at or after a stream position, as a frame number. */
  function NextFrame(at: nat): (r: nat)
    ensures at <= 24 * r < at + 24
  {
    (at + 23) / 24
  }

  /** Bytes of a frame begun on an earlier connection. */
  function Torn(at: nat): (r: nat)
    ensures r < 24
  {
    24 * NextFrame(at) - at
  }

  /** Numbers of the frames that lie whole within one of the logs, the first of which
      starts at stream position `at`. */
  function Kept(logs: seq<seq<Byte>>, at: nat): (r: seq<nat>)
    decreases |logs|
  {
    if logs == [] then []
    else Indices(NextFrame(at), (at + |logs[0]|) / 24) + Kept(logs[1..], at + |logs[0]|)
  }

  /** Every connection is decoded by itself, in turn. */
  function Delivered(logs: seq<seq<Byte>>): (r: seq<Frame>) {
    if logs == [] then [] else ScanStream(logs[0]).frames + Delivered(logs[1..])
  }

  /** No window that starts in the first n bytes verifies. */
  ghost predicate SilentFor(log: seq<Byte>, n: nat) {
    forall i :: 0 <= i < n ==> !Verifies(log, i)
  }

  /** No window that starts in the torn beginning of a log happens to verify. */
  ghost predicate TearsSilent(logs: seq<seq<Byte>>, at: nat)
    decreases |logs|
  {
    logs != [] ==> SilentFor(logs[0], Torn(at)) && TearsSilent(logs[1..], at + |logs[0]|)
  }

  predicate Below(ks: seq<nat>, n: nat) {
    forall j :: 0 <= j < |ks| ==> ks[j] < n
  }

  function Pick(fs: seq<Frame>, ks: seq<nat>): (r: seq<Frame>)
    requires Below(ks, |fs|)
    ensures |r| == |ks|
  {
    if ks == [] then [] else [fs[ks[0]]] + Pick(fs, ks[1..])
  }

  lemma {:induction false} IndicesIn(a: nat, b: nat)
    ensures forall k :: k in Indices(a, b) <==> a <= k < b
    ensures |Indices(a, b)| == if a >= b then 0 else b - a
    decreases b - a
  {
    if a < b {
      IndicesIn(a + 1, b);
    }
  }

  /** Frames kept lie within the stretch the logs cover. */
  lemma {:induction false} KeptWithin(logs: seq<seq<Byte>>, at: nat, k: nat)
    requires k in Kept(logs, at)
    ensures at <= 24 * k && 24 * k + 24 <= at + |Concat(logs)|
    decreases |logs|
  {
    var here := Indices(NextFrame(at), (at + |logs[0]|) / 24);
    IndicesIn(NextFrame(at), (at + |logs[0]|) / 24);
    if k !in here {
      KeptWithin(logs[1..], at + |logs[0]|, k);
    }
  }

  lemma {:induction false} PickAppend(fs: seq<Frame>, a: seq<nat>, b: seq<nat>)
    requires Below(a, |fs|) && Below(b, |fs|)
    ensures Below(a + b, |fs|)
    ensures Pick(fs, a + b) == Pick(fs, a) + Pick(fs, b)
  {
    if a == [] {
      assert a + b == b;
    } else {
      assert (a + b)[1..] == a[1..] + b;
      PickAppend(fs, a[1..], b);
    }
  }

  lemma {:induction false} PickRange(fs: seq<Frame>, a: nat, b: nat)
    requires a <= b <= |fs|
    ensures Below(Indices(a, b), |fs|)
    ensures Pick(fs, Indices(a, b)) == fs[a..b]
    decreases b - a
  {
    IndicesIn(a, b);
    if a < b {
      PickRange(fs, a + 1, b);
      assert fs[a..b] == [fs[a]] + fs[a + 1..b];
      assert Indices(a, b)[1..] == Indices(a + 1, b);
    }
  }

  /** A stretch of the stream: a torn beginning, whole frames, the beginning of another. */
  lemma Stretch(fs: seq<Frame>, at: nat, p: nat, q: nat, to: nat)
    requires at <= 24 * p <= 24 * q <= to <= 24 * |fs|
    ensures |Concat(fs)| == 24 * |fs|
    ensures Concat(fs)[at..to] == Concat(fs)[at..24 * p] + (Concat(fs[p..q]) + Concat(fs)[24 * q..to])
  {
    hide Concat;
    WholeFrames(fs, p, q);
    FourCuts(Concat(fs), at, 24 * p, 24 * q, to);
  }

  lemma FourCuts(x: seq<Byte>, a: nat, b: nat, c: nat, d: nat)
    requires a <= b <= c <= d <= |x|
    ensures x[a..d] == x[a..b] + (x[b..c] + x[c..d])
  {}

  lemma Middle(a: seq<Byte>, b: seq<Byte>, c: seq<Byte>)
    ensures (a + (b + c))[|a|..|a| + |b|] == b
  {}

  lemma CutInThree<T>(s: seq<T>, p: nat, q: nat)
    requires p <= q <= |s|
    ensures s == s[..p] + (s[p..q] + s[q..])
  {}

  /** Concatenated bytes of the middle of three runs of frames. */
  lemma MiddleBytes(a: seq<Frame>, b: seq<Frame>, c: seq<Frame>)
    ensures |Concat(a + (b + c))| == 24 * |a + (b + c)|
    ensures Concat(a + (b + c))[24 * |a|..24 * (|a| + |b|)] == Concat(b)
  {
    hide Concat;
    ConcatLength(a);
    ConcatLength(b);
    ConcatLength(a + (b + c));
    ConcatAppend(a, b + c);
    ConcatAppend(b, c);
    Middle(Concat(a), Concat(b), Concat(c));
  }

  lemma WholeFrames(fs: seq<Frame>, p: nat, q: nat)
    requires p <= q <= |fs|
    ensures |Concat(fs)| == 24 * |fs|
    ensures Concat(fs)[24 * p..24 * q] == Concat(fs[p..q])
  {
    hide Concat;
    CutInThree(fs, p, q);
    MiddleBytes(fs[..p], fs[p..q], fs[q..]);
  }

  lemma SilentThenFrames(garbage: seq<Byte>, fs: seq<Frame>, tail: seq<Byte>)
    requires AllVerify(fs) && |tail| < 24
    requires SilentFor(garbage + (Concat(fs) + tail), |garbage|)
    ensures ScanStream(garbage + (Concat(fs) + tail)).frames == fs
  {
    hide AllVerify, ScanStream, Concat, Verifies;
    Resynchronises(garbage, fs, tail);
  }

  lemma StretchDecodes(fs: seq<Frame>, at: nat, p: nat, q: nat, to: nat)
    requires AllVerify(fs)
    requires at <= 24 * p <= 24 * q <= to <= 24 * |fs| == |Concat(fs)|
    requires to < 24 * q + 24
    requires SilentFor(Concat(fs)[at..to], 24 * p - at)
    ensures ScanStream(Concat(fs)[at..to]).frames == fs[p..q]
  {
    hide AllVerify, ScanStream, Concat, SilentFor;
    SomeVerify(fs, p, q);
    Stretch(fs, at, p, q, to);
    SilentThenFrames(Concat(fs)[at..24 * p], fs[p..q], Concat(fs)[24 * q..to]);
  }

  /** One receiver sees exactly the frames that lie whole in its log. */
  lemma LogDecodes(fs: seq<Frame>, at: nat, log: seq<Byte>)
    requires AllVerify(fs)
    requires at + |log| <= 24 * |fs| == |Concat(fs)|
    requires log == Concat(fs)[at..at + |log|]
    requires SilentFor(log, Torn(at))
    ensures ScanStream(log).frames
         == if NextFrame(at) <= (at + |log|) / 24 then fs[NextFrame(at)..(at + |log|) / 24] else []
  {
    hide AllVerify, ScanStream, Concat, SilentFor;
    var p, q := NextFrame(at), (at + |log|) / 24;
    if p <= q {
      StretchDecodes(fs, at, p, q, at + |log|);
    } else {
      ShortLog(log);
    }
  }

  lemma ShortLog(log: seq<Byte>)
    ensures |log| < 24 ==> ScanStream(log).frames == []
  {}

  lemma SplitSlice(x: seq<Byte>, at: nat, first: seq<Byte>, rest: seq<Byte>)
    requires at + |first + rest| <= |x| && first + rest == x[at..at + |first + rest|]
    ensures first == x[at..at + |first|]
    ensures rest == x[at + |first|..at + |first| + |rest|]
  {
    assert first == (first + rest)[..|first|];
    assert rest == (first + rest)[|first|..];
  }

  /** Receivers together see exactly the frames that no connection boundary cuts. */
  lemma {:induction false} DeliveredIsKept(fs: seq<Frame>, logs: seq<seq<Byte>>, at: nat)
    requires AllVerify(fs)
    requires at + |Concat(logs)| <= 24 * |fs| == |Concat(fs)|
    requires Concat(logs) == Concat(fs)[at..at + |Concat(logs)|]
    requires TearsSilent(logs, at)
    ensures Below(Kept(logs, at), |fs|)
    ensures Delivered(logs) == Pick(fs, Kept(logs, at))
    decreases |logs|
  {
    hide AllVerify, ScanStream, SilentFor, Pick, NextFrame, Torn, Indices;
    if logs != [] {
      var log, more := logs[0], logs[1..];
      var end := at + |log|;
      SplitSlice(Concat(fs), at, log, Concat(more));
      LogDecodes(fs, at, log);
      DeliveredIsKept(fs, more, end);
      KeptHere(fs, at, log);
      PickAppend(fs, Indices(NextFrame(at), end / 24), Kept(more, end));
    }
  }

  lemma KeptHere(fs: seq<Frame>, at: nat, log: seq<Byte>)
    requires at + |log| <= 24 * |fs|
    ensures Below(Indices(NextFrame(at), (at + |log|) / 24), |fs|)
    ensures Pick(fs, Indices(NextFrame(at), (at + |log|) / 24))
         == if NextFrame(at) <= (at + |log|) / 24 then fs[NextFrame(at)..(at + |log|) / 24] else []
  {
    if NextFrame(at) <= (at + |log|) / 24 {
      PickRange(fs, NextFrame(at), (at + |log|) / 24);
    }
  }

  // ----- which frames are lost -----

  /** Where the c-th connection takes over from the one before. */
  function Boundary(logs: seq<seq<Byte>>, at: nat, c: nat): (r: nat)
    requires c <= |logs|
  {
    at + |Concat(logs[..c])|
  }

  /** Some connection boundary falls strictly inside frame k. */
  ghost predicate Cut(logs: seq<seq<Byte>>, at: nat, k: nat) {
    exists c :: 0 < c < |logs| && 24 * k < Boundary(logs, at, c) < 24 * k + 24
  }

  lemma BoundaryShift(logs: seq<seq<Byte>>, at: nat, c: nat)
    requires 0 < c <= |logs|
    ensures Boundary(logs, at, c) == Boundary(logs[1..], at + |logs[0]|, c - 1)
  {
    assert logs[..c][0] == logs[0];
    assert logs[..c][1..] == logs[1..][..c - 1];
  }

  /** Of the frames that were accepted whole, exactly those a boundary cuts are lost. */
  lemma {:induction false} LostExactlyCut(logs: seq<seq<Byte>>, at: nat, k: nat)
    requires at <= 24 * k && 24 * k + 24 <= at + |Concat(logs)|
    ensures k in Kept(logs, at) <==> !Cut(logs, at, k)
    decreases |logs|
  {
    hide Boundary, NextFrame;
    if logs != [] {
      var log, more := logs[0], logs[1..];
      var end := at + |log|;
      IndicesIn(NextFrame(at), end / 24);
      NextFrameFirst(at, k);
      if 24 * k + 24 <= end {
        InFirstNotCut(logs, at, k);
      } else if 24 * k < end {
        FirstBoundary(logs, at);
        assert Cut(logs, at, k) by {
          assert more != [];
        }
        if k in Kept(more, end) {
          KeptWithin(more, end, k);
        }
      } else {
        LostExactlyCut(more, end, k);
        CutLater(logs, at, k);
      }
    }
  }

  lemma NextFrameFirst(at: nat, k: nat)
    ensures at <= 24 * k <==> NextFrame(at) <= k
  {}

  lemma FirstBoundary(logs: seq<seq<Byte>>, at: nat)
    requires logs != []
    ensures Boundary(logs, at, 1) == at + |logs[0]|
  {
    assert logs[..1] == [logs[0]];
    ConcatOne(logs[0]);
  }

  lemma InFirstNotCut(logs: seq<seq<Byte>>, at: nat, k: nat)
    requires logs != [] && 24 * k + 24 <= at + |logs[0]|
    ensures !Cut(logs, at, k)
  {}

  lemma CutLater(logs: seq<seq<Byte>>, at: nat, k: nat)
    requires logs != [] && at + |logs[0]| <= 24 * k
    ensures Cut(logs, at, k) <==> Cut(logs[1..], at + |logs[0]|, k)
  {
    hide Boundary;
    FirstBoundary(logs, at);
    if Cut(logs, at, k) {
      var c :| 0 < c < |logs| && 24 * k < Boundary(logs, at, c) < 24 * k + 24;
      BoundaryShift(logs, at, c);
    }
    if Cut(logs[1..], at + |logs[0]|, k) {
      var c :| 0 < c < |logs[1..]| && 24 * k < Boundary(logs[1..], at + |logs[0]|, c) < 24 * k + 24;
      BoundaryShift(logs, at, c + 1);
    }
  }

  /** At most one frame per boundary is lost. */
  lemma {:induction false} LossBound(logs: seq<seq<Byte>>, at: nat)
    requires logs != []
    ensures |Kept(logs, at)| + |logs| - 1 >= (at + |Concat(logs)|) / 24 - NextFrame(at)
    decreases |logs|
  {
    var log, more := logs[0], logs[1..];
    var end := at + |log|;
    IndicesIn(NextFrame(at), end / 24);
    if more == [] {
      assert Concat(logs) == log;
    } else {
      LossBound(more, end);
      assert |Concat(logs)| == |log| + |Concat(more)|;
    }
  }

  lemma {:induction false} KeptIncreases(logs: seq<seq<Byte>>, at: nat)
    ensures forall i, j :: 0 <= i < j < |Kept(logs, at)| ==> Kept(logs, at)[i] < Kept(logs, at)[j]
    decreases |logs|
  {
    if logs != [] {
      var end := at + |logs[0]|;
      var a, b := Indices(NextFrame(at), end / 24), Kept(logs[1..], end);
      KeptIncreases(logs[1..], end);
      IndicesIncrease(NextFrame(at), end / 24);
      IndicesIn(NextFrame(at), end / 24);
      forall i, j | 0 <= i < |a| && 0 <= j < |b|
        ensures a[i] < b[j]
      {
        assert a[i] in a && b[j] in b;
        KeptWithin(logs[1..], end, b[j]);
      }
    }
  }

  lemma {:induction false} IndicesIncrease(a: nat, b: nat)
    ensures forall i, j :: 0 <= i < j < |Indices(a, b)| ==> Indices(a, b)[i] < Indices(a, b)[j]
    decreases b - a
  {
    if a < b {
      IndicesIncrease(a + 1, b);
      IndicesIn(a + 1, b);
      var t := Indices(a + 1, b);
      forall j | 0 <= j < |t|
        ensures a < t[j]
      {
        assert t[j] in t;
      }
    }
  }

  // ----- the whole path -----

  /** The receiver of the only connection decodes the pushed frames in order, all of them
      once the batch has drained. */
  ghost predicate DeliversAll(e: Edge)
    requires |e.tcp.logs| == 1
  {
    var r, n := ScanStream(e.tcp.logs[0]), |e.tcp.logs[0]| / 24;
    && n <= |e.pushed|
    && r.frames == e.pushed[..n] && r.drops == 0 && r.resync == 0
    && (e.batch.frames == [] ==> r.frames == e.pushed)
  }

  /** A log followed by what is still unsent makes up the pushed frames. */
  lemma LogOfPushed(pushed: seq<Frame>, log: seq<Byte>, unsent: seq<Byte>)
    requires AllVerify(pushed) && log + unsent == Concat(pushed)
    ensures var r, n := ScanStream(log), |log| / 24;
      && n <= |pushed| && r.frames == pushed[..n] && r.drops == 0 && r.resync == 0
      && (unsent == [] ==> r.frames == pushed)
  {
    hide Concat, ScanStream, AllVerify;
    ConcatLength(pushed);
    assert log == (log + unsent)[..|log|];
    PrefixDecodes(pushed, |log| / 24, log);
    if unsent == [] {
      assert pushed[..|pushed|] == pushed;
    }
  }

  lemma OneLogDeliversAll(e: Edge)
    requires e.Valid() && Conserved(e) && AllVerify(e.pushed) && |e.tcp.logs| == 1
    ensures DeliversAll(e)
  {
    hide ScanStream, AllVerify;
    ConcatLength(e.batch.frames);
    ConcatOne(e.tcp.logs[0]);
    assert e.tcp.logs == [e.tcp.logs[0]];
    LogOfPushed(e.pushed, e.tcp.logs[0], Concat(e.batch.frames)[e.batch.offset..]);
  }

  /** With a single connection nothing is lost, whatever the socket accepts at a time; no
      further assumption is needed. */
  lemma OneConnectionDeliversAll(capacity: nat, a: Answers, evs: seq<Event>)
    ensures var e := Run(TcpOnly, capacity, a, evs); |e.tcp.logs| == 1 ==> DeliversAll(e)
  {
    hide Run, Conserved, DeliversAll, AllVerify;
    var e := Run(TcpOnly, capacity, a, evs);
    TcpRunConserves(capacity, a, evs);
    PushedVerify(TcpOnly, capacity, a, evs);
    if |e.tcp.logs| == 1 {
      OneLogDeliversAll(e);
    }
  }

  lemma SomeVerify(fs: seq<Frame>, p: nat, q: nat)
    requires AllVerify(fs) && p <= q <= |fs|
    ensures AllVerify(fs[p..q])
  {}

  lemma PrefixShape(fs: seq<Frame>, n: nat, log: seq<Byte>) returns (tail: seq<Byte>)
    requires |Concat(fs)| == 24 * |fs|
    requires |log| <= |Concat(fs)| && log == Concat(fs)[..|log|]
    requires n == |log| / 24
    ensures |tail| < 24 && log == Concat(fs[..n]) + tail
  {
    hide Concat;
    PrefixOfFrames(fs, |log|);
    tail := if |log| % 24 == 0 then [] else fs[n][..|log| % 24];
  }

  lemma PrefixDecodes(fs: seq<Frame>, n: nat, log: seq<Byte>)
    requires AllVerify(fs)
    requires |Concat(fs)| == 24 * |fs|
    requires |log| <= |Concat(fs)| && log == Concat(fs)[..|log|]
    requires n == |log| / 24
    ensures var r := ScanStream(log); r.frames == fs[..n] && r.drops == 0 && r.resync == 0
  {
    hide Concat, ScanStream, AllVerify;
    var tail := PrefixShape(fs, n, log);
    SomeVerify(fs, 0, n);
    assert fs[0..n] == fs[..n];
    CleanStream(fs[..n], tail);
  }

  /** With reconnects: the receivers decode the pushed frames that no boundary cuts, in order
      and each once; at most one frame per boundary is lost, provided torn beginnings hold no
      window that verifies. */
  lemma ReconnectsLoseCutFrames(capacity: nat, a: Answers, evs: seq<Event>)
    requires TearsSilent(Run(TcpOnly, capacity, a, evs).tcp.logs, 0)
    ensures var e := Run(TcpOnly, capacity, a, evs);
      var ks := Kept(e.tcp.logs, 0);
      var whole := |Concat(e.tcp.logs)| / 24;
      && Below(ks, |e.pushed|)
      && Delivered(e.tcp.logs) == Pick(e.pushed, ks)
      && (forall i, j :: 0 <= i < j < |ks| ==> ks[i] < ks[j])
      && (forall k: nat :: k < whole ==> (k in ks <==> !Cut(e.tcp.logs, 0, k)))
      && (e.tcp.logs != [] ==> |ks| >= whole - (|e.tcp.logs| - 1))
      && (e.batch.frames == [] ==> whole == |e.pushed|)
  {
    hide Run, Concat, ScanStream, VerifyFrame, TearsSilent, Kept, Delivered, Cut;
    var e := Run(TcpOnly, capacity, a, evs);
    TcpRunConserves(capacity, a, evs);
    PushedVerify(TcpOnly, capacity, a, evs);
    ConcatLength(e.batch.frames);
    ConcatLength(e.pushed);
    var x := Concat(e.tcp.logs);
    assert x == Concat(e.pushed)[0..0 + |x|];
    DeliveredIsKept(e.pushed, e.tcp.logs, 0);
    KeptIncreases(e.tcp.logs, 0);
    forall k: nat | k < |x| / 24
      ensures k in Kept(e.tcp.logs, 0) <==> !Cut(e.tcp.logs, 0, k)
    {
      LostExactlyCut(e.tcp.logs, 0, k);
    }
    if e.tcp.logs != [] {
      LossBound(e.tcp.logs, 0);
    }
  }

  // ----- a run that loses a frame -----

  /** The socket takes ten bytes, breaks, and after the reconnect takes all it is offered. */
  function TornAnswers(): (a: Answers) {
    Answers(k => if k == 0 then 10 else if k == 1 then -1 else 24, _ => true, _ => true)
  }

  function TornRun(s: SensorSample): (evs: seq<Event>) {
    [Connect(0, true), Push(s), FlushNow(0, true, 0), FlushNow(0, true, 0)]
  }

  lemma RunSteps(tr: Transport, capacity: nat, a: Answers, evs: seq<Event>, ev: Event)
    ensures Run(tr, capacity, a, evs + [ev]) == Step(tr, Run(tr, capacity, a, evs), a, ev)
  {
    hide Step;
    assert (evs + [ev])[..|evs + [ev]| - 1] == evs;
  }

  /** Connected, with one frame in a batch of one. */
  function OneFrameWaiting(f: Frame): (e: Edge) {
    Edge(Batch([f], 0, 1, 1), Tcp(true, [[]], 0), OPEN_GATE, [], [], [f], 0, 0, 0)
  }

  lemma OneFrameBatch(f: Frame)
    ensures Batch([f], 0, 1, 1).Bytes() == f
    ensures Batch([f], 10, 1, 1).Bytes() == f
  {
    ConcatOne(f);
  }

  lemma ConnectAndPush(s: SensorSample)
    ensures Run(TcpOnly, 1, TornAnswers(), [Connect(0, true), Push(s)]) == OneFrameWaiting(PackFrame(s))
  {
    hide PackFrame, FlushedBatch;
    var a := TornAnswers();
    RunSteps(TcpOnly, 1, a, [], Connect(0, true));
    RunSteps(TcpOnly, 1, a, [Connect(0, true)], Push(s));
    assert [] + [Connect(0, true)] == [Connect(0, true)];
    assert [Connect(0, true)] + [Push(s)] == [Connect(0, true), Push(s)];
    assert [] + [PackFrame(s)] == [PackFrame(s)];
  }

  /** Ten bytes go out, then the connection breaks. */
  lemma FirstFlushTears(f: Frame)
    ensures FlushedBatch(TcpOnly, OneFrameWaiting(f), TornAnswers(), 0, true, 0).edge
         == OneFrameWaiting(f).(batch := Batch([f], 10, 1, 1), tcp := Tcp(false, [f[..10]], 2))
  {
    var e, o := OneFrameWaiting(f), TornAnswers().sends;
    OneFrameBatch(f);
    assert f[0..] == f && [] + f[..10] == f[..10];
    var t := Tcp(true, [f[..10]], 1);
    var none: seq<seq<Byte>> := [[]];
    assert |f| == 24 && f != [] && o(0) == 10;
    assert none[0 := none[0] + f[..10]] == [f[..10]];
    assert Send(e.tcp, o, f) == (t, 10);
    assert Send(t, o, f[10..]) == (Tcp(false, [f[..10]], 2), -1);
    var b := Batch([f], 10, 1, 1);
    assert SendLoop(b, t, o) == Flush(b, Tcp(false, [f[..10]], 2), false);
    assert SendLoop(e.batch, e.tcp, o) == SendLoop(b, t, o);
  }

  /** The rest of the frame goes out on a new connection. */
  lemma SecondFlushMends(f: Frame)
    ensures var torn := OneFrameWaiting(f).(batch := Batch([f], 10, 1, 1), tcp := Tcp(false, [f[..10]], 2));
      FlushedBatch(TcpOnly, torn, TornAnswers(), 0, true, 0).edge
         == OneFrameWaiting(f).(batch := Batch([], 0, 1, 1), tcp := Tcp(true, [f[..10], f[10..]], 3))
  {
    var o := TornAnswers().sends;
    OneFrameBatch(f);
    var t := Tcp(true, [f[..10], []], 2);
    assert [f[..10]] + [[]] == [f[..10], []];
    assert [] + f[10..] == f[10..] && f[10..][..14] == f[10..];
    var t' := Tcp(true, [f[..10], f[10..]], 3);
    assert t.logs[1 := f[10..]] == t'.logs;
    assert Send(t, o, f[10..]) == (t', 14);
    var b := Batch([f], 10, 1, 1);
    assert SendLoop(b.(offset := 24), t', o) == Flush(Cleared(b), t', true);
    assert SendLoop(b, t, o) == SendLoop(b.(offset := 24), t', o);
  }

  /** A TCP-only run with one reconnect in which a frame that was accepted whole is decoded by no
      receiver: a boundary cuts it. */
  lemma ReconnectCanLoseFrame(s: SensorSample)
    ensures var e := Run(TcpOnly, 1, TornAnswers(), TornRun(s));
      && e.pushed == [PackFrame(s)] && e.batch.frames == []
      && e.tcp.logs == [PackFrame(s)[..10], PackFrame(s)[10..]]
      && Cut(e.tcp.logs, 0, 0) && Delivered(e.tcp.logs) == []
  {
    hide PackFrame, FlushedBatch, Delivered, Cut;
    var a, f := TornAnswers(), PackFrame(s);
    var two := [Connect(0, true), Push(s)];
    var flush := FlushNow(0, true, 0);
    ConnectAndPush(s);
    RunSteps(TcpOnly, 1, a, two, flush);
    RunSteps(TcpOnly, 1, a, two + [flush], flush);
    assert two + [flush] + [flush] == TornRun(s);
    FirstFlushTears(f);
    SecondFlushMends(f);
    HalvesAreLost(f);
  }

  lemma HalvesAreLost(f: Frame)
    ensures Cut([f[..10], f[10..]], 0, 0) && Delivered([f[..10], f[10..]]) == []
  {
    hide ScanStream;
    var logs := [f[..10], f[10..]];
    ShortLog(f[..10]);
    ShortLog(f[10..]);
    assert logs[1..] == [f[10..]] && [f[10..]][1..] == [];
    assert logs[..1] == [f[..10]];
    ConcatOne(f[..10]);
    assert 24 * 0 < Boundary(logs, 0, 1) < 24 * 0 + 24;
    assert Delivered([]) == [];
    assert Delivered([f[10..]]) == [] + [];
    assert Delivered(logs) == [] + Delivered(logs[1..]);
  }
}

/** What a frame stream means: the byte-by-byte scanner that both decoders are
    measured against, and its laws. */
module StreamScan {
  import opened Bytes
  import opened WireFrame

  /** What a scan produced: frames in order, failed checks at a magic, bytes skipped, bytes kept back. */
  datatype Scan = Scan(frames: seq<Frame>, drops: nat, resync: nat, rest: seq<Byte>)

  const EMPTY := Scan([], 0, 0, [])

  /** A window is decided by its first 24 bytes alone: a verifying frame is taken
      whole, anything else gives up one byte. */
  function ScanStream(s: seq<Byte>): (r: Scan)
    decreases |s|
  {
    if |s| < 24 then Scan([], 0, 0, s)
    else if VerifyFrame(s[..24]) then
      var t := ScanStream(s[24..]);
      t.(frames := [s[..24]] + t.frames)
    else
      var t := ScanStream(s[1..]);
      t.(drops := t.drops + (if MagicAt(s, 0) then 1 else 0), resync := t.resync + 1)
  }

  /** One scan continued by another. */
  function Then(a: Scan, b: Scan): (r: Scan) {
    Scan(a.frames + b.frames, a.drops + b.drops, a.resync + b.resync, b.rest)
  }

  predicate AllVerify(fs: seq<Frame>) {
    forall f :: f in fs ==> VerifyFrame(f)
  }

  // ----- conservation -----

  /** Every byte received is in a frame, skipped, or kept; at most 23 are kept. */
  lemma {:induction false} Conservation(s: seq<Byte>)
    ensures var r := ScanStream(s);
      && 24 * |r.frames| + r.resync + |r.rest| == |s|
      && |r.rest| <= 23
      && r.rest == s[|s| - |r.rest|..]
      && r.drops <= r.resync
      && AllVerify(r.frames)
    decreases |s|
  {
    hide VerifyFrame, MagicAt;
    if |s| >= 24 {
      Conservation(s[24..]);
      Conservation(s[1..]);
    }
  }

  // ----- chunking -----

  /** Scanning a stream is scanning a first part and then the leftover with the rest. */
  lemma {:induction false} ScanAppend(a: seq<Byte>, b: seq<Byte>)
    ensures ScanStream(a + b) == Then(ScanStream(a), ScanStream(ScanStream(a).rest + b))
    decreases |a|
  {
    hide VerifyFrame, MagicAt;
    if |a| >= 24 {
      assert (a + b)[..24] == a[..24];
      if VerifyFrame(a[..24]) {
        assert (a + b)[24..] == a[24..] + b;
        ScanAppend(a[24..], b);
        AppendAssoc([a[..24]], ScanStream(a[24..]).frames, ScanStream(ScanStream(a[24..]).rest + b).frames);
      } else {
        assert (a + b)[1..] == a[1..] + b;
        ScanAppend(a[1..], b);
        MagicLocal(a, b);
      }
    }
  }

  lemma MagicLocal(a: seq<Byte>, b: seq<Byte>)
    requires |a| >= 2
    ensures MagicAt(a + b, 0) == MagicAt(a, 0)
  {}

  /** The receiver's state after one more chunk. */
  function Receive(st: Scan, chunk: seq<Byte>): (r: Scan) {
    Then(st, ScanStream(st.rest + chunk))
  }

  function ReceiveAll(st: Scan, chunks: seq<seq<Byte>>): (r: Scan)
    decreases |chunks|
  {
    if chunks == [] then st else ReceiveAll(Receive(st, chunks[0]), chunks[1..])
  }

  /** However the stream is cut into chunks, the outcome is that of one call on the whole. */
  lemma ChunkingIrrelevant(chunks: seq<seq<Byte>>)
    ensures ReceiveAll(EMPTY, chunks) == ScanStream(Concat(chunks))
  {
    hide VerifyFrame;
    assert EMPTY == ScanStream([]);
    ReceiveContinues([], chunks);
    assert [] + Concat(chunks) == Concat(chunks);
  }

  lemma {:induction false} ReceiveContinues(before: seq<Byte>, chunks: seq<seq<Byte>>)
    ensures ReceiveAll(ScanStream(before), chunks) == ScanStream(before + Concat(chunks))
    decreases |chunks|
  {
    hide VerifyFrame, ScanStream;
    if chunks == [] {
      assert before + Concat(chunks) == before;
    } else {
      ScanAppend(before, chunks[0]);
      ReceiveContinues(before + chunks[0], chunks[1..]);
      AppendAssoc(before, chunks[0], Concat(chunks[1..]));
    }
  }

  // ----- greedy leftmost -----

  predicate Verifies(s: seq<Byte>, i: nat) {
    i + 24 <= |s| && VerifyFrame(s[i..i + 24])
  }

  /** ps picks, from position i on, verifying windows that do not overlap, and no
      verifying window starts outside a picked one. */
  ghost predicate GreedyLeftmost(s: seq<Byte>, i: nat, ps: seq<nat>) {
    && (forall k :: 0 <= k < |ps| ==> i <= ps[k] && Verifies(s, ps[k]))
    && (forall k :: 0 <= k < |ps| - 1 ==> ps[k] + 24 <= ps[k + 1])
    && (forall j :: i <= j && Verifies(s, j) ==> Covered(ps, j))
  }

  ghost predicate Covered(ps: seq<nat>, j: nat) {
    exists k :: 0 <= k < |ps| && ps[k] <= j < ps[k] + 24
  }

  function Positions(s: seq<Byte>, i: nat): (r: seq<nat>)
    decreases |s| - i
  {
    if i + 24 > |s| then []
    else if Verifies(s, i) then [i] + Positions(s, i + 24)
    else Positions(s, i + 1)
  }

  function FramesAt(s: seq<Byte>, ps: seq<nat>): (r: seq<Frame>)
    requires forall k :: 0 <= k < |ps| ==> ps[k] + 24 <= |s|
    ensures |r| == |ps|
  {
    if ps == [] then [] else [s[ps[0]..ps[0] + 24]] + FramesAt(s, ps[1..])
  }

  lemma {:induction false} PositionsGreedy(s: seq<Byte>, i: nat)
    ensures GreedyLeftmost(s, i, Positions(s, i))
    decreases |s| - i
  {
    hide VerifyFrame, GreedyLeftmost;
    if i + 24 > |s| {
      GreedyNone(s, i);
    } else if Verifies(s, i) {
      PositionsGreedy(s, i + 24);
      GreedyTake(s, i, Positions(s, i + 24));
    } else {
      PositionsGreedy(s, i + 1);
      GreedySkip(s, i, Positions(s, i + 1));
    }
  }

  lemma GreedyNone(s: seq<Byte>, i: nat)
    requires i + 24 > |s|
    ensures GreedyLeftmost(s, i, [])
  {}

  lemma GreedySkip(s: seq<Byte>, i: nat, ps: seq<nat>)
    requires !Verifies(s, i)
    ensures GreedyLeftmost(s, i, ps) <==> GreedyLeftmost(s, i + 1, ps)
  {}

  lemma GreedyTake(s: seq<Byte>, i: nat, t: seq<nat>)
    requires Verifies(s, i)
    requires GreedyLeftmost(s, i + 24, t)
    ensures GreedyLeftmost(s, i, [i] + t)
  {
    hide Verifies, Covered;
    var ps := [i] + t;
    forall j | i <= j && Verifies(s, j)
      ensures Covered(ps, j)
    {
      if j < i + 24 {
        CoveredFirst(i, t, j);
      } else {
        CoveredLater(i, t, j);
      }
    }
    forall k | 0 <= k < |ps|
      ensures i <= ps[k] && Verifies(s, ps[k])
    {
      if k > 0 {
        assert ps[k] == t[k - 1];
      }
    }
    forall k | 0 <= k < |ps| - 1
      ensures ps[k] + 24 <= ps[k + 1]
    {
      assert ps[k + 1] == t[k];
      if k > 0 {
        assert ps[k] == t[k - 1];
      }
    }
  }

  lemma CoveredFirst(i: nat, t: seq<nat>, j: nat)
    requires i <= j < i + 24
    ensures Covered([i] + t, j)
  {
    assert ([i] + t)[0] == i;
  }

  lemma CoveredLater(i: nat, t: seq<nat>, j: nat)
    requires Covered(t, j)
    ensures Covered([i] + t, j)
  {
    var k :| 0 <= k < |t| && t[k] <= j < t[k] + 24;
    assert ([i] + t)[k + 1] == t[k];
  }

  /** A greedy choice starting where a window verifies takes that window first. */
  lemma GreedyFirst(s: seq<Byte>, i: nat, ps: seq<nat>)
    requires Verifies(s, i)
    requires GreedyLeftmost(s, i, ps)
    ensures ps != [] && ps[0] == i
    ensures GreedyLeftmost(s, i + 24, ps[1..])
  {
    hide Verifies;
    GreedyHead(s, i, ps);
    GreedyTail(s, i, ps);
  }

  lemma GreedyHead(s: seq<Byte>, i: nat, ps: seq<nat>)
    requires Verifies(s, i)
    requires GreedyLeftmost(s, i, ps)
    ensures ps != [] && ps[0] == i
  {
    hide Verifies;
    assert Covered(ps, i);
    var k :| 0 <= k < |ps| && ps[k] <= i < ps[k] + 24;
    Increasing(ps, 0, k);
  }

  lemma GreedyTail(s: seq<Byte>, i: nat, ps: seq<nat>)
    requires GreedyLeftmost(s, i, ps)
    requires ps != [] && ps[0] == i
    ensures GreedyLeftmost(s, i + 24, ps[1..])
  {
    hide Verifies, Covered;
    var t := ps[1..];
    forall j | i + 24 <= j && Verifies(s, j)
      ensures Covered(t, j)
    {
      CoveredInTail(i, ps, j);
    }
    forall m | 0 <= m < |t|
      ensures i + 24 <= t[m] && Verifies(s, t[m])
    {
      Increasing(ps, 0, m + 1);
    }
  }

  lemma CoveredInTail(i: nat, ps: seq<nat>, j: nat)
    requires ps != [] && ps[0] == i && i + 24 <= j
    requires Covered(ps, j)
    ensures Covered(ps[1..], j)
  {}

  /** There is only one greedy leftmost choice. */
  lemma {:induction false} GreedyUnique(s: seq<Byte>, i: nat, ps: seq<nat>)
    requires GreedyLeftmost(s, i, ps)
    ensures ps == Positions(s, i)
    decreases |s| - i
  {
    hide VerifyFrame, GreedyLeftmost;
    if i + 24 > |s| {
      GreedyNoRoom(s, i, ps);
    } else if Verifies(s, i) {
      GreedyFirst(s, i, ps);
      GreedyUnique(s, i + 24, ps[1..]);
      assert ps == [ps[0]] + ps[1..];
    } else {
      GreedySkip(s, i, ps);
      GreedyUnique(s, i + 1, ps);
    }
  }

  lemma GreedyNoRoom(s: seq<Byte>, i: nat, ps: seq<nat>)
    requires i + 24 > |s|
    requires GreedyLeftmost(s, i, ps)
    ensures ps == []
  {
    hide Verifies;
    if ps != [] {
      NoRoomAt(s, ps[0]);
    }
  }

  lemma NoRoomAt(s: seq<Byte>, i: nat)
    requires i + 24 > |s|
    ensures !Verifies(s, i)
  {}

  lemma {:induction false} Increasing(ps: seq<nat>, a: nat, b: nat)
    requires forall k :: 0 <= k < |ps| - 1 ==> ps[k] + 24 <= ps[k + 1]
    requires a <= b < |ps|
    ensures ps[a] + 24 * (b - a) <= ps[b]
    decreases b - a
  {
    if a < b {
      Increasing(ps, a + 1, b);
    }
  }

  /** The scanner's frames are exactly the windows at the greedy leftmost positions. */
  lemma ScanIsGreedy(s: seq<Byte>, ps: seq<nat>)
    requires GreedyLeftmost(s, 0, ps)
    ensures (forall k :: 0 <= k < |ps| ==> ps[k] + 24 <= |s|)
    ensures ScanStream(s).frames == FramesAt(s, ps)
  {
    hide VerifyFrame, ScanStream;
    GreedyUnique(s, 0, ps);
    assert s[0..] == s;
    ScanFromPositions(s, 0);
  }

  lemma {:induction false} ScanFromPositions(s: seq<Byte>, i: nat)
    requires i <= |s|
    ensures (forall k :: 0 <= k < |Positions(s, i)| ==> Positions(s, i)[k] + 24 <= |s|)
    ensures ScanStream(s[i..]).frames == FramesAt(s, Positions(s, i))
    decreases |s| - i
  {
    hide VerifyFrame, MagicAt;
    var u := s[i..];
    if i + 24 <= |s| {
      assert u[..24] == s[i..i + 24];
      if Verifies(s, i) {
        assert u[24..] == s[i + 24..];
        ScanFromPositions(s, i + 24);
        assert Positions(s, i)[1..] == Positions(s, i + 24);
      } else {
        assert u[1..] == s[i + 1..];
        ScanFromPositions(s, i + 1);
      }
    }
  }

  // ----- skipping -----

  /** How many of the first n positions carry the magic. */
  function MagicCount(s: seq<Byte>, n: nat): (r: nat)
    requires n + 1 <= |s| || n == 0
  {
    if n == 0 then 0 else MagicCount(s[1..], n - 1) + (if MagicAt(s, 0) then 1 else 0)
  }

  /** When none of the first n windows verifies, the scan gives up exactly those n bytes. */
  lemma {:induction false} SkipFailing(s: seq<Byte>, n: nat)
    requires n + 23 <= |s|
    requires forall i :: 0 <= i < n ==> !Verifies(s, i)
    ensures ScanStream(s) == Then(Scan([], MagicCount(s, n), n, []), ScanStream(s[n..]))
    decreases n
  {
    hide VerifyFrame, MagicAt;
    if n == 0 {
      assert s[0..] == s;
      var t := ScanStream(s);
      assert [] + t.frames == t.frames;
    } else {
      assert s[0..24] == s[..24];
      assert !Verifies(s, 0);
      var u := s[1..];
      forall i | 0 <= i < n - 1
        ensures !Verifies(u, i)
      {
        assert !Verifies(s, i + 1);
        if i + 24 <= |u| {
          assert u[i..i + 24] == s[i + 1..i + 25];
        }
      }
      SkipFailing(u, n - 1);
      assert u[n - 1..] == s[n..];
      assert ScanStream(s).frames == ScanStream(u).frames;
    }
  }

  /** When the first n positions carry no magic, nothing is counted as a failed check. */
  lemma SkipNoMagic(s: seq<Byte>, n: nat)
    requires n + 23 <= |s|
    requires forall i :: 0 <= i < n ==> !MagicAt(s, i)
    ensures ScanStream(s) == Then(Scan([], 0, n, []), ScanStream(s[n..]))
  {
    hide ScanStream;
    forall i | 0 <= i < n && Verifies(s, i)
      ensures false
    {
      MagicOfWindow(s, i);
    }
    NoMagicCount(s, n);
    SkipFailing(s, n);
  }

  lemma MagicOfWindow(s: seq<Byte>, i: nat)
    requires Verifies(s, i)
    ensures MagicAt(s, i)
  {}

  lemma {:induction false} NoMagicCount(s: seq<Byte>, n: nat)
    requires n + 1 <= |s| || n == 0
    requires forall i :: 0 <= i < n ==> !MagicAt(s, i)
    ensures MagicCount(s, n) == 0
    decreases n
  {
    if n > 0 {
      assert !MagicAt(s, 0);
      forall i | 0 <= i < n - 1
        ensures !MagicAt(s[1..], i)
      {
        assert !MagicAt(s, i + 1);
      }
      NoMagicCount(s[1..], n - 1);
    }
  }

  // ----- clean and garbled streams -----

  /** Whole valid frames with a short tail decode to exactly those frames. */
  lemma {:induction false} CleanStream(fs: seq<Frame>, tail: seq<Byte>)
    requires AllVerify(fs)
    requires |tail| < 24
    ensures ScanStream(Concat(fs) + tail) == Scan(fs, 0, 0, tail)
    decreases |fs|
  {
    hide VerifyFrame, MagicAt;
    var s := Concat(fs) + tail;
    if fs == [] {
      assert s == tail;
    } else {
      AppendAssoc(fs[0], Concat(fs[1..]), tail);
      assert s[..24] == fs[0];
      assert s[24..] == Concat(fs[1..]) + tail;
      assert fs[0] in fs;
      CleanStream(fs[1..], tail);
      assert fs == [fs[0]] + fs[1..];
    }
  }

  /** Garbage in which no window starts to verify costs exactly its own bytes. */
  lemma Resynchronises(garbage: seq<Byte>, fs: seq<Frame>, tail: seq<Byte>)
    requires AllVerify(fs)
    requires |tail| < 24
    requires forall i :: 0 <= i < |garbage| ==> !Verifies(garbage + (Concat(fs) + tail), i)
    ensures ScanStream(garbage + (Concat(fs) + tail)).frames == fs
    ensures fs != [] ==> ScanStream(garbage + (Concat(fs) + tail)).resync == |garbage|
    ensures fs != [] ==> ScanStream(garbage + (Concat(fs) + tail)).rest == tail
  {
    hide VerifyFrame, ScanStream;
    var u := Concat(fs) + tail;
    var s := garbage + u;
    CleanStream(fs, tail);
    ConcatLength(fs);
    if fs != [] {
      SkipFailing(s, |garbage|);
      assert s[|garbage|..] == u;
      assert [] + fs == fs;
    } else {
      assert u == tail;
      NothingVerifies(s);
    }
  }

  lemma {:induction false} ConcatLength(fs: seq<Frame>)
    ensures |Concat(fs)| == 24 * |fs|
  {
    if fs != [] {
      ConcatLength(fs[1..]);
    }
  }

  /** Without a verifying window there are no frames. */
  lemma NothingVerifies(s: seq<Byte>)
    requires forall i :: 0 <= i ==> !Verifies(s, i)
    ensures ScanStream(s).frames == []
  {
    hide VerifyFrame, ScanStream;
    assert GreedyLeftmost(s, 0, []);
    ScanIsGreedy(s, []);
  }
}

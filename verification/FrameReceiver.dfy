/** The operator's stream decoder, the second implementation of the scan. */
module FrameReceiver {
  import opened Basics
  import opened Bytes
  import opened WireFrame
  import opened StreamScan
  import opened WireRecord
  import Capture
  import TelemetryPipeline

  // ----- what the Java decoder counts differently -----

  predicate NoMagic(s: seq<Byte>) {
    forall i :: 0 <= i <= |s| - 24 ==> !MagicAt(s, i)
  }

  /** Bytes one call throws away in the branch where no magic is left; they are not counted. */
  function Uncounted(s: seq<Byte>): (r: nat)
    decreases |s|
  {
    if |s| < 24 then 0
    else if NoMagic(s) then |s| - 23
    else if VerifyFrame(s[..24]) then Uncounted(s[24..])
    else Uncounted(s[1..])
  }

  /** Jumping to the next magic does not change what will be thrown away at the end. */
  lemma {:induction false} UncountedSkip(s: seq<Byte>, n: nat)
    requires n + 24 <= |s| && MagicAt(s, n)
    requires forall i :: 0 <= i < n ==> !MagicAt(s, i)
    ensures Uncounted(s) == Uncounted(s[n..])
    decreases n
  {
    hide VerifyFrame;
    if n == 0 {
      assert s[0..] == s;
    } else {
      assert !MagicAt(s, 0);
      assert MagicAt(s[..24], 0) == MagicAt(s, 0);
      VerifyNeedsMagic(s[..24]);
      forall i | 0 <= i < n - 1
        ensures !MagicAt(s[1..], i)
      {
        assert !MagicAt(s, i + 1);
      }
      UncountedSkip(s[1..], n - 1);
      assert s[1..][n - 1..] == s[n..];
    }
  }

  lemma VerifyNeedsMagic(f: Frame)
    ensures VerifyFrame(f) ==> MagicAt(f, 0)
  {}

  lemma {:induction false} UncountedBound(s: seq<Byte>)
    ensures Uncounted(s) <= ScanStream(s).resync
    decreases |s|
  {
    hide VerifyFrame;
    if |s| >= 24 {
      if NoMagic(s) {
        NoMagicScan(s);
      } else {
        UncountedBound(s[24..]);
        UncountedBound(s[1..]);
      }
    }
  }

  /** Without a magic all but the last 23 bytes are given up. */
  lemma NoMagicScan(s: seq<Byte>)
    requires |s| >= 24 && NoMagic(s)
    ensures ScanStream(s) == Scan([], 0, |s| - 23, s[|s| - 23..])
  {
    hide VerifyFrame, MagicAt;
    SkipNoMagic(s, |s| - 23);
    var rest := ScanStream(s[|s| - 23..]);
    assert [] + rest.frames == rest.frames;
  }

  // ----- the decoder over its buffer -----

  /** java.nio.ByteBuffer as the receiver uses it: a fixed array with a position and a limit. */
  class ByteBuffer {
    const data: array<Byte>
    var position: nat
    var limit: nat

    ghost predicate Valid()
      reads this
    {
      position <= limit <= data.Length
    }

    /** The bytes put so far, between calls. */
    ghost function Pending(): seq<Byte>
      requires Valid()
      reads this, data
    {
      data[..position]
    }

    constructor (capacity: nat)
      ensures Valid() && fresh(data) && data.Length == capacity
      ensures position == 0 && limit == capacity
    {
      data := new Byte[capacity](_ => 0);
      position, limit := 0, capacity;
    }

    method Flip()
      requires Valid()
      modifies this
      ensures Valid() && position == 0 && limit == old(position)
    {
      limit := position;
      position := 0;
    }

    /** Moves the unread bytes to the front and opens the rest for writing. */
    method Compact()
      requires Valid()
      modifies this, data
      ensures Valid() && limit == data.Length
      ensures Pending() == old(data[position..limit])
    {
      ghost var unread := data[position..limit];
      var n := limit - position;
      var i := 0;
      while i < n
        invariant position == old(position) && limit == old(limit) && Valid()
        invariant 0 <= i <= n == |unread|
        invariant forall k :: 0 <= k < i ==> data[k] == unread[k]
        invariant forall k :: i <= k < n ==> data[position + k] == unread[k]
      {
        data[i] := data[position + i];
        i := i + 1;
      }
      position, limit := n, data.Length;
    }

    /** A channel read: as many of the offered bytes as fit. */
    method Put(bytes: seq<Byte>) returns (n: nat)
      requires Valid()
      modifies this, data
      ensures Valid() && limit == old(limit)
      ensures n == if |bytes| <= old(limit - position) then |bytes| else old(limit - position)
      ensures Pending() == old(Pending()) + bytes[..n]
    {
      n := if |bytes| <= limit - position then |bytes| else limit - position;
      forall i | 0 <= i < n {
        data[position + i] := bytes[i];
      }
      position := position + n;
    }
  }

  /** First absolute index from `from` on that carries the magic with room for a frame, or -1;
      s is what the buffer holds up to its limit. */
  method FindMagic(buf: ByteBuffer, from: nat, ghost s: seq<Byte>) returns (at: int)
    requires buf.Valid() && s == buf.data[..buf.limit]
    ensures at == -1 || from <= at
    ensures at >= 0 ==> at + 24 <= |s| && MagicAt(s, at)
    ensures at >= 0 ==> forall i :: from <= i < at ==> !MagicAt(s, i)
    ensures at == -1 ==> forall i :: from <= i <= |s| - 24 ==> !MagicAt(s, i)
  {
    var last := buf.limit - 24;
    var i := from;
    while i <= last
      invariant from <= i
      invariant forall k :: from <= k < i && k <= last ==> !MagicAt(s, k)
    {
      if buf.data[i] == MAGIC_LOW && buf.data[i + 1] == MAGIC_HIGH {
        return i;
      }
      i := i + 1;
    }
    return -1;
  }

  /** What one call leaves in the pipeline: frames offered in order, failed checks, counted skips. */
  function AfterCall(p: TelemetryPipeline.PipelineState, s: seq<Byte>): (q: TelemetryPipeline.PipelineState)
    requires |p.lastSeqByNode| == 0x1_0000
    ensures |q.lastSeqByNode| == 0x1_0000
  {
    UncountedBound(s);
    var r := ScanStream(s);
    Feed(p, r.frames, r.drops, r.resync - Uncounted(s))
  }

  function Feed(p: TelemetryPipeline.PipelineState, fs: seq<Frame>, crcFails: nat,
      skipped: nat): (q: TelemetryPipeline.PipelineState)
    requires |p.lastSeqByNode| == 0x1_0000
    ensures |q.lastSeqByNode| == 0x1_0000
  {
    var o := OfferFrames(p, fs);
    o.(framesCrcFail := o.framesCrcFail + crcFails, tcpResync := o.tcpResync + skipped)
  }

  function OfferFrames(p: TelemetryPipeline.PipelineState, fs: seq<Frame>): (q: TelemetryPipeline.PipelineState)
    requires |p.lastSeqByNode| == 0x1_0000
    ensures |q.lastSeqByNode| == 0x1_0000
  {
    if fs == [] then p
    else TelemetryPipeline.Offered(OfferFrames(p, fs[..|fs| - 1]), Decode(fs[|fs| - 1]))
  }

  lemma OfferOne(p: TelemetryPipeline.PipelineState, fs: seq<Frame>, f: Frame)
    requires |p.lastSeqByNode| == 0x1_0000
    ensures OfferFrames(p, fs + [f]) == TelemetryPipeline.Offered(OfferFrames(p, fs), Decode(f))
  {}

  /** A verified frame's counters do not touch the decoder's own two. */
  lemma FeedOffer(p: TelemetryPipeline.PipelineState, fs: seq<Frame>, f: Frame, crcFails: nat, skipped: nat)
    requires |p.lastSeqByNode| == 0x1_0000
    requires VerifyFrame(f)
    ensures TelemetryPipeline.Offered(Feed(p, fs, crcFails, skipped), Decode(f)) == Feed(p, fs + [f], crcFails, skipped)
  {
    hide VerifyFrame, OfferFrames, TelemetryPipeline.TrackGaps, TelemetryPipeline.TrackHop,
        TelemetryPipeline.TrackSensor;
    OfferOne(p, fs, f);
  }

  /** Halfway through a call: the first pos bytes are accounted for in done and in the pipeline. */
  ghost predicate Progress(s: seq<Byte>, pos: nat, done: Scan, p0: TelemetryPipeline.PipelineState,
      p: TelemetryPipeline.PipelineState)
    requires |p0.lastSeqByNode| == 0x1_0000
  {
    && pos <= |s|
    && ScanStream(s) == Then(done, ScanStream(s[pos..]))
    && Uncounted(s) == Uncounted(s[pos..])
    && p == Feed(p0, done.frames, done.drops, done.resync)
  }

  lemma ProgressStart(s: seq<Byte>, p0: TelemetryPipeline.PipelineState)
    requires |p0.lastSeqByNode| == 0x1_0000
    ensures Progress(s, 0, EMPTY, p0, p0)
  {}

  lemma ProgressJump(s: seq<Byte>, pos: nat, found: nat, done: Scan, p0: TelemetryPipeline.PipelineState,
      p: TelemetryPipeline.PipelineState)
    requires |p0.lastSeqByNode| == 0x1_0000
    requires Progress(s, pos, done, p0, p)
    requires pos <= found && found + 24 <= |s| && MagicAt(s, found)
    requires forall i :: pos <= i < found ==> !MagicAt(s, i)
    ensures Progress(s, found, done.(resync := done.resync + (found - pos)), p0,
        p.(tcpResync := p.tcpResync + (found - pos)))
  {
    hide ScanStream, Uncounted, Feed, MagicAt;
    Capture.SkipPlain(s, pos, found, done);
    JumpKeeps(s, pos, found);
    FeedSkips(p0, done, 0, found - pos);
  }

  lemma ProgressReject(s: seq<Byte>, pos: nat, done: Scan, p0: TelemetryPipeline.PipelineState,
      p: TelemetryPipeline.PipelineState)
    requires |p0.lastSeqByNode| == 0x1_0000
    requires Progress(s, pos, done, p0, p)
    requires pos + 24 <= |s| && MagicAt(s, pos) && !VerifyFrame(s[pos..pos + 24])
    ensures Progress(s, pos + 1, done.(drops := done.drops + 1, resync := done.resync + 1), p0,
                     p.(framesCrcFail := p.framesCrcFail + 1, tcpResync := p.tcpResync + 1))
  {
    hide ScanStream, Uncounted, Feed, MagicAt, VerifyFrame;
    Capture.RejectAt(s, pos, done);
    WindowKeeps(s, pos);
    FeedSkips(p0, done, 1, 1);
  }

  lemma ProgressAccept(s: seq<Byte>, pos: nat, done: Scan, p0: TelemetryPipeline.PipelineState,
      p: TelemetryPipeline.PipelineState)
    requires |p0.lastSeqByNode| == |p.lastSeqByNode| == 0x1_0000
    requires Progress(s, pos, done, p0, p)
    requires pos + 24 <= |s| && MagicAt(s, pos) && VerifyFrame(s[pos..pos + 24])
    ensures Progress(s, pos + 24, done.(frames := done.frames + [s[pos..pos + 24]]), p0,
                     TelemetryPipeline.Offered(p, Decode(s[pos..pos + 24])))
  {
    hide ScanStream, Uncounted, Feed, MagicAt, VerifyFrame, Decode, TelemetryPipeline.Offered;
    Capture.AcceptAt(s, pos, done);
    WindowKeeps(s, pos);
    FeedOffer(p0, done.frames, s[pos..pos + 24], done.drops, done.resync);
  }

  /** Leaving the loop with less than a window unread. */
  lemma ProgressEnd(s: seq<Byte>, pos: nat, done: Scan, p0: TelemetryPipeline.PipelineState,
      p: TelemetryPipeline.PipelineState)
    requires |p0.lastSeqByNode| == 0x1_0000
    requires Progress(s, pos, done, p0, p)
    requires |s| < pos + 24
    ensures p == AfterCall(p0, s)
    ensures ScanStream(s).rest == s[pos..]
  {
    hide Feed, Uncounted, ScanStream, AfterCall;
    ShortLosesNothing(s, pos);
    Capture.ShortRest(s, pos, done);
    AfterCallIs(p0, s, done);
  }

  /** Leaving the loop because no magic is left. */
  lemma ProgressTail(s: seq<Byte>, pos: nat, done: Scan, p0: TelemetryPipeline.PipelineState,
      p: TelemetryPipeline.PipelineState)
    requires |p0.lastSeqByNode| == 0x1_0000
    requires Progress(s, pos, done, p0, p)
    requires pos + 24 <= |s|
    requires forall i :: pos <= i <= |s| - 24 ==> !MagicAt(s, i)
    ensures p == AfterCall(p0, s)
    ensures ScanStream(s).rest == s[|s| - 23..]
  {
    hide Feed, Uncounted, ScanStream, AfterCall, Then, MagicAt, SameTotals;
    TailTotals(s, pos, done);
    AfterCallIs(p0, s, done);
  }

  lemma TailTotals(s: seq<Byte>, pos: nat, done: Scan)
    requires pos + 24 <= |s|
    requires ScanStream(s) == Then(done, ScanStream(s[pos..]))
    requires Uncounted(s) == Uncounted(s[pos..])
    requires forall i :: pos <= i <= |s| - 24 ==> !MagicAt(s, i)
    ensures ScanStream(s).rest == s[|s| - 23..]
    ensures SameTotals(s, done)
  {
    hide Uncounted, ScanStream, Then, MagicAt;
    TailDiscarded(s, pos, done);
  }

  /** done carries the whole call's counts, short of what went uncounted. */
  predicate SameTotals(s: seq<Byte>, done: Scan) {
    var r := ScanStream(s);
    r.frames == done.frames && r.drops == done.drops && r.resync == done.resync + Uncounted(s)
  }

  lemma AfterCallIs(p0: TelemetryPipeline.PipelineState, s: seq<Byte>, done: Scan)
    requires |p0.lastSeqByNode| == 0x1_0000
    requires SameTotals(s, done)
    ensures AfterCall(p0, s) == Feed(p0, done.frames, done.drops, done.resync)
  {}

  lemma SliceOfPrefix(a: array<Byte>, limit: nat, i: nat, j: nat)
    requires i <= j <= limit <= a.Length
    ensures a[i..j] == a[..limit][i..j]
  {}

  /** The Java loop over the buffer does what the scan says; its resync counter misses
      exactly the bytes thrown away when no magic is left. */
  method DecodeStream(buf: ByteBuffer, pipeline: TelemetryPipeline.Pipeline)
    requires buf.Valid() && pipeline.Valid()
    requires buf.data as object != pipeline.lastSeqByNode  // two arrays of different element types
    modifies buf, buf.data, pipeline, pipeline.lastSeqByNode
    ensures buf.Valid() && buf.limit == buf.data.Length
    ensures buf.Pending() == ScanStream(old(buf.Pending())).rest
    ensures pipeline.Valid() && pipeline.State() == AfterCall(old(pipeline.State()), old(buf.Pending()))
  {
    hide VerifyFrame, ScanStream, Progress, MagicAt, Decode, AfterCall, TelemetryPipeline.Offered;
    ghost var s := buf.Pending();
    ghost var p0 := pipeline.State();
    ghost var done := EMPTY;
    buf.Flip();
    ProgressStart(s, p0);
    ghost var ended := false;
    while buf.limit - buf.position >= 24
      invariant buf.Valid() && pipeline.Valid() && !ended
      invariant buf.limit == |s| && buf.data[..buf.limit] == s
      invariant Progress(s, buf.position, done, p0, pipeline.State())
      decreases buf.limit - buf.position
    {
      var pos := buf.position;
      MagicBytesAt(s, pos);
      if !(buf.data[pos] == MAGIC_LOW && buf.data[pos + 1] == MAGIC_HIGH) {
        var found := FindMagic(buf, pos, s);
        if found < 0 {
          ProgressTail(s, pos, done, p0, pipeline.State());
          var keep := Min(buf.limit - pos, 24 - 1);
          buf.position := buf.limit - keep;
          ended := true;
          break;
        }
        ProgressJump(s, pos, found, done, p0, pipeline.State());
        pipeline.NoteTcpResync(found - pos);
        done := done.(resync := done.resync + (found - pos));
        buf.position := found;
        continue;
      }
      SliceOfPrefix(buf.data, buf.limit, pos, pos + 24);
      var frame := Decode(buf.data[pos..pos + 24]);
      CrcOkIs(s[pos..pos + 24]);
      if !frame.crcOk {
        ProgressReject(s, pos, done, p0, pipeline.State());
        pipeline.NoteCrcFail();
        pipeline.NoteTcpResync(1);
        done := done.(drops := done.drops + 1, resync := done.resync + 1);
        buf.position := pos + 1;
        continue;
      }
      ProgressAccept(s, pos, done, p0, pipeline.State());
      pipeline.Offer(frame);
      done := done.(frames := done.frames + [s[pos..pos + 24]]);
      buf.position := pos + 24;
    }
    if !ended {
      ProgressEnd(s, buf.position, done, p0, pipeline.State());
    }
    SliceOfPrefix(buf.data, buf.limit, buf.position, buf.limit);
    buf.Compact();
  }

  /** One readable event. Nothing available is the end of the stream: the connection is given up
      and what was pending is never decoded. Otherwise as many bytes as fit are taken in and the
      buffer is decoded, which always leaves room for the next read. */
  method ReadTcp(buf: ByteBuffer, available: Option<seq<Byte>>, pipeline: TelemetryPipeline.Pipeline)
      returns (open: bool, n: nat)
    requires buf.Valid() && buf.limit == buf.data.Length && pipeline.Valid()
    requires buf.data as object != pipeline.lastSeqByNode  // two arrays of different element types
    modifies buf, buf.data, pipeline, pipeline.lastSeqByNode
    ensures open == available.Some? && buf.Valid() && buf.limit == buf.data.Length && pipeline.Valid()
    ensures !open ==> n == 0 && buf.Pending() == old(buf.Pending()) && pipeline.State() == old(pipeline.State())
    ensures open ==> n == Min(|available.value|, buf.data.Length - old(|buf.Pending()|))
    ensures open ==>
      var received := old(buf.Pending()) + available.value[..n];
      && buf.Pending() == ScanStream(received).rest && |buf.Pending()| < 24
      && pipeline.State() == AfterCall(old(pipeline.State()), received)
  {
    hide AfterCall, ScanStream;
    if available.None? {
      return false, 0;
    }
    n := buf.Put(available.value);
    Conservation(buf.Pending());
    DecodeStream(buf, pipeline);
    open := true;
  }

  lemma FeedNothing(p: TelemetryPipeline.PipelineState)
    requires |p.lastSeqByNode| == 0x1_0000
    ensures Feed(p, [], 0, 0) == p
  {}

  lemma FeedSkips(p: TelemetryPipeline.PipelineState, done: Scan, crcFails: nat, skipped: nat)
    requires |p.lastSeqByNode| == 0x1_0000
    ensures var q := Feed(p, done.frames, done.drops, done.resync);
      Feed(p, done.frames, done.drops + crcFails, done.resync + skipped)
      == q.(framesCrcFail := q.framesCrcFail + crcFails, tcpResync := q.tcpResync + skipped)
  {}

  lemma CrcOkIs(f: Frame)
    ensures Decode(f).crcOk <==> VerifyFrame(f)
  {}

  lemma MagicBytesAt(s: seq<Byte>, i: nat)
    requires i + 24 <= |s|
    ensures MagicAt(s, i) <==> s[i] == MAGIC_LOW && s[i + 1] == MAGIC_HIGH
  {}

  /** No magic from pos on: the scan gives up all but 23 bytes, and these are what goes uncounted. */
  lemma TailDiscarded(s: seq<Byte>, pos: nat, done: Scan)
    requires pos + 24 <= |s|
    requires forall i :: pos <= i <= |s| - 24 ==> !MagicAt(s, i)
    ensures Then(done, ScanStream(s[pos..])) == Scan(done.frames, done.drops, done.resync + (|s| - 23 - pos),
        s[|s| - 23..])
    ensures Uncounted(s[pos..]) == |s| - 23 - pos
  {
    hide ScanStream, VerifyFrame, MagicAt;
    var u := s[pos..];
    NoMagicSuffix(s, pos);
    NoMagicScan(u);
    assert u[|u| - 23..] == s[|s| - 23..];
    assert done.frames + [] == done.frames;
  }

  lemma NoMagicSuffix(s: seq<Byte>, pos: nat)
    requires pos + 24 <= |s|
    requires forall i :: pos <= i <= |s| - 24 ==> !MagicAt(s, i)
    ensures NoMagic(s[pos..])
  {
    forall i | 0 <= i <= |s[pos..]| - 24
      ensures !MagicAt(s[pos..], i)
    {
      assert !MagicAt(s, pos + i);
    }
  }

  lemma JumpKeeps(s: seq<Byte>, pos: nat, found: nat)
    requires pos <= found && found + 24 <= |s| && MagicAt(s, found)
    requires forall i :: pos <= i < found ==> !MagicAt(s, i)
    ensures Uncounted(s[pos..]) == Uncounted(s[found..])
  {
    hide Uncounted;
    var u := s[pos..];
    forall i | 0 <= i < found - pos
      ensures !MagicAt(u, i)
    {
      assert !MagicAt(s, pos + i);
    }
    assert MagicAt(u, found - pos);
    UncountedSkip(u, found - pos);
    assert u[found - pos..] == s[found..];
  }

  lemma WindowKeeps(s: seq<Byte>, pos: nat)
    requires pos + 24 <= |s| && MagicAt(s, pos)
    ensures Uncounted(s[pos..])
         == if VerifyFrame(s[pos..pos + 24]) then Uncounted(s[pos + 24..]) else Uncounted(s[pos + 1..])
  {
    hide VerifyFrame;
    var u := s[pos..];
    assert u[..24] == s[pos..pos + 24] && u[24..] == s[pos + 24..] && u[1..] == s[pos + 1..];
    assert MagicAt(u, 0);
  }

  lemma ShortLosesNothing(s: seq<Byte>, pos: nat)
    requires pos <= |s| < pos + 24
    ensures Uncounted(s[pos..]) == 0
  {}
}

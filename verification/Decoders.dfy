/** The two stream decoders side by side, over whole connections. */
module Decoders {
  import opened Bytes
  import opened WireFrame
  import opened StreamScan
  import opened FrameReceiver
  import Analyze
  import WireRecord
  import TelemetryPipeline

  /** The Java receiver's state after one more chunk, with its own resync count. */
  function JavaReceive(st: Scan, chunk: seq<Byte>): (r: Scan) {
    UncountedBound(st.rest + chunk);
    var t := ScanStream(st.rest + chunk);
    Then(st, t.(resync := t.resync - Uncounted(st.rest + chunk)))
  }

  function JavaReceiveAll(st: Scan, chunks: seq<seq<Byte>>): (r: Scan)
    decreases |chunks|
  {
    if chunks == [] then st else JavaReceiveAll(JavaReceive(st, chunks[0]), chunks[1..])
  }

  /** What each call threw away without counting, summed over the calls. */
  function TotalUncounted(rest: seq<Byte>, chunks: seq<seq<Byte>>): (r: nat)
    decreases |chunks|
  {
    if chunks == [] then 0
    else Uncounted(rest + chunks[0]) + TotalUncounted(ScanStream(rest + chunks[0]).rest, chunks[1..])
  }

  /** On every stream and chunking both decoders emit the same frames, the same failed-check
      count and the same leftover; the resync counts differ by exactly what Java does not count. */
  lemma {:induction false} DecodersAgree(java: Scan, cpp: Scan, chunks: seq<seq<Byte>>)
    requires java.frames == cpp.frames && java.drops == cpp.drops && java.rest == cpp.rest
    ensures var j := JavaReceiveAll(java, chunks); var c := ReceiveAll(cpp, chunks);
      && j.frames == c.frames && j.drops == c.drops && j.rest == c.rest
      && j.resync + TotalUncounted(cpp.rest, chunks) + cpp.resync == c.resync + java.resync
    decreases |chunks|
  {
    hide ScanStream, Uncounted;
    if chunks != [] {
      UncountedBound(cpp.rest + chunks[0]);
      DecodersAgree(JavaReceive(java, chunks[0]), Receive(cpp, chunks[0]), chunks[1..]);
    }
  }

  // ----- when the counts are the same -----

  /** The last whole window of the bytes carries no magic and starts inside no decoded frame. */
  ghost predicate EndsPlain(s: seq<Byte>) {
    |s| >= 24 && !MagicAt(s, |s| - 24) && !Covered(Positions(s, 0), |s| - 24)
  }

  ghost predicate PlainFrom(s: seq<Byte>, i: nat) {
    i + 24 <= |s| && !MagicAt(s, |s| - 24) && !Covered(Positions(s, i), |s| - 24)
  }

  lemma {:induction false} NoMagicNoPositions(s: seq<Byte>, i: nat)
    requires forall j :: i <= j <= |s| - 24 ==> !MagicAt(s, j)
    ensures Positions(s, i) == []
    decreases |s| - i
  {
    hide VerifyFrame;
    if i + 24 <= |s| {
      if Verifies(s, i) {
        MagicOfWindow(s, i);
      }
      NoMagicNoPositions(s, i + 1);
    }
  }

  lemma CoveredByFirst(i: nat, t: seq<nat>, j: nat)
    ensures Covered([i] + t, j) <==> i <= j < i + 24 || Covered(t, j)
  {
    if i <= j < i + 24 {
      CoveredFirst(i, t, j);
    }
    if Covered(t, j) {
      CoveredLater(i, t, j);
    }
    if Covered([i] + t, j) && !(i <= j < i + 24) {
      var k :| 0 <= k < |[i] + t| && ([i] + t)[k] <= j < ([i] + t)[k] + 24;
      assert ([i] + t)[k] == t[k - 1];
    }
  }

  lemma PlainWithoutMagic(s: seq<Byte>, i: nat)
    requires i + 24 <= |s| && NoMagic(s[i..])
    ensures PlainFrom(s, i)
  {
    hide VerifyFrame;
    forall j | i <= j <= |s| - 24
      ensures !MagicAt(s, j)
    {
      assert !MagicAt(s[i..], j - i);
    }
    NoMagicNoPositions(s, i);
  }

  /** Scanning on from i, something is thrown away uncounted exactly when the bytes end plain. */
  lemma {:induction false} UncountedFrom(s: seq<Byte>, i: nat)
    requires i <= |s|
    ensures Uncounted(s[i..]) > 0 <==> PlainFrom(s, i)
    decreases |s| - i
  {
    hide VerifyFrame, Covered, NoMagic, MagicAt;
    var u := s[i..];
    if i + 24 <= |s| {
      assert u[..24] == s[i..i + 24] && u[24..] == s[i + 24..] && u[1..] == s[i + 1..];
      if NoMagic(u) {
        PlainWithoutMagic(s, i);
      } else if Verifies(s, i) {
        UncountedFrom(s, i + 24);
        CoveredByFirst(i, Positions(s, i + 24), |s| - 24);
      } else {
        UncountedFrom(s, i + 1);
        if i + 24 == |s| {
          OneWindowMagic(s, i);
        }
      }
    }
  }

  lemma OneWindowMagic(s: seq<Byte>, i: nat)
    requires i + 24 == |s| && !NoMagic(s[i..])
    ensures MagicAt(s, i)
  {
    assert MagicAt(s[i..], 0);
  }

  lemma UncountedExactly(s: seq<Byte>)
    ensures Uncounted(s) > 0 <==> EndsPlain(s)
  {
    hide Uncounted, Positions, MagicAt, Covered;
    UncountedFrom(s, 0);
    assert s[0..] == s;
  }

  /** What a call throws away depends on the whole stream so far, not on where the calls before ended. */
  lemma {:induction false} UncountedAppend(a: seq<Byte>, b: seq<Byte>)
    requires b != []
    ensures Uncounted(a + b) > 0 <==> Uncounted(ScanStream(a).rest + b) > 0
    decreases |a|
  {
    hide VerifyFrame, MagicAt, NoMagic;
    if |a| >= 24 {
      assert (a + b)[..24] == a[..24] && (a + b)[24..] == a[24..] + b && (a + b)[1..] == a[1..] + b;
      if VerifyFrame(a[..24]) {
        UncountedAppend(a[24..], b);
        FrameHasMagic(a + b);
      } else {
        UncountedAppend(a[1..], b);
        if NoMagic(a + b) {
          NoMagicParts(a, b);
          NoMagicScan(a);
          assert a[|a| - 23..] + b == (a + b)[|a| - 23..];
        }
      }
    }
  }

  lemma FrameHasMagic(s: seq<Byte>)
    requires |s| >= 24 && VerifyFrame(s[..24])
    ensures !NoMagic(s)
  {
    VerifyNeedsMagic(s[..24]);
    assert MagicAt(s, 0);
  }

  lemma NoMagicParts(a: seq<Byte>, b: seq<Byte>)
    requires |a| >= 24 && NoMagic(a + b)
    ensures NoMagic(a) && NoMagic((a + b)[|a| - 23..])
  {
    forall i | 0 <= i <= |a| - 24
      ensures !MagicAt(a, i)
    {
      assert !MagicAt(a + b, i);
    }
    var u := (a + b)[|a| - 23..];
    forall i | 0 <= i <= |u| - 24
      ensures !MagicAt(u, i)
    {
      assert !MagicAt(a + b, |a| - 23 + i);
    }
  }

  /** The bytes received up to the end of some non-empty chunk end plain. */
  ghost predicate SomeEndPlain(before: seq<Byte>, chunks: seq<seq<Byte>>)
    decreases |chunks|
  {
    chunks != [] &&
    ((chunks[0] != [] && EndsPlain(before + chunks[0])) || SomeEndPlain(before + chunks[0], chunks[1..]))
  }

  lemma NothingNew(a: seq<Byte>)
    ensures Uncounted(ScanStream(a).rest + []) == 0
  {
    hide ScanStream;
    Conservation(a);
  }

  lemma {:induction false} UncountedTotalZero(before: seq<Byte>, chunks: seq<seq<Byte>>)
    ensures TotalUncounted(ScanStream(before).rest, chunks) == 0 <==> !SomeEndPlain(before, chunks)
    decreases |chunks|
  {
    hide ScanStream, Uncounted, EndsPlain;
    if chunks != [] {
      var c := chunks[0];
      if c == [] {
        NothingNew(before);
      } else {
        UncountedAppend(before, c);
        UncountedExactly(before + c);
      }
      ScanAppend(before, c);
      UncountedTotalZero(before + c, chunks[1..]);
    }
  }

  /** On every stream and chunking the Java resync count equals the C++ one exactly when at the end
      of no non-empty chunk the last whole window received so far lacks the magic and lies in no
      decoded frame. */
  lemma SameResyncWhen(chunks: seq<seq<Byte>>)
    ensures JavaReceiveAll(EMPTY, chunks).resync == ScanStream(Concat(chunks)).resync <==> !SomeEndPlain([], chunks)
  {
    hide ScanStream, Uncounted, JavaReceiveAll, ReceiveAll, TotalUncounted, SomeEndPlain;
    DecodersAgree(EMPTY, EMPTY, chunks);
    EmptyRest();
    UncountedTotalZero([], chunks);
    ChunkingIrrelevant(chunks);
  }

  lemma EmptyRest()
    ensures ScanStream([]).rest == EMPTY.rest
  {}

  // ----- a count that depends on the chunking -----

  function Zeros(n: nat): (r: seq<Byte>)
    ensures |r| == n
    ensures forall i :: 0 <= i < n ==> r[i] == 0
  {
    if n == 0 then [] else [0] + Zeros(n - 1)
  }

  /** A magic followed by zeros: version 0 never verifies. */
  function Stray(): (r: seq<Byte>)
    ensures |r| == 24 && r[0] == MAGIC_LOW && r[1] == MAGIC_HIGH && r[2] == 0
  {
    [MAGIC_LOW, MAGIC_HIGH] + Zeros(22)
  }

  lemma StrayFails(t: seq<Byte>)
    requires |t| == 24 && t[0] == MAGIC_LOW && t[1] == MAGIC_HIGH && t[2] == 0
    ensures ScanStream(t) == Scan([], 1, 1, t[1..])
    ensures Uncounted(t) == 0
  {}

  /** n zero bytes and then a magic whose window fails: what the scan makes of it. */
  lemma ZerosThenStray(s: seq<Byte>, n: nat)
    requires |s| == n + 24
    requires forall i :: 0 <= i < n ==> s[i] == 0
    requires s[n..] == Stray()
    ensures ScanStream(s).resync == n + 1 && |ScanStream(s).rest| == 23
    ensures Uncounted(s) == 0
  {
    hide Stray, ScanStream, Uncounted;
    var t := s[n..];
    StrayFails(t);
    assert s[n] == t[0] && s[n + 1] == t[1];
    forall i | 0 <= i < n
      ensures !MagicAt(s, i)
    {
      assert s[i] == 0;
    }
    SkipNoMagic(s, n);
    UncountedSkip(s, n);
  }

  /** One chunk of 48 bytes counts 25 skipped bytes; the same bytes in two chunks count 24. */
  lemma JavaCountDependsOnChunking()
    ensures JavaReceiveAll(EMPTY, [Zeros(24) + Stray()]).resync == 25
    ensures JavaReceiveAll(EMPTY, [Zeros(24), Stray()]).resync == 24
    ensures ScanStream(Zeros(24) + Stray()).resync == 25
  {
    hide ScanStream, Uncounted, JavaReceiveAll, JavaReceive, Zeros, Stray;
    OneChunk(EMPTY, Zeros(24) + Stray());
    TwoChunks(EMPTY, Zeros(24), Stray());
    ZerosThenStray(Zeros(24) + Stray(), 24);
    StrayReceived(EMPTY, Zeros(24) + Stray(), 24);
    ZerosReceived(Zeros(24));
    StrayReceived(JavaReceive(EMPTY, Zeros(24)), Stray(), 23);
  }

  lemma OneChunk(st: Scan, chunk: seq<Byte>)
    ensures JavaReceiveAll(st, [chunk]) == JavaReceive(st, chunk)
  {}

  lemma TwoChunks(st: Scan, a: seq<Byte>, b: seq<Byte>)
    ensures JavaReceiveAll(st, [a, b]) == JavaReceive(JavaReceive(st, a), b)
  {
    hide JavaReceive;
    assert [a, b][1..] == [b];
    OneChunk(JavaReceive(st, a), b);
  }

  lemma StrayReceived(st: Scan, chunk: seq<Byte>, n: nat)
    requires |st.rest + chunk| == n + 24
    requires forall i :: 0 <= i < n ==> (st.rest + chunk)[i] == 0
    requires (st.rest + chunk)[n..] == Stray()
    ensures JavaReceive(st, chunk).resync == st.resync + n + 1
  {
    hide ScanStream, Uncounted, Stray;
    ZerosThenStray(st.rest + chunk, n);
  }

  lemma ZerosReceived(z: seq<Byte>)
    requires |z| == 24 && forall i :: 0 <= i < 24 ==> z[i] == 0
    ensures JavaReceive(EMPTY, z).resync == 0 && JavaReceive(EMPTY, z).rest == z[1..]
  {
    hide ScanStream, Uncounted;
    assert EMPTY.rest + z == z;
    assert !MagicAt(z, 0) && NoMagic(z);
    NoMagicScan(z);
    NoMagicUncounted(z);
  }

  lemma NoMagicUncounted(s: seq<Byte>)
    requires |s| >= 24 && NoMagic(s)
    ensures Uncounted(s) == |s| - 23
  {}

  // ----- the pipeline after a connection -----

  /** The pipeline after the calls of one connection. */
  function PipelineAfter(p: TelemetryPipeline.PipelineState, rest: seq<Byte>,
      chunks: seq<seq<Byte>>): (q: TelemetryPipeline.PipelineState)
    requires |p.lastSeqByNode| == 0x1_0000
    ensures |q.lastSeqByNode| == 0x1_0000
    decreases |chunks|
  {
    if chunks == [] then p
    else PipelineAfter(AfterCall(p, rest + chunks[0]), ScanStream(rest + chunks[0]).rest, chunks[1..])
  }

  /** Frames offered one after another are the frames offered all at once. */
  lemma {:induction false} OfferFramesAppend(p: TelemetryPipeline.PipelineState, a: seq<Frame>, b: seq<Frame>)
    requires |p.lastSeqByNode| == 0x1_0000
    ensures OfferFrames(p, a + b) == OfferFrames(OfferFrames(p, a), b)
    decreases |b|
  {
    hide TelemetryPipeline.Offered, WireRecord.Decode;
    if b == [] {
      assert a + b == a;
    } else {
      assert (a + b)[..|a + b| - 1] == a + b[..|b| - 1];
      OfferFramesAppend(p, a, b[..|b| - 1]);
    }
  }

  /** The decoder's own two counters ride along untouched by offers. */
  lemma {:induction false} OfferCommutes(p: TelemetryPipeline.PipelineState, fs: seq<Frame>, crcFails: nat,
      skipped: nat)
    requires |p.lastSeqByNode| == 0x1_0000
    requires AllVerify(fs)
    ensures OfferFrames(p.(framesCrcFail := p.framesCrcFail + crcFails, tcpResync := p.tcpResync + skipped), fs)
         == Feed(p, fs, crcFails, skipped)
    decreases |fs|
  {
    hide VerifyFrame, TelemetryPipeline.Offered, WireRecord.Decode;
    if fs != [] {
      var front, f := fs[..|fs| - 1], fs[|fs| - 1];
      assert fs == front + [f];
      OfferCommutes(p, front, crcFails, skipped);
      FeedOffer(p, front, f, crcFails, skipped);
    }
  }

  lemma FeedTwice(p: TelemetryPipeline.PipelineState, a: seq<Frame>, c1: nat, s1: nat, b: seq<Frame>, c2: nat, s2: nat)
    requires |p.lastSeqByNode| == 0x1_0000
    requires AllVerify(b)
    ensures Feed(Feed(p, a, c1, s1), b, c2, s2) == Feed(p, a + b, c1 + c2, s1 + s2)
  {
    hide VerifyFrame, OfferFrames;
    OfferFramesAppend(p, a, b);
    OfferCommutes(OfferFrames(p, a), b, c1, s1);
  }

  /** Over a whole connection the pipeline has been offered exactly the scanned frames, and its
      failed-check and resync counters are the Java run's. */
  lemma {:induction false} PipelineTracksRun(p: TelemetryPipeline.PipelineState, java: Scan, chunks: seq<seq<Byte>>)
    requires |p.lastSeqByNode| == 0x1_0000
    ensures PipelineAfter(Feed(p, java.frames, java.drops, java.resync), java.rest, chunks)
         == (var j := JavaReceiveAll(java, chunks); Feed(p, j.frames, j.drops, j.resync))
    decreases |chunks|
  {
    hide ScanStream, Uncounted, Feed, AfterCall, AllVerify;
    if chunks != [] {
      var s := java.rest + chunks[0];
      var r := ScanStream(s);
      UncountedBound(s);
      FeedOfCall(Feed(p, java.frames, java.drops, java.resync), s);
      Conservation(s);
      FeedTwice(p, java.frames, java.drops, java.resync, r.frames, r.drops, r.resync - Uncounted(s));
      PipelineTracksRun(p, JavaReceive(java, chunks[0]), chunks[1..]);
    }
  }

  lemma FeedOfCall(p: TelemetryPipeline.PipelineState, s: seq<Byte>)
    requires |p.lastSeqByNode| == 0x1_0000
    ensures Uncounted(s) <= ScanStream(s).resync
    ensures AfterCall(p, s) == (var r := ScanStream(s); Feed(p, r.frames, r.drops, r.resync - Uncounted(s)))
  {
    hide ScanStream, Uncounted, Feed;
    UncountedBound(s);
  }

  /** From a fresh pipeline, offering frames is offering their records. */
  lemma {:induction false} OfferedRecords(fs: seq<Frame>)
    ensures OfferFrames(TelemetryPipeline.FreshPipeline(), fs) == TelemetryPipeline.OfferedAll(WireRecord.Decoded(fs))
    decreases |fs|
  {
    hide TelemetryPipeline.Offered, WireRecord.Decode, TelemetryPipeline.FreshPipeline;
    if fs != [] {
      OfferedRecords(fs[..|fs| - 1]);
      assert WireRecord.Decoded(fs)[..|fs| - 1] == WireRecord.Decoded(fs[..|fs| - 1]);
    }
  }

  /** Live operator against offline report, over any byte stream in any chunks: the operator's
      counters agree with the analyser run on the frames the stream contains. */
  lemma LiveAgreesWithOffline(chunks: seq<seq<Byte>>)
    ensures var fs := ScanStream(Concat(chunks)).frames;
      var p := PipelineAfter(TelemetryPipeline.FreshPipeline(), [], chunks);
      && TelemetryPipeline.Agree(Analyze.ObservedAll(Analyze.ReadingsOf(fs)), p)
      && p.ringFeed == WireRecord.Decoded(fs)
      && p.framesCrcFail == ScanStream(Concat(chunks)).drops
  {
    hide ScanStream, Uncounted, Feed, AfterCall, AllVerify, VerifyFrame, TelemetryPipeline.Agree, WireRecord.Decode,
         TelemetryPipeline.Offered, TelemetryPipeline.FreshPipeline, Analyze.Observed, JavaReceiveAll, ReceiveAll,
             PipelineAfter,
         Analyze.ReadingOf, WireRecord.ReadingOfRecord, OfferFrames, Concat, TelemetryPipeline.OfferedAll,
             Analyze.ObservedAll;
    var start := TelemetryPipeline.FreshPipeline();
    var j := JavaReceiveAll(EMPTY, chunks);
    DecodersAgree(EMPTY, EMPTY, chunks);
    ChunkingIrrelevant(chunks);
    FeedNothing(start);
    PipelineTracksRun(start, EMPTY, chunks);
    var fs := j.frames;
    Conservation(Concat(chunks));
    FeedFresh(fs, j.drops, j.resync);
    OfferedRecords(fs);
    FramesAgree(fs);
    OnlyOwnCounters(TelemetryPipeline.OfferedAll(WireRecord.Decoded(fs)), Analyze.ObservedAll(Analyze.ReadingsOf(fs)),
        j.drops, j.resync);
  }

  lemma FramesAgree(fs: seq<Frame>)
    requires AllVerify(fs)
    ensures TelemetryPipeline.Agree(Analyze.ObservedAll(Analyze.ReadingsOf(fs)),
        TelemetryPipeline.OfferedAll(WireRecord.Decoded(fs)))
    ensures TelemetryPipeline.OfferedAll(WireRecord.Decoded(fs)).ringFeed == WireRecord.Decoded(fs)
    ensures TelemetryPipeline.OfferedAll(WireRecord.Decoded(fs)).framesCrcFail == 0
    ensures TelemetryPipeline.OfferedAll(WireRecord.Decoded(fs)).tcpResync == 0
  {
    hide VerifyFrame, TelemetryPipeline.Agree, WireRecord.Decode, Analyze.ReadingOf, WireRecord.ReadingOfRecord,
         TelemetryPipeline.Offered, Analyze.Observed;
    var rs, xs := WireRecord.Decoded(fs), Analyze.ReadingsOf(fs);
    forall i | 0 <= i < |fs|
      ensures rs[i].crcOk && WireRecord.ReadingOfRecord(rs[i]) == xs[i]
    {
      assert fs[i] in fs;
      WireRecord.DecodedAt(fs, i);
      CrcOkIs(fs[i]);
      WireRecord.SameReading(fs[i]);
    }
    TelemetryPipeline.AnalysersAgree(rs, xs);
    FedRecords(rs);
  }

  /** Verified records all reach the ring, in order, and touch no failure counter. */
  lemma {:induction false} FedRecords(rs: seq<WireRecord.Record>)
    requires forall i :: 0 <= i < |rs| ==> rs[i].crcOk
    ensures var p := TelemetryPipeline.OfferedAll(rs); p.ringFeed == rs && p.framesCrcFail == 0 && p.tcpResync == 0
    decreases |rs|
  {
    hide TelemetryPipeline.TrackGaps, TelemetryPipeline.TrackHop, TelemetryPipeline.TrackSensor,
        WireRecord.ReadingOfRecord;
    if rs != [] {
      FedRecords(rs[..|rs| - 1]);
      assert rs == rs[..|rs| - 1] + [rs[|rs| - 1]];
    }
  }

  lemma FeedFresh(fs: seq<Frame>, crcFails: nat, skipped: nat)
    ensures var o := OfferFrames(TelemetryPipeline.FreshPipeline(), fs);
      Feed(TelemetryPipeline.FreshPipeline(), fs, crcFails, skipped)
      == o.(framesCrcFail := o.framesCrcFail + crcFails, tcpResync := o.tcpResync + skipped)
  {}

  /** The agreement does not look at the decoder's own counters. */
  lemma OnlyOwnCounters(o: TelemetryPipeline.PipelineState, a: Analyze.Analysis, crcFails: nat, skipped: nat)
    requires |a.hopHist| == 16 && |o.lastSeqByNode| == 0x1_0000
    requires TelemetryPipeline.Agree(a, o)
    ensures TelemetryPipeline.Agree(a, o.(framesCrcFail := o.framesCrcFail + crcFails,
        tcpResync := o.tcpResync + skipped))
  {}
}

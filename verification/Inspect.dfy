/** The offline inspector of .zcm files: header check, frame loop and acceptance. */
module Inspect {
  import opened Bytes
  import opened WireFrame
  import opened StreamScan
  import opened Analyze
  import opened ZcmFile

  datatype Report =
    | ShortHeader
    | BadHeader
    | Truncated(at: nat)
    | Inspected(count: U64, stats: Analysis, raws: seq<I32>)

  // ----- reading -----

  /** The first n frames of a file's body. */
  function Windows(body: seq<Byte>, n: nat): (fs: seq<Frame>)
    requires 24 * n <= |body|
    ensures |fs| == n
  {
    if n == 0 then [] else Windows(body, n - 1) + [body[24 * (n - 1)..24 * n]]
  }

  function Verified(fs: seq<Frame>): (r: seq<Frame>)
    ensures |r| <= |fs|
  {
    if fs == [] then []
    else Verified(fs[..|fs| - 1]) + (if VerifyFrame(fs[|fs| - 1]) then [fs[|fs| - 1]] else [])
  }

  function RawsOf(fs: seq<Frame>): (r: seq<I32>)
    ensures |r| == |fs|
  {
    if fs == [] then [] else RawsOf(fs[..|fs| - 1]) + [RawOf(fs[|fs| - 1])]
  }

  /** The report on n frames: verified ones are observed, the others only counted. */
  function ReportOn(fs: seq<Frame>): (a: Analysis) {
    ObservedAll(ReadingsOf(Verified(fs))).(crcFail := |fs| - |Verified(fs)|)
  }

  function InspectFile(file: seq<Byte>): (r: Report) {
    if |file| < 16 then ShortHeader
    else if HeaderMagic(file) != ZCM_MAGIC || HeaderVersion(file) != ZCM_VERSION then BadHeader
    else
      var n, body := HeaderCount(file), file[16..];
      if |body| < 24 * n then Truncated(|body| / 24)
      else Inspected(n, ReportOn(Windows(body, n)), RawsOf(Verified(Windows(body, n))))
  }

  // ----- acceptance -----

  /** The --expect options; a negative number or an empty list means not given. */
  datatype Expectations = Expectations(
    gapsMin: int, gapsMax: int, hopIndex: int, lastHopMinPct: real, framesMin: int, raws: seq<I32>)

  const NO_EXPECTATIONS := Expectations(-1, -1, -1, -1.0, -1, [])

  function Percent(k: nat, n: nat): (r: real) {
    if n > 0 then 100.0 * (k as real) / (n as real) else 0.0
  }

  function LastHopPct(a: Analysis): (r: real) {
    Percent(a.lastHop, a.ok)
  }

  /** The exit status: zero is acceptance. */
  predicate Accepts(r: Report, e: Expectations) {
    && r.Inspected?
    && r.stats.crcFail == 0 && r.stats.ok == r.count
    && (e.gapsMin >= 0 ==> TotalGaps(r.stats.byNode) >= e.gapsMin)
    && (e.gapsMax >= 0 ==> TotalGaps(r.stats.byNode) <= e.gapsMax)
    && (e.hopIndex >= 0 ==> e.hopIndex <= 15 && HopCount(r.stats, e.hopIndex) == r.stats.ok != 0)
    && (e.lastHopMinPct >= 0.0 ==> LastHopPct(r.stats) + 0.000000001 >= e.lastHopMinPct)
    && (e.framesMin >= 0 ==> r.stats.ok >= e.framesMin)
    && e.raws <= r.raws
  }

  function HopCount(a: Analysis, hop: int): (n: nat) {
    if 0 <= hop < |a.hopHist| then a.hopHist[hop] else 0
  }

  // ----- a well-formed file -----

  lemma {:induction false} AllAreVerified(fs: seq<Frame>)
    requires AllVerify(fs)
    ensures Verified(fs) == fs
    decreases |fs|
  {
    hide VerifyFrame;
    if fs != [] {
      var front, last := fs[..|fs| - 1], fs[|fs| - 1];
      assert last in fs;
      AllAreVerified(front);
      assert fs == front + [last];
    }
  }

  lemma {:induction false} WindowsOfConcat(fs: seq<Frame>, tail: seq<Byte>)
    ensures |Concat(fs)| == 24 * |fs|
    ensures Windows(Concat(fs) + tail, |fs|) == fs
    decreases |fs|
  {
    ConcatLength(fs);
    if fs != [] {
      var front, last := fs[..|fs| - 1], fs[|fs| - 1];
      assert fs == front + [last];
      ConcatAppend(front, [last]);
      assert Concat([last]) == last;
      ConcatLength(front);
      AppendAssoc(Concat(front), last, tail);
      WindowsOfConcat(front, last + tail);
      LastWindow(Concat(front), last, tail);
    }
  }

  lemma LastWindow(a: seq<Byte>, last: seq<Byte>, tail: seq<Byte>)
    ensures (a + (last + tail))[|a|..|a| + |last|] == last
  {}

  lemma ReportOnVerified(fs: seq<Frame>)
    requires AllVerify(fs)
    ensures ReportOn(fs) == ObservedAll(ReadingsOf(fs)) && Verified(fs) == fs
    ensures ReportOn(fs).ok == |fs| && ReportOn(fs).crcFail == 0
  {
    hide AllVerify, ObservedAll, ReadingsOf, Verified;
    AllAreVerified(fs);
    ObservedCount(ReadingsOf(fs));
  }

  lemma WellFormedReport(fs: seq<Frame>)
    requires |fs| < TWO_TO_THE_64
    ensures InspectFile(Header(|fs|) + Concat(fs)) == Inspected(|fs|, ReportOn(fs), RawsOf(Verified(fs)))
  {
    hide ReportOn, RawsOf, Header, HeaderMagic, HeaderVersion, HeaderCount, Windows, Verified, Concat;
    HeaderReads(|fs|, Concat(fs));
    WindowsOfConcat(fs, []);
    assert Concat(fs) + [] == Concat(fs);
  }

  /** Whatever frames verify, a file with their number in its header and their bytes after
      it is accepted, with every frame observed and the raw values in order. */
  lemma WellFormedAccepted(fs: seq<Frame>)
    requires AllVerify(fs) && |fs| < TWO_TO_THE_64
    ensures var r := InspectFile(Header(|fs|) + Concat(fs));
      && r == Inspected(|fs|, ObservedAll(ReadingsOf(fs)), RawsOf(fs))
      && r.stats.ok == |fs| && r.stats.crcFail == 0
      && Accepts(r, NO_EXPECTATIONS)
  {
    hide AllVerify, ObservedAll, ReadingsOf, RawsOf, Header, Verified, InspectFile, Concat, ReportOn;
    WellFormedReport(fs);
    ReportOnVerified(fs);
  }

  lemma {:induction false} ObservedCount(rs: seq<Reading>)
    ensures ObservedAll(rs).ok == |rs| && ObservedAll(rs).crcFail == 0
  {
    hide NextSeq, ObserveNode, Bump;
    if rs != [] {
      ObservedCount(rs[..|rs| - 1]);
    }
  }

  /** A file is accepted without further expectations exactly when header and length are right
      and every frame it announces verifies. */
  lemma AcceptedExactly(file: seq<Byte>)
    ensures Accepts(InspectFile(file), NO_EXPECTATIONS)
      <==> && |file| >= 16 && HeaderMagic(file) == ZCM_MAGIC && HeaderVersion(file) == ZCM_VERSION
           && |file| - 16 >= 24 * HeaderCount(file)
           && AllVerify(Windows(file[16..], HeaderCount(file)))
  {
    hide VerifyFrame, ObservedAll, ReadingsOf, RawsOf, HeaderMagic, HeaderVersion, HeaderCount, Windows;
    if |file| >= 16 && |file| - 16 >= 24 * HeaderCount(file) {
      var fs := Windows(file[16..], HeaderCount(file));
      ObservedCount(ReadingsOf(Verified(fs)));
      if AllVerify(fs) {
        AllAreVerified(fs);
      } else {
        SomeDoNotVerify(fs);
      }
    }
  }

  lemma {:induction false} SomeDoNotVerify(fs: seq<Frame>)
    requires !AllVerify(fs)
    ensures |Verified(fs)| < |fs|
    decreases |fs|
  {
    hide VerifyFrame;
    if fs != [] {
      var front, last := fs[..|fs| - 1], fs[|fs| - 1];
      assert fs == front + [last];
      if VerifyFrame(last) {
        SomeDoNotVerify(front);
      }
    }
  }

  // ----- the loop -----

  lemma VerifiedStep(fs: seq<Frame>, f: Frame)
    ensures Verified(fs + [f]) == Verified(fs) + (if VerifyFrame(f) then [f] else [])
  {}

  lemma ObserveStep(v: seq<Frame>, f: Frame, fails: nat)
    ensures ObservedAll(ReadingsOf(v + [f])).(crcFail := fails)
         == Observed(ObservedAll(ReadingsOf(v)).(crcFail := fails), ReadingOf(f))
    ensures RawsOf(v + [f]) == RawsOf(v) + [RawOf(f)]
  {
    hide NextSeq, ObserveNode, Bump, RawOf, ReadingOf;
    assert (v + [f])[..|v + [f]| - 1] == v;
    var rs := ReadingsOf(v + [f]);
    assert rs == ReadingsOf(v) + [ReadingOf(f)];
    assert rs[..|rs| - 1] == ReadingsOf(v);
  }

  /** One frame of the loop: observed and its value kept, or counted as failed. */
  method TakeFrame(stats: ZcmAnalyze, frame: Frame, before: seq<I32>, ghost fs: seq<Frame>) returns (raws: seq<I32>)
    requires stats.Valid() && stats.State() == ReportOn(fs) && before == RawsOf(Verified(fs))
    modifies stats, stats.hopHist
    ensures stats.Valid() && stats.State() == ReportOn(fs + [frame]) && raws == RawsOf(Verified(fs + [frame]))
  {
    hide VerifyFrame, ObservedAll, ReadingsOf, RawsOf, Verified, RawOf, ReadingOf, Observed;
    VerifiedStep(fs, frame);
    if !VerifyFrame(frame) {
      stats.crcFail := stats.crcFail + 1;
      assert Verified(fs) + [] == Verified(fs);
      return before;
    }
    ObserveStep(Verified(fs), frame, |fs| - |Verified(fs)|);
    stats.Observe(ReadingOf(frame));
    return before + [RawOf(frame)];
  }

  /** The frame loop: stops at the first frame the file is too short for. */
  method ReadFrames(body: seq<Byte>, count: U64) returns (r: Report)
    ensures r == if |body| < 24 * count then Truncated(|body| / 24)
                 else Inspected(count, ReportOn(Windows(body, count)), RawsOf(Verified(Windows(body, count))))
  {
    hide ReportOn, RawsOf, Verified;
    var stats := new ZcmAnalyze();
    var raws: seq<I32> := [];
    NothingRead(body);
    var i := 0;
    while i < count
      invariant 0 <= i <= count && 24 * i <= |body|
      invariant stats.Valid() && fresh(stats) && fresh(stats.hopHist)
      invariant stats.State() == ReportOn(Windows(body, i))
      invariant raws == RawsOf(Verified(Windows(body, i)))
    {
      if |body| < 24 * (i + 1) {
        return Truncated(i);
      }
      raws := TakeFrame(stats, body[24 * i..24 * i + 24], raws, Windows(body, i));
      i := i + 1;
    }
    r := Inspected(count, Analysis(stats.ok, stats.crcFail, stats.minSeq, stats.maxSeq, stats.any,
                                   stats.byNode, stats.bySensor, stats.lastHop, stats.hopHist[..]), raws);
  }

  method RunInspect(file: seq<Byte>) returns (r: Report)
    ensures r == InspectFile(file)
  {
    hide ReportOn, RawsOf, Verified, Windows, HeaderMagic, HeaderVersion, HeaderCount;
    if |file| < 16 {
      return ShortHeader;
    }
    if HeaderMagic(file) != ZCM_MAGIC || HeaderVersion(file) != ZCM_VERSION {
      return BadHeader;
    }
    r := ReadFrames(file[16..], HeaderCount(file));
  }

  lemma NothingRead(body: seq<Byte>)
    ensures ReportOn(Windows(body, 0)) == FRESH && RawsOf(Verified(Windows(body, 0))) == []
  {}
}

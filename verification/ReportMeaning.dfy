/** What the numbers of a report say about the frames, and what each expectation of the inspector
    asks of a file. */
module ReportMeaning {
  import opened Bytes
  import opened WireFrame
  import opened StreamScan
  import opened Analyze
  import opened ZcmFile
  import opened Inspect

  // ----- counts over all frames -----

  /** Readings whose hop index lies in lo..hi. */
  function HopsIn(rs: seq<Reading>, lo: nat, hi: nat): (n: nat) {
    if rs == [] then 0 else HopsIn(rs[1..], lo, hi) + (if lo <= rs[0].hop <= hi then 1 else 0)
  }

  function OfSensor(rs: seq<Reading>, k: U8): (n: nat) {
    if rs == [] then 0 else OfSensor(rs[1..], k) + (if rs[0].sensor == k then 1 else 0)
  }

  function LastHops(rs: seq<Reading>): (n: nat) {
    if rs == [] then 0 else LastHops(rs[1..]) + (if rs[0].last then 1 else 0)
  }

  lemma {:induction false} CountsMore(rs: seq<Reading>, r: Reading, lo: nat, hi: nat, k: U8)
    ensures HopsIn(rs + [r], lo, hi) == HopsIn(rs, lo, hi) + (if lo <= r.hop <= hi then 1 else 0)
    ensures OfSensor(rs + [r], k) == OfSensor(rs, k) + (if r.sensor == k then 1 else 0)
    ensures LastHops(rs + [r]) == LastHops(rs) + (if r.last then 1 else 0)
  {
    if rs != [] {
      assert (rs + [r])[1..] == rs[1..] + [r];
      CountsMore(rs[1..], r, lo, hi, k);
    }
  }

  /** The buckets count the frames with that hop index, the last one all from 15 on. */
  lemma {:induction false} HopBuckets(rs: seq<Reading>, i: nat)
    requires i < 16
    ensures ObservedAll(rs).hopHist[i] == HopsIn(rs, i, if i < 15 then i else 255)
    decreases |rs|
  {
    hide ObserveNode, Bump;
    if rs != [] {
      var n := |rs| - 1;
      HopBuckets(rs[..n], i);
      assert rs == rs[..n] + [rs[n]];
      CountsMore(rs[..n], rs[n], i, if i < 15 then i else 255, 0);
    }
  }

  lemma {:induction false} SensorCounts(rs: seq<Reading>, k: U8)
    ensures var m := ObservedAll(rs).bySensor;
      (k in m <==> OfSensor(rs, k) > 0) && (k in m ==> m[k] == OfSensor(rs, k))
    ensures ObservedAll(rs).lastHop == LastHops(rs)
    decreases |rs|
  {
    hide ObserveNode, HistIndex;
    if rs != [] {
      var n := |rs| - 1;
      SensorCounts(rs[..n], k);
      assert rs == rs[..n] + [rs[n]];
      CountsMore(rs[..n], rs[n], 0, 0, k);
    }
  }

  /** The range is that of the numbers observed, and both ends occur. */
  lemma {:induction false} RangeIs(rs: seq<Reading>)
    ensures var a := ObservedAll(rs);
      && (a.any <==> rs != [])
      && (forall r :: r in rs ==> a.minSeq <= r.seqno <= a.maxSeq)
      && (rs != [] ==> (exists r :: r in rs && r.seqno == a.minSeq) && (exists r :: r in rs && r.seqno == a.maxSeq))
    decreases |rs|
  {
    hide ObserveNode, HistIndex, Bump;
    if rs != [] {
      var n := |rs| - 1;
      RangeIs(rs[..n]);
      assert rs == rs[..n] + [rs[n]];
      assert rs[n] in rs;
    }
  }

  // ----- one node, whatever its numbers do -----

  /** Numbers skipped from the one before to number i. */
  function HoleAt(xs: seq<U32>, i: nat): (h: nat)
    requires 0 < i < |xs|
  {
    if xs[i] > xs[i - 1] then xs[i] - xs[i - 1] - 1 else 0
  }

  function Skipped(xs: seq<U32>): (n: nat) {
    if |xs| < 2 then 0 else Skipped(xs[..|xs| - 1]) + HoleAt(xs, |xs| - 1)
  }

  function Jumps(xs: seq<U32>): (n: nat) {
    if |xs| < 2 then 0 else Jumps(xs[..|xs| - 1]) + (if HoleAt(xs, |xs| - 1) > 0 then 1 else 0)
  }

  function Repeats(xs: seq<U32>): (n: nat) {
    if |xs| < 2 then 0 else Repeats(xs[..|xs| - 1]) + (if xs[|xs| - 1] <= xs[|xs| - 2] then 1 else 0)
  }

  /** For any numbers, going back and repeating included: every step back or on the spot is a dup, every
      step over a hole an event, gaps adds up the holes and max_hole is the largest. */
  lemma {:induction false} NodeStatsMean(xs: seq<U32>)
    requires xs != []
    ensures var n := NodeStats(xs);
      && n.frames == |xs| && n.lastSeq == xs[|xs| - 1]
      && n.gaps == Skipped(xs) && n.gapEvents == Jumps(xs) && n.dups == Repeats(xs)
      && (forall i: nat :: 0 < i < |xs| ==> HoleAt(xs, i) <= n.maxHole)
      && (n.maxHole > 0 ==> exists i: nat :: 0 < i < |xs| && HoleAt(xs, i) == n.maxHole)
    decreases |xs|
  {
    if |xs| > 1 {
      var k := |xs| - 1;
      var front := xs[..k];
      NodeStatsMean(front);
      StepMeans(NodeStats(front), xs[k]);
      var n, m := NodeStats(front), NodeStats(xs);
      forall i: nat | 0 < i < |xs|
        ensures HoleAt(xs, i) <= m.maxHole
      {
        if i < k {
          assert HoleAt(xs, i) == HoleAt(front, i);
        }
      }
      if m.maxHole > 0 {
        if HoleAt(xs, k) == m.maxHole {
        } else {
          var i: nat :| 0 < i < |front| && HoleAt(front, i) == n.maxHole;
          assert HoleAt(xs, i) == HoleAt(front, i);
        }
      }
    }
  }

  lemma StepMeans(n: NodeGapStats, s: U32)
    ensures var m := NextSeq(n, s);
      var hole := if s > n.lastSeq then s - n.lastSeq - 1 else 0;
      && m.frames == n.frames + 1 && m.lastSeq == s
      && m.gaps == n.gaps + hole && m.gapEvents == n.gapEvents + (if hole > 0 then 1 else 0)
      && m.dups == n.dups + (if s <= n.lastSeq then 1 else 0)
      && m.maxHole == (if hole > n.maxHole then hole else n.maxHole)
  {}

  // ----- the expectations -----

  /** All frames report this hop index, 15 standing for all from 15 on. */
  ghost predicate AllAtHop(fs: seq<Frame>, hop: int) {
    && 0 <= hop <= 15
    && forall f :: f in fs ==> HopIndexOf(f) == hop || (hop == 15 && HopIndexOf(f) > 15)
  }

  lemma {:induction false} AllInBucket(rs: seq<Reading>, lo: nat, hi: nat)
    ensures HopsIn(rs, lo, hi) <= |rs|
    ensures HopsIn(rs, lo, hi) == |rs| <==> forall r :: r in rs ==> lo <= r.hop <= hi
  {
    if rs != [] {
      AllInBucket(rs[1..], lo, hi);
      assert rs == [rs[0]] + rs[1..];
    }
  }

  lemma AtHopIs(fs: seq<Frame>, hop: nat)
    requires hop < 16
    ensures ObservedAll(ReadingsOf(fs)).hopHist[hop] == |fs| <==> AllAtHop(fs, hop)
  {
    hide ObservedAll, HopIndexOf, SeqOf, NodeOf, SensorOf, LastHop;
    var rs, hi := ReadingsOf(fs), if hop < 15 then hop else 255;
    HopBuckets(rs, hop);
    AllInBucket(rs, hop, hi);
    if AllAtHop(fs, hop) {
      forall r | r in rs
        ensures hop <= r.hop <= hi
      {
        var i :| 0 <= i < |rs| && rs[i] == r;
        assert fs[i] in fs;
      }
    } else {
      var f :| f in fs && !(HopIndexOf(f) == hop || (hop == 15 && HopIndexOf(f) > 15));
      var i :| 0 <= i < |fs| && fs[i] == f;
      assert rs[i] in rs;
    }
  }

  /** k of n, in percent. */
  lemma PercentIs(k: nat, n: nat)
    ensures n > 0 ==> Percent(k, n) * n as real == 100.0 * k as real
    ensures n == 0 ==> Percent(k, n) == 0.0
  {
    if n > 0 {
      var p, x := 100.0 * k as real, n as real;
      assert p / x * x == p;
    }
  }

  function LastHopShare(fs: seq<Frame>): (pct: real) {
    Percent(LastHops(ReadingsOf(fs)), |fs|)
  }

  /** The frames meet each expectation that is given: total gaps in range, all frames at the hop index,
      enough of them with LAST_HOP, enough of them, and the raw values listed first, in order. */
  ghost predicate Meets(fs: seq<Frame>, e: Expectations) {
    var gaps := TotalGaps(ObservedAll(ReadingsOf(fs)).byNode);
    && (e.gapsMin >= 0 ==> gaps >= e.gapsMin)
    && (e.gapsMax >= 0 ==> gaps <= e.gapsMax)
    && (e.hopIndex >= 0 ==> fs != [] && AllAtHop(fs, e.hopIndex))
    && (e.lastHopMinPct >= 0.0 ==> LastHopShare(fs) + 0.000000001 >= e.lastHopMinPct)
    && (e.framesMin >= 0 ==> |fs| >= e.framesMin)
    && e.raws <= RawsOf(fs)
  }

  lemma ShareIs(fs: seq<Frame>)
    ensures LastHopPct(ObservedAll(ReadingsOf(fs))) == LastHopShare(fs)
    ensures ObservedAll(ReadingsOf(fs)).ok == |fs| && ObservedAll(ReadingsOf(fs)).crcFail == 0
  {
    hide ObservedAll, ReadingsOf, LastHops, Percent;
    SensorCounts(ReadingsOf(fs), 0);
    ObservedCount(ReadingsOf(fs));
  }

  lemma HopClause(fs: seq<Frame>, hop: int)
    requires hop >= 0
    ensures var a := ObservedAll(ReadingsOf(fs));
      hop <= 15 && HopCount(a, hop) == a.ok != 0 <==> fs != [] && AllAtHop(fs, hop)
  {
    hide ObservedAll, ReadingsOf;
    ObservedCount(ReadingsOf(fs));
    if hop < 16 {
      AtHopIs(fs, hop);
    }
  }

  lemma ReportMeets(fs: seq<Frame>, e: Expectations)
    requires |fs| < TWO_TO_THE_64
    ensures Accepts(Inspected(|fs|, ObservedAll(ReadingsOf(fs)), RawsOf(fs)), e) <==> Meets(fs, e)
  {
    hide ObservedAll, ReadingsOf, RawsOf, TotalGaps, AllAtHop, LastHopPct, LastHopShare, HopCount;
    ShareIs(fs);
    if e.hopIndex >= 0 {
      HopClause(fs, e.hopIndex);
    }
  }

  /** A file that is long enough is accepted with given expectations exactly when it is accepted
      without any and its frames meet them. */
  lemma AcceptedWithExactly(file: seq<Byte>, e: Expectations)
    requires |file| >= 16 && |file| - 16 >= 24 * HeaderCount(file)
    ensures Accepts(InspectFile(file), e)
      <==> Accepts(InspectFile(file), NO_EXPECTATIONS) && Meets(Windows(file[16..], HeaderCount(file)), e)
  {
    hide ObservedAll, ReadingsOf, RawsOf, HeaderMagic, HeaderVersion, HeaderCount, Windows, VerifyFrame, TotalGaps,
        Meets, AllVerify, ReportOn, Verified;
    var fs := Windows(file[16..], HeaderCount(file));
    AcceptedExactly(file);
    StricterIsAccepted(InspectFile(file), e);
    if Accepts(InspectFile(file), NO_EXPECTATIONS) {
      ReportOnVerified(fs);
      ReportMeets(fs, e);
    }
  }

  lemma StricterIsAccepted(r: Report, e: Expectations)
    ensures Accepts(r, e) ==> Accepts(r, NO_EXPECTATIONS)
  {
    hide TotalGaps;
  }
}

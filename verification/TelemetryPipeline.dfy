/** The live Java pipeline, and its agreement with the offline analyser. */
module TelemetryPipeline {
  import opened Basics
  import opened Bytes
  import opened Analyze
  import opened WireRecord

  datatype PipelineState = PipelineState(
    framesOk: nat, framesCrcFail: nat, bytesIn: nat,
    seqGaps: nat, seqDups: nat, uniqueNodes: nat, lastSeq: int,
    lastSeqByNode: seq<Option<U32>>,
    sensors: Sensors, tcpResync: nat, hops: Hops, latest: map<U16, Record>, ringFeed: seq<Record>)

  datatype Sensors = Sensors(voltage: nat, current: nat, temp: nat, other: nat)
  datatype Hops = Hops(lastHop: nat, idx0: nat, idx1: nat, idx2Plus: nat)
  datatype Gaps = Gaps(gaps: nat, dups: nat, nodes: nat, last: seq<Option<U32>>)

  function TrackSensor(s: Sensors, sensor: U8): (r: Sensors) {
    match sensor
    case 0 => s.(voltage := s.voltage + 1)
    case 1 => s.(current := s.current + 1)
    case 2 => s.(temp := s.temp + 1)
    case _ => s.(other := s.other + 1)
  }

  function TrackHop(h: Hops, x: Reading): (r: Hops) {
    var g := if x.last then h.(lastHop := h.lastHop + 1) else h;
    if x.hop == 0 then g.(idx0 := g.idx0 + 1)
    else if x.hop == 1 then g.(idx1 := g.idx1 + 1)
    else g.(idx2Plus := g.idx2Plus + 1)
  }

  function TrackGaps(g: Gaps, x: Reading): (r: Gaps)
    requires |g.last| == 0x1_0000
    ensures |r.last| == 0x1_0000
  {
    var next := g.last[x.node := Some(x.seqno)];
    match g.last[x.node]
    case None => Gaps(g.gaps, g.dups, g.nodes + 1, next)
    case Some(prev) =>
      if x.seqno > prev + 1 then Gaps(g.gaps + (x.seqno - (prev + 1)), g.dups, g.nodes, next)
      else if x.seqno <= prev then Gaps(g.gaps, g.dups + 1, g.nodes, next)
      else Gaps(g.gaps, g.dups, g.nodes, next)
  }

  function GapsOf(p: PipelineState): (r: Gaps) {
    Gaps(p.seqGaps, p.seqDups, p.uniqueNodes, p.lastSeqByNode)
  }

  function Offered(p: PipelineState, r: Record): (q: PipelineState)
    requires |p.lastSeqByNode| == 0x1_0000
    ensures |q.lastSeqByNode| == 0x1_0000
  {
    var b := p.(bytesIn := p.bytesIn + 24);
    if !r.crcOk then b.(framesCrcFail := p.framesCrcFail + 1)
    else
      var x := ReadingOfRecord(r);
      var g := TrackGaps(GapsOf(p), x);
      b.(seqGaps := g.gaps, seqDups := g.dups, uniqueNodes := g.nodes, lastSeqByNode := g.last,
         sensors := TrackSensor(p.sensors, x.sensor),
         hops := TrackHop(p.hops, x),
         framesOk := p.framesOk + 1, lastSeq := r.seqno, latest := p.latest[r.nodeId := r],
         ringFeed := p.ringFeed + [r])
  }

  function FreshPipeline(): (p: PipelineState)
    ensures |p.lastSeqByNode| == 0x1_0000
  {
    PipelineState(0, 0, 0, 0, 0, 0, -1, seq(0x1_0000, _ => None), Sensors(0, 0, 0, 0), 0, Hops(0, 0, 0, 0), map[], [])
  }

  function OfferedAll(rs: seq<Record>): (p: PipelineState)
    ensures |p.lastSeqByNode| == 0x1_0000
  {
    if rs == [] then FreshPipeline() else Offered(OfferedAll(rs[..|rs| - 1]), rs[|rs| - 1])
  }

  /** s is the last verified record of a node among rs. */
  ghost predicate LastFrom(rs: seq<Record>, id: U16, s: Record) {
    exists i :: 0 <= i < |rs| && rs[i] == s && s.crcOk && s.nodeId == id
      && forall j :: i < j < |rs| && rs[j].crcOk ==> rs[j].nodeId != id
  }

  /** The table of nodes shows the last verified record of each node heard from, one entry for
      every unique node, and the gap tracker remembers that record's number. */
  lemma {:induction false} LatestIsLast(rs: seq<Record>, id: U16)
    ensures var p := OfferedAll(rs);
      && (id in p.latest <==> exists r :: r in rs && r.crcOk && r.nodeId == id)
      && (id in p.latest ==> LastFrom(rs, id, p.latest[id]))
      && p.lastSeqByNode[id] == (if id in p.latest then Some(p.latest[id].seqno) else None)
      && |p.latest| == p.uniqueNodes
    decreases |rs|
  {
    hide Offered, LastFrom;
    if rs != [] {
      var n := |rs| - 1;
      LatestIsLast(rs[..n], id);
      LatestIsLast(rs[..n], rs[n].nodeId);
      assert rs == rs[..n] + [rs[n]];
      LastAfterOneMore(rs[..n], rs[n], id);
      OneMoreEntry(OfferedAll(rs[..n]).latest, rs[n]);
      OfferRemembers(OfferedAll(rs[..n]), rs[n]);
    }
  }

  /** What an offer does to the per-node memory. */
  lemma OfferRemembers(p: PipelineState, r: Record)
    requires |p.lastSeqByNode| == 0x1_0000
    ensures var q := Offered(p, r);
      && q.latest == (if r.crcOk then p.latest[r.nodeId := r] else p.latest)
      && q.lastSeqByNode == (if r.crcOk then p.lastSeqByNode[r.nodeId := Some(r.seqno)] else p.lastSeqByNode)
      && q.uniqueNodes == p.uniqueNodes + (if r.crcOk && p.lastSeqByNode[r.nodeId].None? then 1 else 0)
  {
    hide TrackSensor, TrackHop;
  }

  /** The records that verified. */
  function Good(rs: seq<Record>): (r: seq<Record>)
    ensures |r| <= |rs|
  {
    if rs == [] then []
    else Good(rs[..|rs| - 1]) + (if rs[|rs| - 1].crcOk then [rs[|rs| - 1]] else [])
  }

  /** Records that failed their check are counted as failures and as bytes and touch nothing else; the
      others all reach the ring, in order, and the last of them gives the last number shown. */
  lemma {:induction false} BadRecordsOnlyCount(rs: seq<Record>)
    ensures var p, good := OfferedAll(rs), Good(rs);
      && p.framesOk == |good| && p.framesCrcFail == |rs| - |good| && p.bytesIn == 24 * |rs|
      && p.ringFeed == good
      && p.lastSeq == (if good == [] then -1 else good[|good| - 1].seqno)
      && p == OfferedAll(good).(framesCrcFail := p.framesCrcFail, bytesIn := p.bytesIn)
    decreases |rs|
  {
    hide TrackSensor, TrackHop, TrackGaps, ReadingOfRecord;
    if rs != [] {
      var n := |rs| - 1;
      BadRecordsOnlyCount(rs[..n]);
      if rs[n].crcOk {
        assert Good(rs)[..|Good(rs)| - 1] == Good(rs[..n]);
      } else {
        assert Good(rs) == Good(rs[..n]);
      }
    }
  }

  lemma LastAfterOneMore(rs: seq<Record>, r: Record, id: U16)
    ensures r.crcOk && r.nodeId == id ==> LastFrom(rs + [r], id, r)
    ensures !r.crcOk || r.nodeId != id ==> forall s :: LastFrom(rs, id, s) ==> LastFrom(rs + [r], id, s)
  {
    if r.crcOk && r.nodeId == id {
      assert (rs + [r])[|rs|] == r;
    } else {
      forall s | LastFrom(rs, id, s)
        ensures LastFrom(rs + [r], id, s)
      {
        var i :| 0 <= i < |rs| && rs[i] == s && s.crcOk && s.nodeId == id
          && forall j :: i < j < |rs| && rs[j].crcOk ==> rs[j].nodeId != id;
        assert (rs + [r])[i] == s;
      }
    }
  }

  lemma OneMoreEntry(m: map<U16, Record>, r: Record)
    ensures |m[r.nodeId := r]| == |m| + (if r.nodeId in m then 0 else 1)
  {
    if r.nodeId in m {
      assert m[r.nodeId := r].Keys == m.Keys;
    } else {
      assert m[r.nodeId := r].Keys == m.Keys + {r.nodeId};
    }
  }

  /** The pipeline object: adders, the per-node array and the ring it feeds. */
  class Pipeline {
    var framesOk: nat
    var framesCrcFail: nat
    var bytesIn: nat
    var seqGaps: nat
    var seqDups: nat
    var uniqueNodes: nat
    var lastSeq: int
    const lastSeqByNode: array<Option<U32>>
    var sensors: Sensors
    var tcpResync: nat
    var hops: Hops
    var latestByNode: map<U16, Record>
    var ringFeed: seq<Record>

    ghost predicate Valid()
      reads this
    {
      lastSeqByNode.Length == 0x1_0000
    }

    ghost function State(): (r: PipelineState)
      requires Valid()
      reads this, lastSeqByNode
      ensures |r.lastSeqByNode| == 0x1_0000
    {
      PipelineState(framesOk, framesCrcFail, bytesIn, seqGaps, seqDups, uniqueNodes, lastSeq,
                    lastSeqByNode[..], sensors, tcpResync, hops, latestByNode, ringFeed)
    }

    constructor ()
      ensures Valid() && fresh(lastSeqByNode)
      ensures State() == FreshPipeline()
    {
      framesOk, framesCrcFail, bytesIn := 0, 0, 0;
      seqGaps, seqDups, uniqueNodes, lastSeq := 0, 0, 0, -1;
      lastSeqByNode := new Option<U32>[0x1_0000](_ => None);
      sensors, tcpResync, hops := Sensors(0, 0, 0, 0), 0, Hops(0, 0, 0, 0);
      latestByNode, ringFeed := map[], [];
    }

    method Offer(r: Record)
      requires Valid()
      modifies this, lastSeqByNode
      ensures Valid() && State() == Offered(old(State()), r)
    {
      hide TrackGaps, TrackSensor, TrackHop;
      bytesIn := bytesIn + 24;
      if !r.crcOk {
        framesCrcFail := framesCrcFail + 1;
        return;
      }
      UpdateGaps(r);
      Show(r);
    }

    /** What the display reads: the counters by sensor type and by hop, the latest frames and the ring. */
    method Show(r: Record)
      requires Valid()
      modifies this`sensors, this`hops, this`framesOk, this`lastSeq, this`latestByNode, this`ringFeed
      ensures State() == old(State()).(
          sensors := TrackSensor(old(sensors), r.sensorType), hops := TrackHop(old(hops), ReadingOfRecord(r)),
          framesOk := old(framesOk) + 1, lastSeq := r.seqno, latest := old(latestByNode)[r.nodeId := r],
          ringFeed := old(ringFeed) + [r])
    {
      hide TrackSensor, TrackHop, ReadingOfRecord;
      sensors := TrackSensor(sensors, r.sensorType);
      hops := TrackHop(hops, ReadingOfRecord(r));
      framesOk := framesOk + 1;
      lastSeq := r.seqno;
      latestByNode := latestByNode[r.nodeId := r];
      ringFeed := ringFeed + [r];
    }

    method UpdateGaps(r: Record)
      requires Valid()
      modifies this`seqGaps, this`seqDups, this`uniqueNodes, lastSeqByNode
      ensures GapsOf(State()) == TrackGaps(old(GapsOf(State())), ReadingOfRecord(r))
    {
      var id := r.nodeId;
      match lastSeqByNode[id]
      case None =>
        lastSeqByNode[id] := Some(r.seqno);
        uniqueNodes := uniqueNodes + 1;
        assert lastSeqByNode[..] == old(lastSeqByNode[..])[id := Some(r.seqno)];
      case Some(prev) =>
        var expected := prev + 1;
        if r.seqno > expected {
          seqGaps := seqGaps + (r.seqno - expected);
        } else if r.seqno <= prev {
          seqDups := seqDups + 1;
        }
        lastSeqByNode[id] := Some(r.seqno);
        assert lastSeqByNode[..] == old(lastSeqByNode[..])[id := Some(r.seqno)];
    }

    method NoteTcpResync(skipped: int)
      requires Valid()
      modifies this`tcpResync
      ensures State() == old(State()).(tcpResync := old(tcpResync) + if skipped > 0 then skipped else 0)
    {
      if skipped > 0 {
        tcpResync := tcpResync + skipped;
      }
    }

    method NoteCrcFail()
      requires Valid()
      modifies this`framesCrcFail
      ensures State() == old(State()).(framesCrcFail := old(framesCrcFail) + 1)
    {
      framesCrcFail := framesCrcFail + 1;
    }
  }

  // ----- agreement with the offline analyser -----

  /** Entries of a histogram from index k on. */
  function SumFrom(h: seq<nat>, k: nat): (r: nat)
    decreases |h| - k
  {
    if k >= |h| then 0 else h[k] + SumFrom(h, k + 1)
  }

  function CountOf(m: map<U8, nat>, k: U8): (r: nat) {
    if k in m then m[k] else 0
  }

  /** Counts of the sensor types from k on. */
  function SensorsFrom(m: map<U8, nat>, k: nat): (r: nat)
    decreases 256 - k
  {
    if k >= 256 then 0 else CountOf(m, k) + SensorsFrom(m, k + 1)
  }

  /** The per-node memory of both sides is the same. */
  ghost predicate SameMemory(m: map<U16, NodeGapStats>, last: seq<Option<U32>>)
    requires |last| == 0x1_0000
  {
    forall id: U16 :: (id in m <==> last[id].Some?) && (id in m ==> last[id] == Some(m[id].lastSeq))
  }

  /** What both sides report, after regrouping. */
  ghost predicate Agree(a: Analysis, p: PipelineState)
    requires |a.hopHist| == 16 && |p.lastSeqByNode| == 0x1_0000
  {
    && a.ok == p.framesOk
    && TotalGaps(a.byNode) == p.seqGaps
    && TotalDups(a.byNode) == p.seqDups
    && |a.byNode| == p.uniqueNodes
    && SameMemory(a.byNode, p.lastSeqByNode)
    && SameHops(a, p.hops)
    && SameSensors(a.bySensor, p.sensors)
  }

  predicate SameHops(a: Analysis, h: Hops)
    requires |a.hopHist| == 16
  {
    a.lastHop == h.lastHop && a.hopHist[0] == h.idx0 && a.hopHist[1] == h.idx1 && SumFrom(a.hopHist, 2) == h.idx2Plus
  }

  predicate SameSensors(m: map<U8, nat>, s: Sensors) {
    CountOf(m, 0) == s.voltage && CountOf(m, 1) == s.current && CountOf(m, 2) == s.temp && SensorsFrom(m, 3) == s.other
  }

  /** On any sequence of verified frames, regressions and repeats included, the live counters
      equal the offline report. */
  lemma {:induction false} AnalysersAgree(rs: seq<Record>, xs: seq<Reading>)
    requires |rs| == |xs|
    requires forall i :: 0 <= i < |rs| ==> rs[i].crcOk && ReadingOfRecord(rs[i]) == xs[i]
    ensures Agree(ObservedAll(xs), OfferedAll(rs))
    decreases |rs|
  {
    hide Observed, Offered, Agree;
    if rs == [] {
      FreshAgree();
    } else {
      var n := |rs| - 1;
      AnalysersAgree(rs[..n], xs[..n]);
      StepAgrees(ObservedAll(xs[..n]), OfferedAll(rs[..n]), rs[n], xs[n]);
    }
  }

  lemma FreshAgree()
    ensures Agree(FRESH, FreshPipeline())
  {
    SumsOfNothing(0x1_0000);
    NoHops(2);
    NoSensors(3);
  }

  lemma {:induction false} NoHops(k: nat)
    ensures SumFrom(FRESH.hopHist, k) == 0
    decreases 16 - k
  {
    if k < 16 {
      NoHops(k + 1);
    }
  }

  lemma {:induction false} NoSensors(k: nat)
    ensures SensorsFrom(map[], k) == 0
    decreases 256 - k
  {
    if k < 256 {
      NoSensors(k + 1);
    }
  }

  lemma StepAgrees(a: Analysis, p: PipelineState, r: Record, x: Reading)
    requires |a.hopHist| == 16 && |p.lastSeqByNode| == 0x1_0000
    requires Agree(a, p)
    requires r.crcOk && ReadingOfRecord(r) == x
    ensures Agree(Observed(a, x), Offered(p, r))
  {
    hide SameMemory, SameHops, SameSensors, TotalGaps, TotalDups, TrackGaps, TrackHop, TrackSensor, ObserveNode,
        Bump, ReadingOfRecord;
    GapsStepAgrees(a.byNode, GapsOf(p), x);
    HopsStepAgrees(a, p.hops, x);
    SensorsStepAgrees(a.bySensor, p.sensors, x.sensor);
  }

  lemma GapsStepAgrees(m: map<U16, NodeGapStats>, g: Gaps, x: Reading)
    requires |g.last| == 0x1_0000
    requires TotalGaps(m) == g.gaps && TotalDups(m) == g.dups && |m| == g.nodes && SameMemory(m, g.last)
    ensures var n := ObserveNode(m, x); var h := TrackGaps(g, x);
      TotalGaps(n) == h.gaps && TotalDups(n) == h.dups && |n| == h.nodes && SameMemory(n, h.last)
  {
    hide NextSeq, GapsBelow, DupsBelow, SameMemory, FirstSeen;
    var v := if x.node in m then NextSeq(m[x.node], x.seqno) else FirstSeen(x.seqno);
    SumsAfterUpdate(m, x.node, v, 0x1_0000);
    MemoryStepAgrees(m, g.last, x);
    MemoryAt(m, g.last, x.node);
    CountAfterUpdate(m, x.node, v);
    if x.node in m {
      NextSeqPlain(m[x.node], x.seqno);
    } else {
      FirstSeenPlain(x.seqno);
    }
  }

  lemma FirstSeenPlain(s: U32)
    ensures FirstSeen(s).gaps == 0 && FirstSeen(s).dups == 0
  {}

  lemma MemoryAt(m: map<U16, NodeGapStats>, last: seq<Option<U32>>, id: U16)
    requires |last| == 0x1_0000
    requires SameMemory(m, last)
    ensures id in m <==> last[id].Some?
    ensures id in m ==> last[id] == Some(m[id].lastSeq)
  {}

  lemma CountAfterUpdate(m: map<U16, NodeGapStats>, id: U16, v: NodeGapStats)
    ensures |m[id := v]| == if id in m then |m| else |m| + 1
  {}

  lemma MemoryStepAgrees(m: map<U16, NodeGapStats>, last: seq<Option<U32>>, x: Reading)
    requires |last| == 0x1_0000
    requires SameMemory(m, last)
    ensures SameMemory(ObserveNode(m, x), last[x.node := Some(x.seqno)])
  {}

  /** The 32-bit comparison agrees with Java's 64-bit one: the wrap-around case is a repeat. */
  lemma NextSeqPlain(n: NodeGapStats, s: U32)
    ensures var v := NextSeq(n, s);
      && v.lastSeq == s
      && v.gaps == n.gaps + (if s > n.lastSeq + 1 then s - (n.lastSeq + 1) else 0)
      && v.dups == n.dups + (if s <= n.lastSeq then 1 else 0)
  {}

  lemma HopsStepAgrees(a: Analysis, h: Hops, x: Reading)
    requires |a.hopHist| == 16
    requires SameHops(a, h)
    ensures SameHops(Observed(a, x), TrackHop(h, x))
  {
    hide SumFrom, ObserveNode, Bump;
    SumAfterBump(a.hopHist, HistIndex(x.hop), 2);
  }

  lemma {:induction false} SumAfterBump(h: seq<nat>, i: nat, k: nat)
    requires i < |h|
    ensures SumFrom(h[i := h[i] + 1], k) == SumFrom(h, k) + (if k <= i then 1 else 0)
    decreases |h| - k
  {
    if k < |h| {
      SumAfterBump(h, i, k + 1);
    }
  }

  lemma SensorsStepAgrees(m: map<U8, nat>, s: Sensors, sensor: U8)
    requires SameSensors(m, s)
    ensures SameSensors(Bump(m, sensor), TrackSensor(s, sensor))
  {
    hide SensorsFrom;
    SensorsAfterBump(m, sensor, 3);
  }

  lemma {:induction false} SensorsAfterBump(m: map<U8, nat>, sensor: U8, k: nat)
    ensures SensorsFrom(Bump(m, sensor), k) == SensorsFrom(m, k) + (if k <= sensor then 1 else 0)
    decreases 256 - k
  {
    if k < 256 {
      SensorsAfterBump(m, sensor, k + 1);
    }
  }
}

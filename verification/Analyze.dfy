/** Sequence-gap analysis: the offline C++ analyser and the live Java pipeline. */
module Analyze {
  import opened Bytes
  import opened WireFrame

  /** The fields of a verified frame the analysers look at. */
  datatype Reading = Reading(seqno: U32, node: U16, sensor: U8, hop: U8, last: bool)

  function ReadingOf(f: Frame): (r: Reading) {
    Reading(SeqOf(f), NodeOf(f), SensorOf(f), HopIndexOf(f), LastHop(f))
  }

  function ReadingsOf(fs: seq<Frame>): (r: seq<Reading>)
    ensures |r| == |fs|
    ensures forall i :: 0 <= i < |fs| ==> r[i] == ReadingOf(fs[i])
  {
    if fs == [] then [] else ReadingsOf(fs[..|fs| - 1]) + [ReadingOf(fs[|fs| - 1])]
  }

  // ----- one node -----

  datatype NodeGapStats = NodeGapStats(
    lastSeq: U32, frames: nat, gaps: nat, gapEvents: nat, dups: nat, maxHole: U32)

  function FirstSeen(s: U32): (r: NodeGapStats) {
    NodeGapStats(s, 1, 0, 0, 0, 0)
  }

  /** One more frame of a node already seen; the comparison with last_seq + 1 is in 32 bits. */
  function NextSeq(n: NodeGapStats, s: U32): (r: NodeGapStats) {
    var m := n.(frames := n.frames + 1, lastSeq := s);
    if s <= n.lastSeq then m.(dups := n.dups + 1)
    else if s > (n.lastSeq + 1) % TWO_TO_THE_32 then
      var hole := (s - n.lastSeq - 1) % TWO_TO_THE_32;
      m.(gaps := n.gaps + hole, gapEvents := n.gapEvents + 1,
         maxHole := if hole > n.maxHole then hole else n.maxHole)
    else m
  }

  /** The statistics of one node from its own sequence numbers alone. */
  function NodeStats(xs: seq<U32>): (r: NodeGapStats)
    requires xs != []
  {
    if |xs| == 1 then FirstSeen(xs[0]) else NextSeq(NodeStats(xs[..|xs| - 1]), xs[|xs| - 1])
  }

  // ----- the C++ analyser as a value -----

  datatype Analysis = Analysis(
    ok: nat, crcFail: nat, minSeq: U32, maxSeq: U32, any: bool,
    byNode: map<U16, NodeGapStats>, bySensor: map<U8, nat>,
    lastHop: nat, hopHist: seq<nat>)

  const FRESH := Analysis(0, 0, 0xFFFF_FFFF, 0, false, map[], map[], 0, [0, 0, 0, 0, 0, 0, 0, 0, 0, 0, 0, 0, 0, 0, 0,
      0])

  function Bump(m: map<U8, nat>, k: U8): (r: map<U8, nat>) {
    m[k := (if k in m then m[k] else 0) + 1]
  }

  function HistIndex(hop: U8): (r: nat)
    ensures r < 16
  {
    if hop < 16 then hop else 15
  }

  function ObserveNode(m: map<U16, NodeGapStats>, r: Reading): (m': map<U16, NodeGapStats>) {
    m[r.node := if r.node in m then NextSeq(m[r.node], r.seqno) else FirstSeen(r.seqno)]
  }

  function Observed(a: Analysis, r: Reading): (b: Analysis)
    requires |a.hopHist| == 16
    ensures |b.hopHist| == 16
  {
    Analysis(
      a.ok + 1, a.crcFail,
      if !a.any || r.seqno < a.minSeq then r.seqno else a.minSeq,
      if !a.any || r.seqno > a.maxSeq then r.seqno else a.maxSeq,
      true,
      ObserveNode(a.byNode, r),
      Bump(a.bySensor, r.sensor),
      a.lastHop + (if r.last then 1 else 0),
      a.hopHist[HistIndex(r.hop) := a.hopHist[HistIndex(r.hop)] + 1])
  }

  function ObservedAll(rs: seq<Reading>): (a: Analysis)
    ensures |a.hopHist| == 16
  {
    if rs == [] then FRESH else Observed(ObservedAll(rs[..|rs| - 1]), rs[|rs| - 1])
  }

  /** Gaps and duplicates of the node ids below k. */
  function GapsBelow(m: map<U16, NodeGapStats>, k: nat): (r: nat)
    requires k <= 0x1_0000
  {
    if k == 0 then 0 else GapsBelow(m, k - 1) + (if k - 1 in m then m[k - 1].gaps else 0)
  }

  function DupsBelow(m: map<U16, NodeGapStats>, k: nat): (r: nat)
    requires k <= 0x1_0000
  {
    if k == 0 then 0 else DupsBelow(m, k - 1) + (if k - 1 in m then m[k - 1].dups else 0)
  }

  function TotalGaps(m: map<U16, NodeGapStats>): (r: nat) { GapsBelow(m, 0x1_0000) }

  function TotalDups(m: map<U16, NodeGapStats>): (r: nat) { DupsBelow(m, 0x1_0000) }

  lemma {:induction false} SumsAfterUpdate(m: map<U16, NodeGapStats>, id: U16, v: NodeGapStats, k: nat)
    requires k <= 0x1_0000
    ensures GapsBelow(m[id := v], k)
         == GapsBelow(m, k) + (if id < k then v.gaps - (if id in m then m[id].gaps else 0) else 0)
    ensures DupsBelow(m[id := v], k)
         == DupsBelow(m, k) + (if id < k then v.dups - (if id in m then m[id].dups else 0) else 0)
    decreases k
  {
    if k > 0 {
      SumsAfterUpdate(m, id, v, k - 1);
    }
  }

  /** Taking a node out of the map takes its share out of the totals. */
  lemma {:induction false} SumsAfterRemoval(m: map<U16, NodeGapStats>, id: U16, k: nat)
    requires k <= 0x1_0000
    requires id in m
    ensures GapsBelow(m - {id}, k) == GapsBelow(m, k) - (if id < k then m[id].gaps else 0)
    ensures DupsBelow(m - {id}, k) == DupsBelow(m, k) - (if id < k then m[id].dups else 0)
    decreases k
  {
    if k > 0 {
      SumsAfterRemoval(m, id, k - 1);
    }
  }

  lemma {:induction false} SumsOfNothing(k: nat)
    requires k <= 0x1_0000
    ensures GapsBelow(map[], k) == 0 && DupsBelow(map[], k) == 0
    decreases k
  {
    if k > 0 {
      SumsOfNothing(k - 1);
    }
  }

  /** The analyser object: counters, the two maps and the hop histogram, updated in place. */
  class ZcmAnalyze {
    var ok: nat
    var crcFail: nat
    var minSeq: U32
    var maxSeq: U32
    var any: bool
    var byNode: map<U16, NodeGapStats>
    var bySensor: map<U8, nat>
    var lastHop: nat
    const hopHist: array<nat>

    ghost predicate Valid()
      reads this
    {
      hopHist.Length == 16
    }

    ghost function State(): (r: Analysis)
      requires Valid()
      reads this, hopHist
      ensures |r.hopHist| == 16
    {
      Analysis(ok, crcFail, minSeq, maxSeq, any, byNode, bySensor, lastHop, hopHist[..])
    }

    constructor ()
      ensures Valid() && fresh(hopHist)
      ensures State() == FRESH
    {
      ok, crcFail, lastHop := 0, 0, 0;
      minSeq, maxSeq, any := 0xFFFF_FFFF, 0, false;
      byNode, bySensor := map[], map[];
      hopHist := new nat[16](_ => 0);
    }

    method Observe(r: Reading)
      requires Valid()
      modifies this, hopHist
      ensures Valid() && State() == Observed(old(State()), r)
    {
      hide NextSeq, Bump, FirstSeen;
      ok := ok + 1;
      bySensor := Bump(bySensor, r.sensor);
      ObserveRange(r.seqno);
      if r.last {
        lastHop := lastHop + 1;
      }
      var hi := HistIndex(r.hop);
      hopHist[hi] := hopHist[hi] + 1;
      assert hopHist[..] == old(hopHist[..])[hi := old(hopHist[hi]) + 1];
      if r.node !in byNode {
        byNode := byNode[r.node := FirstSeen(r.seqno)];
      } else {
        var n := UpdateNode(byNode[r.node], r.seqno);
        byNode := byNode[r.node := n];
      }
    }

    method ObserveRange(s: U32)
      modifies this`minSeq, this`maxSeq, this`any
      ensures any
      ensures minSeq == if !old(any) || s < old(minSeq) then s else old(minSeq)
      ensures maxSeq == if !old(any) || s > old(maxSeq) then s else old(maxSeq)
    {
      if !any {
        minSeq, maxSeq := s, s;
        any := true;
      } else {
        if s < minSeq {
          minSeq := s;
        }
        if s > maxSeq {
          maxSeq := s;
        }
      }
    }

    static method UpdateNode(before: NodeGapStats, s: U32) returns (n: NodeGapStats)
      ensures n == NextSeq(before, s)
    {
      n := before.(frames := before.frames + 1);
      if s <= n.lastSeq {
        n := n.(dups := n.dups + 1);
      } else if s > (n.lastSeq + 1) % TWO_TO_THE_32 {
        var hole := (s - n.lastSeq - 1) % TWO_TO_THE_32;
        n := n.(gaps := n.gaps + hole, gapEvents := n.gapEvents + 1);
        if hole > n.maxHole {
          n := n.(maxHole := hole);
        }
      }
      n := n.(lastSeq := s);
    }

    /** The map is visited in whatever order; the total does not depend on it. */
    method TotalGapsOf() returns (g: nat)
      ensures g == TotalGaps(byNode)
    {
      g := 0;
      var left := byNode;
      SumsOfNothing(0x1_0000);
      while left != map[]
        invariant g + TotalGaps(left) == TotalGaps(byNode)
        decreases |left|
      {
        var id :| id in left;
        g := g + left[id].gaps;
        SumsAfterRemoval(left, id, 0x1_0000);
        left := left - {id};
      }
    }

    method TotalDupsOf() returns (d: nat)
      ensures d == TotalDups(byNode)
    {
      d := 0;
      var left := byNode;
      SumsOfNothing(0x1_0000);
      while left != map[]
        invariant d + TotalDups(left) == TotalDups(byNode)
        decreases |left|
      {
        var id :| id in left;
        d := d + left[id].dups;
        SumsAfterRemoval(left, id, 0x1_0000);
        left := left - {id};
      }
    }
  }

  // ----- a node's statistics depend only on its own frames -----

  /** The sequence numbers of one node, in order. */
  function SeqsOf(rs: seq<Reading>, id: U16): (r: seq<U32>) {
    if rs == [] then []
    else SeqsOf(rs[..|rs| - 1], id) + (if rs[|rs| - 1].node == id then [rs[|rs| - 1].seqno] else [])
  }

  lemma {:induction false} NodeStatsAre(rs: seq<Reading>, id: U16)
    ensures var m := ObservedAll(rs).byNode;
      && (id in m <==> SeqsOf(rs, id) != [])
      && (id in m ==> m[id] == NodeStats(SeqsOf(rs, id)))
    decreases |rs|
  {
    hide NextSeq, FirstSeen;
    if rs != [] {
      var front, r := rs[..|rs| - 1], rs[|rs| - 1];
      NodeStatsAre(front, id);
      var xs := SeqsOf(front, id);
      if r.node == id {
        assert SeqsOf(rs, id) == xs + [r.seqno];
        assert (xs + [r.seqno])[..|xs|] == xs;
      } else {
        assert SeqsOf(rs, id) == xs;
      }
    }
  }

  /** Two interleavings of the same per-node streams give the same per-node statistics and totals. */
  lemma InterleavingIrrelevant(a: seq<Reading>, b: seq<Reading>)
    requires forall id: U16 :: SeqsOf(a, id) == SeqsOf(b, id)
    ensures ObservedAll(a).byNode == ObservedAll(b).byNode
    ensures TotalGaps(ObservedAll(a).byNode) == TotalGaps(ObservedAll(b).byNode)
    ensures TotalDups(ObservedAll(a).byNode) == TotalDups(ObservedAll(b).byNode)
  {
    hide SeqsOf, NodeStats, ObservedAll;
    var m, n := ObservedAll(a).byNode, ObservedAll(b).byNode;
    forall id: U16
      ensures id in m <==> id in n
      ensures id in m ==> m[id] == n[id]
    {
      NodeStatsAre(a, id);
      NodeStatsAre(b, id);
    }
    assert m.Keys == n.Keys;
    assert m == n;
  }

  // ----- what the numbers mean -----

  predicate StrictlyIncreasing(xs: seq<U32>) {
    forall i :: 0 <= i < |xs| - 1 ==> xs[i] < xs[i + 1]
  }

  lemma {:induction false} IncreasingOrder(xs: seq<U32>, i: nat, j: nat)
    requires StrictlyIncreasing(xs)
    requires i <= j < |xs|
    ensures xs[i] + (j - i) <= xs[j]
    decreases j - i
  {
    if i < j {
      IncreasingOrder(xs, i + 1, j);
    }
  }

  predicate Between(a: int, s: int, b: int) {
    a < s < b
  }

  /** The numbers strictly between a and b. */
  function Range(a: int, b: int): (r: set<int>) {
    set s | a < s < b && Between(a, s, b)
  }

  /** s is a missing number: strictly between a node's first and last, never received. */
  predicate Missing(xs: seq<U32>, s: int)
    requires xs != []
  {
    xs[0] < s < xs[|xs| - 1] && s !in xs
  }

  function MissingSet(xs: seq<U32>): (r: set<int>)
    requires xs != []
  {
    set s | xs[0] < s < xs[|xs| - 1] && Missing(xs, s)
  }

  /** A step forward in 32-bit arithmetic is a step forward in the integers. */
  lemma NextForward(n: NodeGapStats, s: U32)
    requires s > n.lastSeq
    ensures var hole := s - n.lastSeq - 1; var m := NextSeq(n, s);
      && m.lastSeq == s && m.frames == n.frames + 1 && m.dups == n.dups
      && m.gaps == n.gaps + hole
      && m.maxHole == if hole > n.maxHole then hole else n.maxHole
  {}

  lemma {:induction false} ForwardStats(xs: seq<U32>)
    requires xs != [] && StrictlyIncreasing(xs)
    ensures var n := NodeStats(xs);
      && n.frames == |xs| && n.lastSeq == xs[|xs| - 1] && n.dups == 0
      && n.gaps == xs[|xs| - 1] - xs[0] + 1 - |xs|
    decreases |xs|
  {
    hide NextSeq;
    if |xs| > 1 {
      var front := xs[..|xs| - 1];
      ForwardStats(front);
      NextForward(NodeStats(front), xs[|xs| - 1]);
    }
  }

  /** For a node that only moves forward, gaps counts exactly the numbers missing between its
      first and last, and no duplicate is reported. */
  lemma GapsCountMissing(xs: seq<U32>)
    requires xs != [] && StrictlyIncreasing(xs)
    ensures NodeStats(xs).gaps == |MissingSet(xs)| && NodeStats(xs).dups == 0
  {
    hide NodeStats, NextSeq;
    ForwardStats(xs);
    MissingCount(xs);
  }

  lemma {:induction false} MissingCount(xs: seq<U32>)
    requires xs != [] && StrictlyIncreasing(xs)
    ensures |MissingSet(xs)| == xs[|xs| - 1] - xs[0] + 1 - |xs|
    decreases |xs|
  {
    if |xs| == 1 {
      assert MissingSet(xs) == {};
    } else {
      var front, last := xs[..|xs| - 1], xs[|xs| - 1];
      MissingCount(front);
      var prev := front[|front| - 1];
      var before, hole := MissingSet(front), Range(prev, last);
      forall s
        ensures s in MissingSet(xs) <==> s in before + hole
      {
        MissingSplit(xs, s);
      }
      assert MissingSet(xs) == before + hole;
      RangeSize(prev, last);
      assert before !! hole;
    }
  }

  lemma MissingSplit(xs: seq<U32>, s: int)
    requires |xs| > 1 && StrictlyIncreasing(xs)
    ensures var front := xs[..|xs| - 1]; var prev := front[|front| - 1]; var last := xs[|xs| - 1];
      (xs[0] < s < last && s !in xs) <==> ((xs[0] < s < prev && s !in front) || prev < s < last)
  {
    var front, last := xs[..|xs| - 1], xs[|xs| - 1];
    var prev := front[|front| - 1];
    IncreasingOrder(xs, 0, |xs| - 2);
    assert xs == front + [last];
    if prev < s < last && s in front {
      var i :| 0 <= i < |front| && front[i] == s;
      IncreasingOrder(xs, i, |xs| - 2);
    }
    if s == prev {
      assert prev in xs;
    }
  }

  lemma {:induction false} RangeSize(a: int, b: int)
    requires a < b
    ensures |Range(a, b)| == b - a - 1
    decreases b - a
  {
    if b == a + 1 {
      assert Range(a, b) == {};
    } else {
      RangeSize(a, b - 1);
      assert Range(a, b) == Range(a, b - 1) + {b - 1};
    }
  }

  /** [from, from + m) is a run of missing numbers inside the node's range. */
  ghost predicate MissingRun(xs: seq<U32>, from: int, m: nat)
    requires xs != []
  {
    forall s :: from <= s < from + m ==> Missing(xs, s)
  }

  ghost predicate LongestMissingRun(xs: seq<U32>, n: nat)
    requires xs != []
  {
    && (exists from :: MissingRun(xs, from, n))
    && (forall from, m: nat :: MissingRun(xs, from, m) ==> m <= n)
  }

  /** maxHole is attained by a run, and no missing run is longer. */
  lemma {:induction false} MaxHoleIsLongest(xs: seq<U32>)
    requires xs != [] && StrictlyIncreasing(xs)
    ensures LongestMissingRun(xs, NodeStats(xs).maxHole)
    decreases |xs|
  {
    hide NextSeq, MissingRun;
    if |xs| == 1 {
      NoRunInOne(xs);
    } else {
      var front := xs[..|xs| - 1];
      ForwardStats(front);
      NextForward(NodeStats(front), xs[|xs| - 1]);
      MaxHoleIsLongest(front);
      var before: nat := NodeStats(front).maxHole;
      var hole := xs[|xs| - 1] - xs[|xs| - 2] - 1;
      var n: nat := NodeStats(xs).maxHole;
      HoleAttained(xs, before, hole);
      forall from, m: nat | MissingRun(xs, from, m)
        ensures m <= n
      {
        RunOnOneSide(xs, from, m, before);
      }
    }
  }

  lemma NoRunInOne(xs: seq<U32>)
    requires |xs| == 1
    ensures LongestMissingRun(xs, 0)
  {
    assert MissingRun(xs, 0, 0);
    forall from, m: nat | MissingRun(xs, from, m)
      ensures m <= 0
    {
      assert m > 0 ==> Missing(xs, from);
    }
  }

  lemma HoleAttained(xs: seq<U32>, before: nat, hole: nat)
    requires |xs| > 1 && StrictlyIncreasing(xs)
    requires LongestMissingRun(xs[..|xs| - 1], before)
    requires hole == xs[|xs| - 1] - xs[|xs| - 2] - 1
    ensures var n := if hole > before then hole else before;
      exists from :: MissingRun(xs, from, n)
  {
    var front, last, prev := xs[..|xs| - 1], xs[|xs| - 1], xs[|xs| - 2];
    if hole > before {
      forall s | prev + 1 <= s < prev + 1 + hole
        ensures Missing(xs, s)
      {
        MissingSplit(xs, s);
      }
      assert MissingRun(xs, prev + 1, hole);
    } else {
      var from :| MissingRun(front, from, before);
      forall s | from <= s < from + before
        ensures Missing(xs, s)
      {
        assert Missing(front, s);
        MissingSplit(xs, s);
      }
      assert MissingRun(xs, from, before);
    }
  }

  lemma RunOnOneSide(xs: seq<U32>, from: int, m: nat, before: nat)
    requires |xs| > 1 && StrictlyIncreasing(xs)
    requires MissingRun(xs, from, m)
    requires LongestMissingRun(xs[..|xs| - 1], before)
    ensures m <= before || m <= xs[|xs| - 1] - xs[|xs| - 2] - 1
  {
    var front, last, prev := xs[..|xs| - 1], xs[|xs| - 1], xs[|xs| - 2];
    assert prev in xs;
    if m > 0 {
      assert Missing(xs, from);
      assert Missing(xs, from + m - 1);
      if from < prev {
        assert from + m > prev ==> Missing(xs, prev);
        forall s | from <= s < from + m
          ensures Missing(front, s)
        {
          assert Missing(xs, s);
          MissingSplit(xs, s);
        }
        assert MissingRun(front, from, m);
      }
    }
  }
}

/** Deterministic loss and the hop that injects it: what a chain of hops lets through,
    and what the analysers then report as missing. */
module HopLoss {
  import opened Bytes
  import opened WireFrame
  import opened StreamScan
  import opened Analyze
  import Crc32

  const HASH_FACTOR := 2_654_435_761

  function Hash(s: U32): (r: U32) {
    (s * HASH_FACTOR) % TWO_TO_THE_32
  }

  predicate ShouldDrop(s: U32, pct: int) {
    if pct <= 0 then false
    else if pct >= 100 then true
    else Hash(s) / 0x100_0000 % 100 < pct
  }

  /** A higher percentage drops everything a lower one drops. */
  lemma DropMonotone(s: U32, p: int, q: int)
    requires p <= q
    ensures ShouldDrop(s, p) ==> ShouldDrop(s, q)
  {}

  // ----- one hop -----

  datatype Stage = Stage(lossPct: int, finalHop: bool)

  datatype HopCounters = HopCounters(ok: nat, drop: nat, injected: nat)

  datatype HopResult = HopResult(counters: HopCounters, sent: seq<Frame>)

  /** One datagram; `accepted` is whether the outgoing socket takes the stamped frame. */
  function HopStep(c: HopCounters, h: Stage, datagram: seq<Byte>, accepted: bool): (r: HopResult) {
    if |datagram| < 24 || !VerifyFrame(datagram[..24]) then HopResult(c.(drop := c.drop + 1), [])
    else
      var f: Frame := datagram[..24];
      if ShouldDrop(SeqOf(f), h.lossPct) then HopResult(c.(injected := c.injected + 1), [])
      else if accepted then HopResult(c.(ok := c.ok + 1), [HopStamp(f, h.finalHop)])
      else HopResult(c.(drop := c.drop + 1), [])
  }

  const NO_COUNTS := HopCounters(0, 0, 0)

  /** What a hop forwards of a stream of frames when its socket takes them all. */
  function Through(fs: seq<Frame>, h: Stage): (r: seq<Frame>) {
    if fs == [] then [] else HopStep(NO_COUNTS, h, fs[0], true).sent + Through(fs[1..], h)
  }

  function ThroughAll(fs: seq<Frame>, hs: seq<Stage>): (r: seq<Frame>)
    decreases |hs|
  {
    if hs == [] then fs else ThroughAll(Through(fs, hs[0]), hs[1..])
  }

  // ----- loss does not compound -----

  function MaxLoss(hs: seq<Stage>): (r: int) {
    if hs == [] then 0
    else
      var m := MaxLoss(hs[1..]);
      if hs[0].lossPct > m then hs[0].lossPct else m
  }

  function StampAll(f: Frame, hs: seq<Stage>): (r: Frame)
    decreases |hs|
  {
    if hs == [] then f else StampAll(HopStamp(f, hs[0].finalHop), hs[1..])
  }

  /** The frames that one stage of the given loss keeps, each stamped by every hop. */
  function KeptStamped(fs: seq<Frame>, pct: int, hs: seq<Stage>): (r: seq<Frame>) {
    if fs == [] then []
    else (if ShouldDrop(SeqOf(fs[0]), pct) then [] else [StampAll(fs[0], hs)]) + KeptStamped(fs[1..], pct, hs)
  }

  /** A chain of hops drops exactly what a single stage with the largest percentage drops. */
  lemma {:induction false} ChainDropsAsMaximum(fs: seq<Frame>, hs: seq<Stage>)
    requires AllVerify(fs)
    ensures ThroughAll(fs, hs) == KeptStamped(fs, MaxLoss(hs), hs)
    decreases |hs|
  {
    hide VerifyFrame, HopStamp, ShouldDrop, SeqOf;
    if hs == [] {
      NoHops(fs);
    } else {
      ThroughVerifies(fs, hs[0]);
      ChainDropsAsMaximum(Through(fs, hs[0]), hs[1..]);
      OneMoreStage(fs, hs);
    }
  }

  lemma {:induction false} NoHops(fs: seq<Frame>)
    ensures KeptStamped(fs, 0, []) == fs
  {
    hide SeqOf;
    if fs != [] {
      NoHops(fs[1..]);
      assert fs == [fs[0]] + fs[1..];
    }
  }

  lemma {:induction false} ThroughVerifies(fs: seq<Frame>, h: Stage)
    requires AllVerify(fs)
    ensures AllVerify(Through(fs, h))
  {
    hide VerifyFrame, HopStamp, ShouldDrop, SeqOf;
    if fs != [] {
      assert fs[0] in fs;
      assert fs[0][..24] == fs[0];
      ThroughVerifies(fs[1..], h);
      StampVerifies(fs[0], h.finalHop);
    }
  }

  lemma StampVerifies(f: Frame, finalHop: bool)
    requires VerifyFrame(f)
    ensures VerifyFrame(HopStamp(f, finalHop)) && SeqOf(HopStamp(f, finalHop)) == SeqOf(f)
  {
    hide VerifyFrame, HopStamp, SeqOf;
    HopStampKeeps(f, finalHop);
  }

  /** Filtering by one hop and then by the rest is filtering by their maximum. */
  lemma {:induction false} OneMoreStage(fs: seq<Frame>, hs: seq<Stage>)
    requires AllVerify(fs) && hs != []
    ensures KeptStamped(Through(fs, hs[0]), MaxLoss(hs[1..]), hs[1..]) == KeptStamped(fs, MaxLoss(hs), hs)
    decreases |fs|
  {
    hide VerifyFrame, HopStamp, ShouldDrop, SeqOf, MaxLoss;
    if fs != [] {
      assert fs[0] in fs;
      OneMoreStage(fs[1..], hs);
      StageOnOne(fs[0], Through(fs[1..], hs[0]), hs);
    }
  }

  lemma StageOnOne(f: Frame, rest: seq<Frame>, hs: seq<Stage>)
    requires VerifyFrame(f) && hs != []
    ensures var m, more := MaxLoss(hs[1..]), hs[1..];
      KeptStamped(HopStep(NO_COUNTS, hs[0], f, true).sent + rest, m, more)
      == (if ShouldDrop(SeqOf(f), MaxLoss(hs)) then [] else [StampAll(f, hs)]) + KeptStamped(rest, m, more)
  {
    hide VerifyFrame, HopStamp, ShouldDrop, SeqOf;
    var m, more := MaxLoss(hs[1..]), hs[1..];
    assert f[..24] == f;
    DropMonotone(SeqOf(f), hs[0].lossPct, MaxLoss(hs));
    DropMonotone(SeqOf(f), m, MaxLoss(hs));
    if ShouldDrop(SeqOf(f), hs[0].lossPct) {
      assert [] + rest == rest;
    } else {
      var g := HopStamp(f, hs[0].finalHop);
      StampVerifies(f, hs[0].finalHop);
      assert ([g] + rest)[1..] == rest;
    }
  }

  /** A frame that n hops stamped still verifies; its hop index went up by n, stopping at
      255, LAST_HOP says whether the last hop was final, and all else is as it was. */
  lemma {:induction false} StampAllKeeps(f: Frame, hs: seq<Stage>)
    requires VerifyFrame(f)
    ensures var g := StampAll(f, hs);
      && VerifyFrame(g)
      && HopIndexOf(g) == (if HopIndexOf(f) + |hs| < 255 then HopIndexOf(f) + |hs| else 255)
      && (hs != [] ==> (LastHop(g) <==> hs[|hs| - 1].finalHop))
      && SeqOf(g) == SeqOf(f) && TimestampOf(g) == TimestampOf(f) && NodeOf(g) == NodeOf(f)
      && SensorOf(g) == SensorOf(f) && RawOf(g) == RawOf(f)
    decreases |hs|
  {
    hide VerifyFrame, HopStamp, SeqOf, TimestampOf, NodeOf, SensorOf, RawOf, HopIndexOf, LastHop;
    if hs != [] {
      HopStampKeeps(f, hs[0].finalHop);
      StampAllKeeps(HopStamp(f, hs[0].finalHop), hs[1..]);
    }
  }

  // ----- what is reported missing -----

  function SeqNos(fs: seq<Frame>): (r: seq<U32>)
    ensures |r| == |fs|
  {
    if fs == [] then [] else [SeqOf(fs[0])] + SeqNos(fs[1..])
  }

  /** The numbers from a up to b that a loss percentage lets through. */
  function Survivors(a: nat, b: nat, pct: int): (r: seq<U32>)
    requires b <= TWO_TO_THE_32
    decreases b - a
  {
    if a >= b then [] else (if ShouldDrop(a, pct) then [] else [a]) + Survivors(a + 1, b, pct)
  }

  /** s lies between the first and the last survivor and was dropped. */
  predicate DroppedBetween(ys: seq<U32>, s: int, pct: int)
    requires ys != []
  {
    ys[0] < s < ys[|ys| - 1] && ShouldDrop(s, pct)
  }

  predicate Survives(s: U32, a: nat, b: nat, pct: int) {
    a <= s < b && !ShouldDrop(s, pct)
  }

  lemma {:induction false} SurvivorsIncrease(a: nat, b: nat, pct: int)
    requires b <= TWO_TO_THE_32
    ensures var r := Survivors(a, b, pct);
      StrictlyIncreasing(r) && (r != [] ==> r[0] >= a)
    decreases b - a
  {
    hide ShouldDrop;
    if a < b {
      SurvivorsIncrease(a + 1, b, pct);
    }
  }

  lemma {:induction false} SurvivorsAre(a: nat, b: nat, pct: int, s: U32)
    requires b <= TWO_TO_THE_32
    ensures s in Survivors(a, b, pct) <==> Survives(s, a, b, pct)
    decreases b - a
  {
    hide ShouldDrop;
    if a < b {
      SurvivorsAre(a + 1, b, pct, s);
    }
  }

  lemma MissingIsDropped(a: nat, b: nat, pct: int, s: int)
    requires b <= TWO_TO_THE_32 && Survivors(a, b, pct) != []
    ensures var ys := Survivors(a, b, pct);
      Missing(ys, s) <==> DroppedBetween(ys, s, pct)
  {
    hide ShouldDrop, Survivors;
    var ys := Survivors(a, b, pct);
    SurvivorsIncrease(a, b, pct);
    assert ys[|ys| - 1] in ys;
    SurvivorsAre(a, b, pct, ys[|ys| - 1]);
    if ys[0] < s < ys[|ys| - 1] {
      SurvivorsAre(a, b, pct, s);
    }
  }

  /** Dropped numbers between the first and the last survivor. */
  function DroppedSet(ys: seq<U32>, pct: int): (r: set<int>)
    requires ys != []
  {
    set s | ys[0] < s < ys[|ys| - 1] && DroppedBetween(ys, s, pct)
  }

  ghost predicate DroppedRun(ys: seq<U32>, pct: int, from: int, m: nat)
    requires ys != []
  {
    forall s :: from <= s < from + m ==> DroppedBetween(ys, s, pct)
  }

  /** What an analyser reports about an in-order run of numbers that did not wrap: as many
      gaps as numbers were dropped between the first and the last survivor, no duplicates,
      and the longest hole is the longest run of dropped numbers. */
  lemma ReportedGapsAreDrops(a: nat, b: nat, pct: int)
    requires b <= TWO_TO_THE_32 && Survivors(a, b, pct) != []
    ensures var ys := Survivors(a, b, pct);
      var n := NodeStats(ys);
      && n.gaps == |DroppedSet(ys, pct)|
      && n.dups == 0
      && n.frames == |ys|
      && (exists from :: DroppedRun(ys, pct, from, n.maxHole))
      && (forall from, m: nat :: DroppedRun(ys, pct, from, m) ==> m <= n.maxHole)
  {
    hide Survivors, NodeStats, StrictlyIncreasing, MissingRun, DroppedRun, DroppedBetween;
    var ys := Survivors(a, b, pct);
    SurvivorsIncrease(a, b, pct);
    ForwardStats(ys);
    GapsCountMissing(ys);
    MaxHoleIsLongest(ys);
    DroppedIsMissing(a, b, pct);
    var hole: nat := NodeStats(ys).maxHole;
    var from :| MissingRun(ys, from, hole);
    RunsAgree(a, b, pct, from, hole);
    forall from, m: nat | DroppedRun(ys, pct, from, m)
      ensures m <= hole
    {
      RunsAgree(a, b, pct, from, m);
    }
  }

  lemma DroppedIsMissing(a: nat, b: nat, pct: int)
    requires b <= TWO_TO_THE_32 && Survivors(a, b, pct) != []
    ensures DroppedSet(Survivors(a, b, pct), pct) == MissingSet(Survivors(a, b, pct))
  {
    hide Survivors, DroppedBetween;
    var ys := Survivors(a, b, pct);
    forall s
      ensures s in MissingSet(ys) <==> s in DroppedSet(ys, pct)
    {
      MissingIsDropped(a, b, pct, s);
    }
  }

  lemma RunsAgree(a: nat, b: nat, pct: int, from: int, m: nat)
    requires b <= TWO_TO_THE_32 && Survivors(a, b, pct) != []
    ensures var ys := Survivors(a, b, pct);
      MissingRun(ys, from, m) <==> DroppedRun(ys, pct, from, m)
  {
    hide Survivors, DroppedBetween, Missing;
    var ys := Survivors(a, b, pct);
    forall s
      ensures Missing(ys, s) <==> DroppedBetween(ys, s, pct)
    {
      MissingIsDropped(a, b, pct, s);
    }
  }

  // ----- from frames to reports -----

  /** A run of frames numbered a, a+1, ..., b-1. */
  ghost predicate Numbered(fs: seq<Frame>, a: nat) {
    forall i :: 0 <= i < |fs| ==> SeqOf(fs[i]) == a + i
  }

  /** Of a run of consecutive frames, the numbers that come out of a chain of hops are those
      that one stage of the largest loss keeps. */
  lemma ChainSurvivors(fs: seq<Frame>, a: nat, hs: seq<Stage>)
    requires AllVerify(fs) && Numbered(fs, a) && a + |fs| <= TWO_TO_THE_32
    ensures SeqNos(ThroughAll(fs, hs)) == Survivors(a, a + |fs|, MaxLoss(hs))
  {
    hide VerifyFrame, SeqOf, ShouldDrop;
    ChainDropsAsMaximum(fs, hs);
    KeptNumbers(fs, a, MaxLoss(hs), hs);
  }

  lemma {:induction false} KeptNumbers(fs: seq<Frame>, a: nat, pct: int, hs: seq<Stage>)
    requires AllVerify(fs) && Numbered(fs, a) && a + |fs| <= TWO_TO_THE_32
    ensures SeqNos(KeptStamped(fs, pct, hs)) == Survivors(a, a + |fs|, pct)
    decreases |fs|
  {
    hide VerifyFrame, SeqOf, ShouldDrop, StampAll;
    if fs != [] {
      var more := fs[1..];
      forall i | 0 <= i < |more|
        ensures SeqOf(more[i]) == a + 1 + i
      {
        assert more[i] == fs[i + 1];
      }
      KeptNumbers(more, a + 1, pct, hs);
      assert fs[0] in fs && SeqOf(fs[0]) == a;
      StampAllKeeps(fs[0], hs);
      var rest := KeptStamped(more, pct, hs);
      if ShouldDrop(a, pct) {
        assert [] + rest == rest;
      } else {
        SeqNosFirst(StampAll(fs[0], hs), rest);
      }
    }
  }

  lemma SeqNosFirst(g: Frame, rest: seq<Frame>)
    ensures SeqNos([g] + rest) == [SeqOf(g)] + SeqNos(rest)
  {}

  /** The whole way: frames of one node numbered without a break go through a chain of hops
      and what is left is analysed. The node's statistics are those of the numbers the largest
      loss percentage keeps. */
  lemma AnalyserSeesMaximumLoss(fs: seq<Frame>, a: nat, hs: seq<Stage>, node: U16)
    requires AllVerify(fs) && Numbered(fs, a) && a + |fs| <= TWO_TO_THE_32
    requires forall f :: f in fs ==> NodeOf(f) == node
    requires Survivors(a, a + |fs|, MaxLoss(hs)) != []
    ensures var m := ObservedAll(ReadingsOf(ThroughAll(fs, hs))).byNode;
      node in m && m[node] == NodeStats(Survivors(a, a + |fs|, MaxLoss(hs)))
  {
    hide VerifyFrame, SeqOf, NodeOf, ShouldDrop, ThroughAll, Survivors, ObservedAll, NodeStats, SeqNos;
    var kept := ThroughAll(fs, hs);
    ChainSurvivors(fs, a, hs);
    ChainDropsAsMaximum(fs, hs);
    NodesKept(fs, MaxLoss(hs), hs, node);
    SeqsOfNode(kept, node);
    NodeStatsAre(ReadingsOf(kept), node);
  }

  lemma {:induction false} NodesKept(fs: seq<Frame>, pct: int, hs: seq<Stage>, node: U16)
    requires AllVerify(fs)
    requires forall f :: f in fs ==> NodeOf(f) == node
    ensures forall f :: f in KeptStamped(fs, pct, hs) ==> NodeOf(f) == node
  {
    hide VerifyFrame, SeqOf, NodeOf, ShouldDrop, StampAll;
    if fs != [] {
      assert fs[0] in fs;
      NodesKept(fs[1..], pct, hs, node);
      StampAllKeeps(fs[0], hs);
    }
  }

  lemma {:induction false} SeqsOfNode(fs: seq<Frame>, node: U16)
    requires forall f :: f in fs ==> NodeOf(f) == node
    ensures SeqsOf(ReadingsOf(fs), node) == SeqNos(fs)
    decreases |fs|
  {
    hide SeqOf, NodeOf, SensorOf, HopIndexOf, LastHop;
    if fs != [] {
      var front, last := fs[..|fs| - 1], fs[|fs| - 1];
      assert last in fs;
      SeqsOfNode(front, node);
      assert ReadingsOf(fs)[..|fs| - 1] == ReadingsOf(front);
      SeqNosLast(front, last);
      assert front + [last] == fs;
    }
  }

  lemma {:induction false} SeqNosLast(front: seq<Frame>, last: Frame)
    ensures SeqNos(front + [last]) == SeqNos(front) + [SeqOf(last)]
  {
    hide SeqOf;
    if front == [] {
      assert [] + [last] == [last];
    } else {
      assert (front + [last])[1..] == front[1..] + [last];
      SeqNosLast(front[1..], last);
    }
  }

  // ----- the hop in place -----

  class HopNode {
    var ok: nat
    var drop: nat
    var injected: nat
    const stage: Stage
    const crc: Crc32.CrcTable

    ghost predicate Valid()
      reads this, crc, crc.table
    {
      crc.Valid()
    }

    ghost function Counters(): (r: HopCounters)
      reads this
    {
      HopCounters(ok, drop, injected)
    }

    constructor (stage: Stage)
      ensures Valid() && Counters() == NO_COUNTS && this.stage == stage
    {
      ok, drop, injected := 0, 0, 0;
      this.stage := stage;
      crc := new Crc32.CrcTable();
    }

    /** One pass of the receive loop: check, maybe drop, stamp in place, send on. Every
        datagram is counted exactly once. */
    method Receive(datagram: seq<Byte>, accepted: bool) returns (sent: seq<Frame>)
      requires Valid()
      modifies this, crc`ready, crc.table
      ensures Valid()
      ensures HopResult(Counters(), sent) == HopStep(old(Counters()), stage, datagram, accepted)
      ensures ok + drop + injected == old(ok + drop + injected) + 1
      ensures var valid := |datagram| >= 24 && VerifyFrame(datagram[..24]);
        var lost := valid && ShouldDrop(SeqOf(datagram[..24]), stage.lossPct);
        && injected == old(injected) + (if lost then 1 else 0)
        && ok == old(ok) + |sent|
        && sent == (if valid && !lost && accepted then [HopStamp(datagram[..24], stage.finalHop)] else [])
    {
      hide VerifyFrame, ShouldDrop, HopStamp, SeqOf, Crc32.CrcTable.Valid;
      if |datagram| < 24 {
        drop := drop + 1;
        return [];
      }
      var frame := new Byte[24](i requires 0 <= i < 24 => datagram[i]);
      assert frame[..] == datagram[..24];
      var good := Verify(frame[..], crc);
      if !good {
        drop := drop + 1;
        return [];
      }
      if ShouldDrop(SeqOf(frame[..]), stage.lossPct) {
        injected := injected + 1;
        return [];
      }
      ApplyHopStamp(frame, stage.finalHop, crc);
      if accepted {
        ok := ok + 1;
        return [frame[..]];
      }
      drop := drop + 1;
      return [];
    }
  }
}

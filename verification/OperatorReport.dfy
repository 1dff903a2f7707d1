/** From the numbers an edge used to the counters its operator shows. */
module OperatorReport {
  import opened Bytes
  import opened WireFrame
  import opened StreamScan
  import opened Analyze
  import opened HopLoss
  import opened Uplink
  import opened EdgeLoop
  import opened EdgeToOperator
  import TelemetryPipeline
  import TcpStream
  import Decoders

  // ----- the totals of one node -----

  lemma {:induction false} OnlyNode(rs: seq<Reading>, node: U16)
    requires forall i :: 0 <= i < |rs| ==> rs[i].node == node
    ensures ObservedAll(rs).byNode.Keys == if rs == [] then {} else {node}
    decreases |rs|
  {
    hide NextSeq, FirstSeen, Bump;
    if rs != [] {
      OnlyNode(rs[..|rs| - 1], node);
    }
  }

  lemma TotalsOfOne(m: map<U16, NodeGapStats>, node: U16)
    requires m.Keys == {node}
    ensures TotalGaps(m) == m[node].gaps && TotalDups(m) == m[node].dups && |m| == 1
  {
    hide GapsBelow, DupsBelow;
    SumsOfNothing(0x1_0000);
    SumsAfterUpdate(map[], node, m[node], 0x1_0000);
    assert m == map[][node := m[node]];
    assert |m| == |m.Keys|;
  }

  /** What the totals are for frames of one node that carry the survivors of a loss percentage. */
  ghost predicate ReportsDrops(a: Analysis, survivors: seq<U32>, pct: int) {
    && a.ok == |survivors|
    && TotalDups(a.byNode) == 0
    && (survivors == [] ==> TotalGaps(a.byNode) == 0 && |a.byNode| == 0)
    && (survivors != [] ==> TotalGaps(a.byNode) == |DroppedSet(survivors, pct)| && |a.byNode| == 1)
  }

  lemma SurvivorsReport(fs: seq<Frame>, node: U16, from: nat, n: nat, pct: int)
    requires FromNode(fs, node) && n <= TWO_TO_THE_32
    requires SeqNos(fs) == Survivors(from, n, pct)
    ensures ReportsDrops(ObservedAll(ReadingsOf(fs)), Survivors(from, n, pct), pct)
  {
    hide ObservedAll, NodeStats, Survivors, DroppedSet, SeqNos, SeqOf, NodeOf, SensorOf, HopIndexOf, LastHop, SeqsOf,
        GapsBelow, DupsBelow;
    var rs := ReadingsOf(fs);
    var m := ObservedAll(rs).byNode;
    ReadFrom(fs, node);
    OnlyNode(rs, node);
    Counted(rs);
    if fs == [] {
      SumsOfNothing(0x1_0000);
      assert m == map[];
    } else {
      TotalsOfOne(m, node);
      SeqsOfNode(fs, node);
      NodeStatsAre(rs, node);
      ReportedGapsAreDrops(from, n, pct);
    }
  }

  lemma ReadFrom(fs: seq<Frame>, node: U16)
    requires FromNode(fs, node)
    ensures forall i :: 0 <= i < |fs| ==> ReadingsOf(fs)[i].node == node
  {
    hide SeqOf, NodeOf, SensorOf, HopIndexOf, LastHop;
  }

  lemma {:induction false} Counted(rs: seq<Reading>)
    ensures ObservedAll(rs).ok == |rs|
  {
    hide NextSeq, ObserveNode, Bump;
    if rs != [] {
      Counted(rs[..|rs| - 1]);
    }
  }

  // ----- the operator of a TCP-only edge -----

  /** A TCP-only edge that never had to reconnect and has drained its batch, before its counter
      wraps: whatever chunks its bytes arrive in, the operator's pipeline counts as gaps exactly
      the numbers the edge dropped on purpose between the first and the last it sent, no
      duplicate, no failed check, one node, and every frame that was sent. */
  lemma OperatorReportsDrops(
    c: Config, capacity: nat, now: nat, accepted: bool, a: Answers, ins: seq<Input>, chunks: seq<seq<Byte>>)
    requires capacity >= 1 && c.transport.TcpOnly?
    requires var s := LoopRun(c, capacity, now, accepted, a, ins);
      s.consumed <= TWO_TO_THE_32 && |s.edge.tcp.logs| == 1 && s.edge.batch.frames == []
      && Concat(chunks) == s.edge.tcp.logs[0]
    ensures var s := LoopRun(c, capacity, now, accepted, a, ins);
      var p := Decoders.PipelineAfter(TelemetryPipeline.FreshPipeline(), [], chunks);
      var sent := Survivors(0, s.consumed, c.dropPct);
      && p.framesOk == |sent| && p.framesCrcFail == 0 && p.seqDups == 0
      && p.seqGaps == (if sent == [] then 0 else |DroppedSet(sent, c.dropPct)|)
      && p.uniqueNodes == (if sent == [] then 0 else 1)
  {
    hide LoopRun, Trail, Run, ScanStream, Survivors, SeqNos, DroppedSet, ObservedAll, Concat, GapsBelow, DupsBelow,
        Decoders.PipelineAfter, TelemetryPipeline.FreshPipeline, TelemetryPipeline.SameMemory,
        TelemetryPipeline.SameHops, TelemetryPipeline.SameSensors;
    var s := LoopRun(c, capacity, now, accepted, a, ins);
    LoopIsRun(c, capacity, now, accepted, a, ins);
    TcpStream.OneConnectionDeliversAll(capacity, a, Trail(c, capacity, now, accepted, a, ins));
    PushedAreSurvivors(c, capacity, now, accepted, a, ins);
    PushedFromNode(c, capacity, now, accepted, a, ins);
    SurvivorsReport(s.edge.pushed, c.node, 0, s.consumed, c.dropPct);
    Decoders.LiveAgreesWithOffline(chunks);
  }
}

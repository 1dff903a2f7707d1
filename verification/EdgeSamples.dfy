/** What the edge's frames carry: the input of their own pass, one for one. */
module EdgeSamples {
  import opened Bytes
  import opened WireFrame
  import opened StreamScan
  import opened FrameBatch
  import opened Uplink
  import opened EdgeLoop
  import opened EdgeToOperator
  import opened FlushProgress
  import opened HopLoss
  import WireRecord
  import TcpStream
  import TelemetryPipeline
  import Decoders

  /** What a pass reads: a value, its sensor and the time it is stamped with. */
  datatype Taken = Taken(raw: I32, sensor: U8, stampNs: U64)

  /** Whether a pass gets as far as reading its input: the run has not expired, nothing was left of a
      flush at its head, and there is a value. */
  ghost predicate Reads(c: Config, s: Loop, a: Answers, i: Input)
    requires s.edge.Valid()
  {
    && !i.expired && i.source.Value?
    && (c.transport.TcpOnly? && (s.edge.batch.offset > 0 || |s.edge.batch.frames| >= s.edge.batch.flushAt) ==>
          TcpFinishes(s.edge, a, i.head.now, i.head.accepted, 128))
  }

  /** The k-th entry is the input of the pass that used the k-th number. */
  ghost function TakenBy(c: Config, capacity: nat, now: nat, accepted: bool, a: Answers, ins: seq<Input>)
      : (r: seq<Taken>)
    decreases |ins|
  {
    if ins == [] then []
    else
      var before, i := ins[..|ins| - 1], ins[|ins| - 1];
      TakenBy(c, capacity, now, accepted, a, before)
      + (if Reads(c, LoopRun(c, capacity, now, accepted, a, before), a, i)
         then [Taken(i.source.raw, i.source.sensor, i.stampNs)] else [])
  }

  /** The numbers below n that a drop percentage keeps; the edge counts modulo 2^32. */
  function Kept(n: nat, pct: int): (r: seq<nat>) {
    if n == 0 then []
    else Kept(n - 1, pct) + (if ShouldDrop((n - 1) % 0x1_0000_0000, pct) then [] else [n - 1])
  }

  /** f is the n-th frame of an edge and carries what was taken in. */
  ghost predicate Carries(c: Config, f: Frame, n: nat, u: Taken) {
    && VerifyFrame(f)
    && SeqOf(f) == n % 0x1_0000_0000
    && RawOf(f) == u.raw && SensorOf(f) == u.sensor && TimestampOf(f) == u.stampNs % 0x1_0000_0000
    && NodeOf(f) == c.node && HopIndexOf(f) == 0
    && (LastHop(f) <==> c.transport.TcpOnly? || c.transport.UdpOnly?)
  }

  lemma SampleCarries(c: Config, s: Loop, v: Source, stampNs: U64)
    requires v.Value? && s.seqno == s.consumed % TWO_TO_THE_32
    ensures Carries(c, PackFrame(Sample(c, s, v, stampNs)), s.consumed, Taken(v.raw, v.sensor, stampNs))
  {
    hide PackFrame, VerifyFrame, SeqOf, RawOf, SensorOf, TimestampOf, NodeOf, HopIndexOf, FlagsOf, LastHop;
    PackRoundTrip(Sample(c, s, v, stampNs));
    WireRecord.FlagsMean(PackFrame(Sample(c, s, v, stampNs)));
  }

  // ----- one pass -----

  /** A pass uses a number exactly when it reads its input; the number is dropped on purpose or
      carried, with that input, by one more frame. */
  ghost predicate OneInput(c: Config, s: Loop, a: Answers, i: Input, r: Loop)
    requires s.edge.Valid()
  {
    if !Reads(c, s, a, i) then r.consumed == s.consumed && r.edge.pushed == s.edge.pushed
    else
      && r.consumed == s.consumed + 1
      && if ShouldDrop(s.consumed % 0x1_0000_0000, c.dropPct) then r.edge.pushed == s.edge.pushed
         else exists f: Frame :: r.edge.pushed == s.edge.pushed + [f]
                && Carries(c, f, s.consumed, Taken(i.source.raw, i.source.sensor, i.stampNs))
  }

  /** When the pass goes on after its head. */
  lemma HeadRuns(c: Config, s: Loop, a: Answers, i: Input)
    requires s.edge.Valid() && Balanced(c, s)
    ensures Reads(c, s, a, i) <==> !i.expired && i.source.Value? && HeadFlush(c, s, a, i.head).running
  {
    hide FlushedBatch, TcpFinishes;
    FlushKeeps(c.transport, s.edge, a, i.head);
    if c.transport.TcpOnly? {
      TcpFlushSucceedsExactly(s.edge, a, i.head.now, i.head.accepted, i.head.flushNs);
    }
  }

  lemma EmitCarries(c: Config, s: Loop, a: Answers, v: Source, stampNs: U64, tail: FlushInput)
    requires s.edge.Valid() && Balanced(c, s) && v.Value? && !Full(s.edge.batch)
    ensures var r := Emitted(c, s, a, v, stampNs, tail);
      && r.consumed == s.consumed + 1
      && if ShouldDrop(s.seqno, c.dropPct) then r.edge.pushed == s.edge.pushed
         else r.edge.pushed == s.edge.pushed + [PackFrame(Sample(c, s, v, stampNs))]
  {
    hide TailFlush, ShouldDrop, Pushing, JustPushed, PackFrame, Sample;
    if !ShouldDrop(s.seqno, c.dropPct) {
      PushBalances(c, s, v, stampNs);
      TailRestoresBalance(c, Pushing(c, s, v, stampNs), a, tail);
    }
  }

  lemma PassTakes(c: Config, s: Loop, a: Answers, i: Input)
    requires s.edge.Valid() && Balanced(c, s)
    ensures OneInput(c, s, a, i, Iterated(c, s, a, i).loop)
  {
    hide HeadFlush, Emitted, Reads, ShouldDrop, Carries, PackFrame, Sample;
    HeadRuns(c, s, a, i);
    if !i.expired {
      HeadPushesNothing(c, s, a, i.head);
      PushNeverFails(c, s, a, i.head);
      HeadKeepsBalance(c, s, a, i.head);
      var h := HeadFlush(c, s, a, i.head).loop;
      if HeadFlush(c, s, a, i.head).running && i.source.Value? {
        EmitCarries(c, h, a, i.source, i.stampNs, i.tail);
        SampleCarries(c, h, i.source, i.stampNs);
      }
    } else {
      NotExpired(c, s, a, i);
    }
  }

  lemma NotExpired(c: Config, s: Loop, a: Answers, i: Input)
    requires s.edge.Valid() && i.expired
    ensures !Reads(c, s, a, i)
  {}

  // ----- whole runs -----

  /** The i-th frame pushed carries the i-th number kept and what was taken in with it. */
  ghost predicate CarryAll(c: Config, fs: seq<Frame>, n: nat, us: seq<Taken>) {
    && |us| == n
    && |fs| == |Kept(n, c.dropPct)|
    && forall i :: 0 <= i < |fs| ==>
         Kept(n, c.dropPct)[i] < n && Carries(c, fs[i], Kept(n, c.dropPct)[i], us[Kept(n, c.dropPct)[i]])
  }

  lemma NothingCarried(c: Config)
    ensures CarryAll(c, [], 0, [])
  {}

  lemma OneMoreTaken(c: Config, fs: seq<Frame>, n: nat, us: seq<Taken>, u: Taken, more: seq<Frame>)
    requires CarryAll(c, fs, n, us)
    requires if ShouldDrop(n % 0x1_0000_0000, c.dropPct) then more == [] else |more| == 1 && Carries(c, more[0], n, u)
    ensures CarryAll(c, fs + more, n + 1, us + [u])
  {
    hide ShouldDrop, Carries;
    var k, k' := Kept(n, c.dropPct), Kept(n + 1, c.dropPct);
    forall i | 0 <= i < |fs + more|
      ensures k'[i] < n + 1 && Carries(c, (fs + more)[i], k'[i], (us + [u])[k'[i]])
    {
      if i < |fs| {
        assert k'[i] == k[i];
      }
    }
  }

  /** In every run of every transport, counter wraps included: the frames pushed are, in order, those of
      the numbers the drop percentage keeps, and each carries the value, the sensor and the time
      modulo 2^32 of the pass that used its number, the edge's node, and LAST_HOP if and only if
      the edge talks to its operator directly. */
  lemma {:induction false} PushedCarryInputs(
    c: Config, capacity: nat, now: nat, accepted: bool, a: Answers, ins: seq<Input>)
    requires capacity >= 1
    ensures var s := LoopRun(c, capacity, now, accepted, a, ins);
      CarryAll(c, s.edge.pushed, s.consumed, TakenBy(c, capacity, now, accepted, a, ins))
    decreases |ins|
  {
    hide Iterated, ShouldDrop, Carries, TcpFinishes, Balanced, CarryAll;
    if ins == [] {
      NothingCarried(c);
    } else {
      var before, i := ins[..|ins| - 1], ins[|ins| - 1];
      var s := LoopRun(c, capacity, now, accepted, a, before);
      var r := Iterated(c, s, a, i).loop;
      EveryNumberAccounted(c, capacity, now, accepted, a, before);
      PassTakes(c, s, a, i);
      PushedCarryInputs(c, capacity, now, accepted, a, before);
      var us := TakenBy(c, capacity, now, accepted, a, before);
      if Reads(c, s, a, i) {
        var more := r.edge.pushed[|s.edge.pushed|..];
        assert r.edge.pushed == s.edge.pushed + more;
        OneMoreTaken(c, s.edge.pushed, s.consumed, us, Taken(i.source.raw, i.source.sensor, i.stampNs), more);
      } else {
        assert us + [] == us;
      }
    }
  }

  // ----- the far end -----

  /** A TCP-only edge that never had to reconnect and has drained its batch: the operator decodes,
      in order, the values, sensors and times taken in with the numbers that were not dropped. */
  lemma OperatorReadsInputs(
    c: Config, capacity: nat, now: nat, accepted: bool, a: Answers, ins: seq<Input>, chunks: seq<seq<Byte>>)
    requires capacity >= 1 && c.transport.TcpOnly?
    requires var s := LoopRun(c, capacity, now, accepted, a, ins);
      |s.edge.tcp.logs| == 1 && s.edge.batch.frames == [] && Concat(chunks) == s.edge.tcp.logs[0]
    ensures var n := LoopRun(c, capacity, now, accepted, a, ins).consumed;
      var us, kept := TakenBy(c, capacity, now, accepted, a, ins), Kept(n, c.dropPct);
      var fed := Decoders.PipelineAfter(TelemetryPipeline.FreshPipeline(), [], chunks).ringFeed;
      && |us| == n && |fed| == |kept|
      && forall i :: 0 <= i < |kept| ==> kept[i] < n && Shows(fed[i], kept[i], us[kept[i]])
  {
    hide LoopRun, Trail, Run, ScanStream, Kept, Concat, TakenBy, Carries, Shows, Decoders.PipelineAfter,
        TelemetryPipeline.FreshPipeline, TelemetryPipeline.Agree, WireRecord.Decoded;
    var s := LoopRun(c, capacity, now, accepted, a, ins);
    LoopIsRun(c, capacity, now, accepted, a, ins);
    TcpStream.OneConnectionDeliversAll(capacity, a, Trail(c, capacity, now, accepted, a, ins));
    PushedCarryInputs(c, capacity, now, accepted, a, ins);
    Decoders.LiveAgreesWithOffline(chunks);
    var us, kept := TakenBy(c, capacity, now, accepted, a, ins), Kept(s.consumed, c.dropPct);
    forall i | 0 <= i < |kept|
      ensures kept[i] < s.consumed && Shows(WireRecord.Decoded(s.edge.pushed)[i], kept[i], us[kept[i]])
    {
      WireRecord.DecodedAt(s.edge.pushed, i);
      CarriedShows(c, s.edge.pushed[i], kept[i], us[kept[i]]);
    }
  }

  /** The record of a direct edge's n-th frame. */
  ghost predicate Shows(r: WireRecord.Record, n: nat, u: Taken) {
    && r.crcOk && r.seqno == n % 0x1_0000_0000
    && r.rawValue == u.raw && r.sensorType == u.sensor && r.timestampLo == u.stampNs % 0x1_0000_0000
    && r.flags / 2 % 2 == 1
  }

  lemma CarriedShows(c: Config, f: Frame, n: nat, u: Taken)
    requires c.transport.TcpOnly? && Carries(c, f, n, u)
    ensures Shows(WireRecord.Decode(f), n, u)
  {
    WireRecord.SameReading(f);
    WireRecord.SameFields(f);
  }
}

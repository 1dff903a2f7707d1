/** The edge's frame batch and its send cursor over a TCP connection that may
    accept any part of what it is offered. */
module FrameBatch {
  import opened Basics
  import opened Bytes
  import opened WireFrame
  import opened StreamScan

  // ----- the connection -----

  /** The k-th answer of the socket to a send: negative is a hard error, zero would block,
      otherwise that many bytes are accepted (at most what was offered). */
  type SendOracle = nat -> int

  /** logs holds, per connection ever made, the bytes that connection accepted. */
  datatype Tcp = Tcp(connected: bool, logs: seq<seq<Byte>>, sends: nat) {
    ghost predicate Valid() {
      connected ==> logs != []
    }
  }

  /** Bytes accepted by the current connection. */
  function Accept(t: Tcp, data: seq<Byte>): (r: Tcp)
    requires t.logs != []
    ensures |r.logs| == |t.logs| && r.connected == t.connected
  {
    t.(logs := t.logs[|t.logs| - 1 := t.logs[|t.logs| - 1] + data])
  }

  function Send(t: Tcp, o: SendOracle, data: seq<Byte>): (r: (Tcp, int))
    requires t.Valid()
    ensures r.0.Valid() && -1 <= r.1 <= |data|
  {
    if !t.connected || data == [] then (t, -1)
    else if o(t.sends) < 0 then (t.(connected := false, sends := t.sends + 1), -1)
    else
      var n: int := Min(o(t.sends), |data|);
      (Accept(t, data[..n]).(sends := t.sends + 1), n)
  }

  function Closed(t: Tcp): (r: Tcp) {
    t.(connected := false)
  }

  /** What a connect attempt leaves: the old socket is given up first, an accepted
      connection starts an empty log. */
  function Connected(t: Tcp, accepted: bool): (r: Tcp)
    ensures r.Valid()
  {
    if accepted then t.(connected := true, logs := t.logs + [[]]) else t.(connected := false)
  }

  // ----- the batch -----

  const NO_FRAME: Frame := [0, 0, 0, 0, 0, 0, 0, 0, 0, 0, 0, 0, 0, 0, 0, 0, 0, 0, 0, 0, 0, 0, 0, 0]

  /** The frames waiting, how many of their bytes TCP has taken, and the flush target. */
  datatype Batch = Batch(frames: seq<Frame>, offset: nat, capacity: nat, flushAt: nat) {
    function Bytes(): seq<Byte> { Concat(frames) }

    ghost predicate Valid() {
      && |frames| <= capacity
      && offset <= 24 * |frames|
    }
  }

  function Cleared(b: Batch): (r: Batch) {
    b.(frames := [], offset := 0)
  }

  function Pushed(b: Batch, f: Frame): (r: Batch) {
    if |b.frames| >= b.capacity then b else b.(frames := b.frames + [f])
  }

  function UnsentIndex(b: Batch): (r: nat) { b.offset / 24 }

  function UnsentCount(b: Batch): (r: nat) {
    if UnsentIndex(b) >= |b.frames| then 0 else |b.frames| - UnsentIndex(b)
  }

  function Unsent(b: Batch): (r: seq<Frame>)
    requires b.Valid()
    ensures |r| == UnsentCount(b)
  {
    b.frames[UnsentIndex(b)..]
  }

  function NotedSent(b: Batch, n: nat): (r: Batch) {
    if b.offset >= 24 * |b.frames| then b else b.(offset := Min(24 * |b.frames|, b.offset + n))
  }

  /** Drops the frames sent whole. With no whole frame sent the batch is left as it is,
      a partial offset included. */
  function Discarded(b: Batch): (r: Batch)
    requires b.Valid()
  {
    var fully := b.offset / 24;
    if fully == 0 then b
    else if fully >= |b.frames| then Cleared(b)
    else b.(frames := b.frames[fully..], offset := 0)
  }

  /** Discarding never changes which frames count as unsent. */
  lemma DiscardKeepsUnsent(b: Batch)
    requires b.Valid()
    ensures Discarded(b).Valid() && Unsent(Discarded(b)) == Unsent(b)
    ensures Discarded(b).offset == if b.offset < 24 then b.offset else 0
  {}

  function Adapted(b: Batch, fullySent: bool, flushNs: nat): (r: Batch) {
    if !fullySent || flushNs > 2_000_000 then b.(flushAt := Max(1, b.flushAt / 2))
    else if flushNs < 200_000 && b.flushAt < b.capacity then b.(flushAt := Min(b.capacity, b.flushAt + 1))
    else b
  }

  /** The flush target never leaves 1..capacity, whatever the flush history. */
  lemma AdaptInRange(b: Batch, fullySent: bool, flushNs: nat)
    requires 1 <= b.flushAt <= b.capacity
    ensures var r := Adapted(b, fullySent, flushNs);
      && 1 <= r.flushAt <= r.capacity && r.capacity == b.capacity
      && r.frames == b.frames && r.offset == b.offset
      && (r.flushAt < b.flushAt ==> !fullySent || flushNs > 2_000_000)
      && (r.flushAt > b.flushAt ==> r.flushAt == b.flushAt + 1)
  {}

  // ----- flushing -----

  datatype Flush = Flush(batch: Batch, tcp: Tcp, ok: bool)

  function SendLoop(b: Batch, t: Tcp, o: SendOracle): (r: Flush)
    requires b.Valid() && t.Valid()
    decreases 24 * |b.frames| - b.offset
  {
    ConcatLength(b.frames);
    if b.offset >= 24 * |b.frames| then Flush(Cleared(b), t, true)
    else
      var (t', n) := Send(t, o, b.Bytes()[b.offset..]);
      if n <= 0 then Flush(b, t', false) else SendLoop(b.(offset := b.offset + n), t', o)
  }

  function Flushed(b: Batch, t: Tcp, o: SendOracle): (r: Flush)
    requires b.Valid() && t.Valid()
  {
    if b.frames == [] || !t.connected then Flush(b, t, false) else SendLoop(b, t, o)
  }

  function FlushedWithin(b: Batch, t: Tcp, o: SendOracle, attempts: nat): (r: Flush)
    requires b.Valid() && t.Valid()
    decreases attempts
  {
    if attempts == 0 then Flush(b, t, b.frames == [])
    else
      var r := Flushed(b, t, o);
      FlushedMoves(b, t, o);
      if r.ok then r
      else if !r.tcp.connected then r
      else if r.batch.frames == [] then r.(ok := true)
      else FlushedWithin(r.batch, r.tcp, o, attempts - 1)
  }

  /** What any amount of sending does: the current connection takes the next stretch of the
      batch's bytes, either all that is left (and the batch is cleared) or less. */
  ghost predicate Moves(b: Batch, t: Tcp, r: Flush)
    requires b.Valid() && t.Valid()
  {
    && r.batch.Valid() && r.tcp.Valid()
    && r.batch.capacity == b.capacity && r.batch.flushAt == b.flushAt
    && |r.tcp.logs| == |t.logs|
    && (r.tcp.connected ==> t.connected)
    && (if r.ok
        then r.batch == Cleared(b) && Took(b, t, r.tcp, 24 * |b.frames|)
        else r.batch.frames == b.frames && b.offset <= r.batch.offset && Took(b, t, r.tcp, r.batch.offset)
             && (b.frames != [] ==> (t.connected ==> r.batch.offset < 24 * |b.frames|)))
  }

  /** The last connection's log grew by the batch bytes from the old offset up to `to`; no other log changed. */
  ghost predicate Took(b: Batch, t: Tcp, t': Tcp, to: nat)
    requires b.Valid()
  {
    && b.offset <= to <= 24 * |b.frames| == |b.Bytes()|
    && |t'.logs| == |t.logs|
    && (t.logs == [] ==> to == b.offset)
    && (t.logs != [] ==>
        t'.logs == t.logs[|t.logs| - 1 := t.logs[|t.logs| - 1] + b.Bytes()[b.offset..to]])
  }

  lemma TookNothing(b: Batch, t: Tcp, t': Tcp)
    requires b.Valid()
    requires t'.logs == t.logs
    ensures Took(b, t, t', b.offset)
  {
    ConcatLength(b.frames);
    assert b.Bytes()[b.offset..b.offset] == [];
    if t.logs != [] {
      var k := |t.logs| - 1;
      assert t.logs[k] + [] == t.logs[k];
    }
  }

  lemma TookMore(b: Batch, t: Tcp, t1: Tcp, mid: nat, t2: Tcp, to: nat)
    requires b.Valid() && mid <= 24 * |b.frames|
    requires Took(b, t, t1, mid)
    requires Took(b.(offset := mid), t1, t2, to)
    ensures Took(b, t, t2, to)
  {
    ConcatLength(b.frames);
    var x := b.Bytes();
    if t.logs != [] {
      var k := |t.logs| - 1;
      AppendAssoc(t.logs[k], x[b.offset..mid], x[mid..to]);
      assert x[b.offset..mid] + x[mid..to] == x[b.offset..to];
    }
  }

  lemma SendTakes(b: Batch, t: Tcp, o: SendOracle)
    requires b.Valid() && t.Valid() && t.connected && b.offset < 24 * |b.frames| == |b.Bytes()|
    ensures var (t', n) := Send(t, o, b.Bytes()[b.offset..]);
      && (n > 0 ==> t'.connected && b.offset + n <= 24 * |b.frames| && Took(b, t, t', b.offset + n))
      && (n <= 0 ==> Took(b, t, t', b.offset))
  {
    var x := b.Bytes();
    var data := x[b.offset..];
    var (t', n) := Send(t, o, data);
    if n > 0 {
      assert data[..n] == x[b.offset..b.offset + n];
    } else {
      if n == 0 {
        var k := |t.logs| - 1;
        assert t.logs[k] + data[..0] == t.logs[k];
      }
      TookNothing(b, t, t');
    }
  }

  lemma {:induction false} SendLoopMoves(b: Batch, t: Tcp, o: SendOracle)
    requires b.Valid() && t.Valid() && t.connected
    ensures Moves(b, t, SendLoop(b, t, o))
    decreases 24 * |b.frames| - b.offset
  {
    hide Send, Took;
    ConcatLength(b.frames);
    if b.offset >= 24 * |b.frames| {
      TookNothing(b, t, t);
    } else {
      SendTakes(b, t, o);
      var (t', n) := Send(t, o, b.Bytes()[b.offset..]);
      TookLogs(b, t, t', if n > 0 then b.offset + n else b.offset);
      if n > 0 {
        var b' := b.(offset := b.offset + n);
        SendLoopMoves(b', t', o);
        var r := SendLoop(b', t', o);
        TookMore(b, t, t', b.offset + n, r.tcp, if r.ok then 24 * |b.frames| else r.batch.offset);
      }
    }
  }

  lemma TookLogs(b: Batch, t: Tcp, t': Tcp, to: nat)
    requires b.Valid()
    requires Took(b, t, t', to)
    ensures |t'.logs| == |t.logs|
  {}

  lemma FlushedMoves(b: Batch, t: Tcp, o: SendOracle)
    requires b.Valid() && t.Valid()
    ensures Moves(b, t, Flushed(b, t, o))
  {
    hide SendLoop, Took;
    if b.frames == [] || !t.connected {
      TookNothing(b, t, t);
    } else {
      SendLoopMoves(b, t, o);
    }
  }

  /** The same holds of any number of retries. */
  lemma {:induction false} FlushedWithinMoves(b: Batch, t: Tcp, o: SendOracle, attempts: nat)
    requires b.Valid() && t.Valid()
    requires b.offset < 24 * |b.frames| || b.frames == []
    ensures Moves(b, t, FlushedWithin(b, t, o, attempts))
    decreases attempts
  {
    hide Took, Flushed;
    if attempts == 0 {
      TookNothing(b, t, t);
      NothingLeft(b);
    } else {
      FlushedMoves(b, t, o);
      var r := Flushed(b, t, o);
      if !r.ok && r.tcp.connected {
        if r.batch.frames == [] {
          NothingLeft(b);
        } else {
          FlushedWithinMoves(r.batch, r.tcp, o, attempts - 1);
          var r2 := FlushedWithin(r.batch, r.tcp, o, attempts - 1);
          TookMore(b, t, r.tcp, r.batch.offset, r2.tcp, if r2.ok then 24 * |b.frames| else r2.batch.offset);
        }
      }
    }
  }

  /** Noting n bytes by hand leaves the batch as a connection does that takes n bytes and then
      stalls; at the end of the batch, once the sent frames are discarded, as a finished flush. */
  lemma NotedAsSent(b: Batch, t: Tcp, o: SendOracle, n: nat)
    requires b.Valid() && t.Valid() && t.connected && b.offset < 24 * |b.frames|
    requires o(t.sends) == n && o(t.sends + 1) == 0
    ensures var f := Flushed(b, t, o);
      && (f.ok <==> b.offset + n >= 24 * |b.frames|)
      && f.batch == if f.ok then Discarded(NotedSent(b, n)) else NotedSent(b, n)
  {
    ConcatLength(b.frames);
    var (t', sent) := Send(t, o, b.Bytes()[b.offset..]);
    if sent > 0 {
      StalledAt(b.(offset := b.offset + sent), t', o);
    }
  }

  lemma StalledAt(b: Batch, t: Tcp, o: SendOracle)
    requires b.Valid() && t.Valid() && t.connected && o(t.sends) == 0
    ensures SendLoop(b, t, o).ok == (b.offset >= 24 * |b.frames|)
    ensures SendLoop(b, t, o).batch == if b.offset >= 24 * |b.frames| then Cleared(b) else b
  {
    ConcatLength(b.frames);
  }

  lemma NothingLeft(b: Batch)
    requires b.Valid()
    ensures b.frames == [] ==> b == Cleared(b)
  {}

  /** The first bytes of a list of frames: whole frames and a beginning of the next. */
  lemma PrefixOfFrames(fs: seq<Frame>, taken: nat)
    requires taken <= 24 * |fs|
    ensures |Concat(fs)| == 24 * |fs|
    ensures |Concat(fs[..taken / 24])| == 24 * (taken / 24)
    ensures Concat(fs)[..taken]
         == Concat(fs[..taken / 24]) + (if taken % 24 == 0 then [] else fs[taken / 24][..taken % 24])
  {
    var k := taken / 24;
    ConcatLength(fs);
    ConcatLength(fs[..k]);
    ConcatAppend(fs[..k], fs[k..]);
    assert fs[..k] + fs[k..] == fs;
    if taken % 24 != 0 {
      assert fs[k..][0] == fs[k];
      assert Concat(fs[k..])[..taken % 24] == fs[k][..taken % 24];
    }
  }

  // ----- the classes that do this in place -----

  class TcpClient {
    var connected: bool
    ghost var logs: seq<seq<Byte>>
    var sends: nat
    const answers: SendOracle

    ghost predicate Valid()
      reads this
    {
      State().Valid()
    }

    ghost function State(): (r: Tcp)
      reads this
    {
      Tcp(connected, logs, sends)
    }

    constructor (answers: SendOracle)
      ensures Valid() && State() == Tcp(false, [], 0) && this.answers == answers
    {
      connected, logs, sends := false, [], 0;
      this.answers := answers;
    }

    /** Gives up the old socket first; an accepted connect starts an empty log. */
    method Connect(accepted: bool)
      requires Valid()
      modifies this
      ensures Valid() && State() == Connected(old(State()), accepted)
    {
      Close();
      if accepted {
        connected := true;
        logs := logs + [[]];
      }
    }

    method Close()
      requires Valid()
      modifies this`connected
      ensures Valid() && State() == Closed(old(State()))
    {
      connected := false;
    }

    method SendNb(data: seq<Byte>) returns (n: int)
      requires Valid()
      modifies this
      ensures Valid() && (State(), n) == Send(old(State()), answers, data)
    {
      if !connected || data == [] {
        return -1;
      }
      n := answers(sends);
      sends := sends + 1;
      if n < 0 {
        connected := false;
        return -1;
      }
      if n > |data| {
        n := |data|;
      }
      logs := logs[|logs| - 1 := logs[|logs| - 1] + data[..n]];
    }
  }

  class FrameSlab {
    const frames: array<Frame>
    var count: nat
    var sendOffset: nat
    var flushAt: nat

    ghost predicate Valid()
      reads this
    {
      count <= frames.Length && sendOffset <= 24 * count
    }

    ghost function State(): (r: Batch)
      requires Valid()
      reads this, frames
      ensures r.Valid()
    {
      Batch(frames[..count], sendOffset, frames.Length, flushAt)
    }

    constructor (capacity: nat)
      ensures Valid() && fresh(frames)
      ensures State() == Batch([], 0, capacity, capacity)
    {
      frames := new Frame[capacity](_ => NO_FRAME);
      count, sendOffset, flushAt := 0, 0, capacity;
    }

    method Push(sample: SensorSample) returns (stored: bool)
      requires Valid()
      modifies this`count, frames
      ensures Valid() && State() == Pushed(old(State()), PackFrame(sample))
      ensures stored <==> old(count) < frames.Length
    {
      hide PackFrame;
      if count >= frames.Length {
        return false;
      }
      frames[count] := PackFrame(sample);
      count := count + 1;
      return true;
    }

    method Clear()
      requires Valid()
      modifies this`count, this`sendOffset
      ensures Valid() && State() == Cleared(old(State()))
    {
      count := 0;
      sendOffset := 0;
    }

    /** Moves the cursor as if a connection had taken n bytes: never back, never past the end,
        and short of n only at the end. */
    method NoteSent(n: nat)
      requires Valid()
      modifies this`sendOffset
      ensures Valid() && State() == NotedSent(old(State()), n)
      ensures old(sendOffset) <= sendOffset <= old(sendOffset) + n
      ensures sendOffset < old(sendOffset) + n ==> sendOffset == 24 * count
    {
      var total := count * 24;
      if sendOffset >= total {
        return;
      }
      sendOffset := Min(total, sendOffset + n);
    }

    method DiscardFullySent()
      requires Valid()
      modifies this`count, this`sendOffset, frames
      ensures Valid() && State() == Discarded(old(State()))
    {
      var fully := sendOffset / 24;
      if fully == 0 {
        return;
      }
      if fully >= count {
        Clear();
        return;
      }
      var remain := count - fully;
      MoveDown(fully, remain);
      count := remain;
      sendOffset := 0;
    }

    method MoveDown(shift: nat, n: nat)
      requires shift + n <= frames.Length
      modifies frames
      ensures frames[..n] == old(frames[shift..shift + n])
    {
      var i := 0;
      while i < n
        invariant i <= n
        invariant frames[..i] == old(frames[shift..shift + i])
        invariant forall k :: i <= k < frames.Length ==> frames[k] == old(frames[k])
      {
        frames[i] := frames[shift + i];
        i := i + 1;
      }
    }

    method Adapt(fullySent: bool, flushNs: nat)
      requires Valid()
      modifies this`flushAt
      ensures Valid() && State() == Adapted(old(State()), fullySent, flushNs)
    {
      if !fullySent || flushNs > 2_000_000 {
        flushAt := Max(1, flushAt / 2);
        return;
      }
      if flushNs < 200_000 && flushAt < frames.Length {
        flushAt := Min(frames.Length, flushAt + 1);
      }
    }

    method FlushTcp(tcp: TcpClient) returns (ok: bool)
      requires Valid() && tcp.Valid()
      modifies this`count, this`sendOffset, tcp
      ensures Valid() && tcp.Valid()
      ensures Flush(State(), tcp.State(), ok) == Flushed(old(State()), old(tcp.State()), tcp.answers)
    {
      if count == 0 || !tcp.connected {
        return false;
      }
      ghost var want := SendLoop(State(), tcp.State(), tcp.answers);
      var bytes := Concat(frames[..count]);
      ConcatLength(frames[..count]);
      while sendOffset < 24 * count
        invariant Valid() && tcp.Valid()
        invariant count == old(count) && flushAt == old(flushAt)
        invariant want == SendLoop(State(), tcp.State(), tcp.answers)
        decreases 24 * count - sendOffset
      {
        var n := tcp.SendNb(bytes[sendOffset..]);
        if n <= 0 {
          return false;
        }
        sendOffset := sendOffset + n;
      }
      Clear();
      return true;
    }

    method FlushTcpRetry(tcp: TcpClient, attempts: nat) returns (ok: bool)
      requires Valid() && tcp.Valid()
      modifies this`count, this`sendOffset, tcp
      ensures Valid() && tcp.Valid()
      ensures Flush(State(), tcp.State(), ok)
           == FlushedWithin(old(State()), old(tcp.State()), tcp.answers, attempts)
    {
      hide Flushed;
      for i := 0 to attempts
        invariant Valid() && tcp.Valid()
        invariant FlushedWithin(old(State()), old(tcp.State()), tcp.answers, attempts)
               == FlushedWithin(State(), tcp.State(), tcp.answers, attempts - i)
      {
        FlushedMoves(State(), tcp.State(), tcp.answers);
        ok := FlushTcp(tcp);
        if ok {
          return true;
        }
        if !tcp.connected {
          return false;
        }
        if count == 0 {
          return true;
        }
      }
      return count == 0;
    }
  }
}

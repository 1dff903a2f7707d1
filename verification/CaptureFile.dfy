/** A capture from its first byte to the closed file. */
module CaptureFile {
  import opened Bytes
  import opened WireFrame
  import opened StreamScan
  import opened Analyze
  import opened ZcmFile
  import opened Inspect
  import opened Capture

  /** What the capture tool meets: bytes on the TCP connection, a datagram, or a connection
      that ended or was replaced. */
  datatype Arrival = Chunk(bytes: seq<Byte>) | Datagram(bytes: seq<Byte>) | ConnectionGone

  function FrameIn(datagram: seq<Byte>): (r: seq<Frame>) {
    if |datagram| >= 24 && VerifyFrame(datagram[..24]) then [datagram[..24]] else []
  }

  /** The frames of a run, in the order they are written; `rest` is the stream's leftover. */
  function Captured(rest: seq<Byte>, arrivals: seq<Arrival>): (fs: seq<Frame>)
    decreases |arrivals|
  {
    if arrivals == [] then []
    else
      match arrivals[0]
      case Chunk(bytes) => ScanStream(rest + bytes).frames + Captured(ScanStream(rest + bytes).rest, arrivals[1..])
      case Datagram(bytes) => FrameIn(bytes) + Captured(rest, arrivals[1..])
      case ConnectionGone => Captured([], arrivals[1..])
  }

  function Chunks(parts: seq<seq<Byte>>): (r: seq<Arrival>) {
    if parts == [] then [] else [Chunk(parts[0])] + Chunks(parts[1..])
  }

  /** One connection in any chunks: the frames of the whole stream. */
  lemma ConnectionIsOneStream(parts: seq<seq<Byte>>)
    ensures Captured([], Chunks(parts)) == ScanStream(Concat(parts)).frames
  {
    ConnectionContinues([], parts);
    assert [] + Concat(parts) == Concat(parts);
  }

  lemma {:induction false} ConnectionContinues(rest: seq<Byte>, parts: seq<seq<Byte>>)
    requires |rest| < 24
    ensures Captured(rest, Chunks(parts)) == ScanStream(rest + Concat(parts)).frames
    decreases |parts|
  {
    hide ScanStream;
    if parts == [] {
      assert rest + Concat(parts) == rest;
      ShortStream(rest);
    } else {
      var s := rest + parts[0];
      Conservation(s);
      ConnectionContinues(ScanStream(s).rest, parts[1..]);
      ScanAppend(s, Concat(parts[1..]));
      AppendAssoc(rest, parts[0], Concat(parts[1..]));
      assert Chunks(parts)[1..] == Chunks(parts[1..]);
    }
  }

  // ----- several connections, and datagrams between them -----

  /** What each connection carried, given what the present one has carried so far. */
  function StreamsFrom(soFar: seq<Byte>, arrivals: seq<Arrival>): (streams: seq<seq<Byte>>)
    decreases |arrivals|
  {
    if arrivals == [] then [soFar]
    else
      match arrivals[0]
      case Chunk(bytes) => StreamsFrom(soFar + bytes, arrivals[1..])
      case Datagram(_) => StreamsFrom(soFar, arrivals[1..])
      case ConnectionGone => [soFar] + StreamsFrom([], arrivals[1..])
  }

  function FramesOf(streams: seq<seq<Byte>>): (fs: seq<Frame>) {
    if streams == [] then [] else ScanStream(streams[0]).frames + FramesOf(streams[1..])
  }

  function DatagramFrames(arrivals: seq<Arrival>): (fs: seq<Frame>) {
    if arrivals == [] then []
    else (if arrivals[0].Datagram? then FrameIn(arrivals[0].bytes) else []) + DatagramFrames(arrivals[1..])
  }

  /** Whatever arrives in whatever order: what is captured is what each connection's stream holds by
      itself, and the valid datagrams; without datagrams, connection after connection in order.
      Nothing left over of one connection ever meets the bytes of another. */
  lemma CapturedByConnection(arrivals: seq<Arrival>)
    ensures multiset(Captured([], arrivals))
         == multiset(FramesOf(StreamsFrom([], arrivals))) + multiset(DatagramFrames(arrivals))
    ensures (forall a :: a in arrivals ==> !a.Datagram?) ==>
      Captured([], arrivals) == FramesOf(StreamsFrom([], arrivals))
  {
    hide ScanStream, Captured, StreamsFrom, FramesOf;
    ShortStream([]);
    CapturedOn([], arrivals);
    if forall a :: a in arrivals ==> !a.Datagram? {
      CapturedInOrder([], arrivals);
    }
    assert [] + Captured([], arrivals) == Captured([], arrivals);
  }

  /** One more arrival, on both sides. */
  lemma CapturedStep(soFar: seq<Byte>, arrivals: seq<Arrival>)
    requires arrivals != []
    ensures var before, fs, more := ScanStream(soFar).frames, Captured(ScanStream(soFar).rest, arrivals), arrivals[1..];
      if arrivals[0].Chunk? then
        var next := soFar + arrivals[0].bytes;
        && before + fs == ScanStream(next).frames + Captured(ScanStream(next).rest, more)
        && FramesOf(StreamsFrom(soFar, arrivals)) == FramesOf(StreamsFrom(next, more))
      else if arrivals[0].Datagram? then
        && fs == FrameIn(arrivals[0].bytes) + Captured(ScanStream(soFar).rest, more)
        && FramesOf(StreamsFrom(soFar, arrivals)) == FramesOf(StreamsFrom(soFar, more))
      else
        && fs == ScanStream([]).frames + Captured(ScanStream([]).rest, more)
        && FramesOf(StreamsFrom(soFar, arrivals)) == before + FramesOf(StreamsFrom([], more))
  {
    hide ScanStream, FrameIn;
    var r, more := ScanStream(soFar), arrivals[1..];
    match arrivals[0]
    case Chunk(bytes) =>
      ScanAppend(soFar, bytes);
      AppendAssoc(r.frames, ScanStream(r.rest + bytes).frames, Captured(ScanStream(r.rest + bytes).rest, more));
    case Datagram(bytes) =>
    case ConnectionGone =>
      ShortStream([]);
      assert [] + Captured([], more) == Captured([], more);
      assert ([soFar] + StreamsFrom([], more))[1..] == StreamsFrom([], more);
  }

  lemma {:induction false} CapturedOn(soFar: seq<Byte>, arrivals: seq<Arrival>)
    ensures var before, fs := ScanStream(soFar).frames, Captured(ScanStream(soFar).rest, arrivals);
      multiset(before + fs) == multiset(FramesOf(StreamsFrom(soFar, arrivals))) + multiset(DatagramFrames(arrivals))
    decreases |arrivals|
  {
    hide ScanStream, FrameIn, Captured, StreamsFrom, FramesOf;
    if arrivals == [] {
      LastStream(soFar);
    } else {
      CapturedStep(soFar, arrivals);
      match arrivals[0]
      case Chunk(bytes) => CapturedOn(soFar + bytes, arrivals[1..]);
      case Datagram(bytes) =>
        CapturedOn(soFar, arrivals[1..]);
        InTheMiddle(ScanStream(soFar).frames, FrameIn(bytes), Captured(ScanStream(soFar).rest, arrivals[1..]));
        InTheMiddle([], FrameIn(bytes), DatagramFrames(arrivals[1..]));
        assert [] + DatagramFrames(arrivals) == DatagramFrames(arrivals);
        assert [] + DatagramFrames(arrivals[1..]) == DatagramFrames(arrivals[1..]);
      case ConnectionGone => CapturedOn([], arrivals[1..]);
    }
  }

  lemma InTheMiddle(a: seq<Frame>, b: seq<Frame>, c: seq<Frame>)
    ensures multiset(a + (b + c)) == multiset(a + c) + multiset(b)
  {
    assert a + (b + c) == a + b + c;
  }

  lemma {:induction false} CapturedInOrder(soFar: seq<Byte>, arrivals: seq<Arrival>)
    requires forall a :: a in arrivals ==> !a.Datagram?
    ensures ScanStream(soFar).frames + Captured(ScanStream(soFar).rest, arrivals)
         == FramesOf(StreamsFrom(soFar, arrivals))
    decreases |arrivals|
  {
    hide ScanStream, FrameIn, Captured, StreamsFrom, FramesOf;
    if arrivals == [] {
      LastStream(soFar);
    } else {
      assert arrivals[0] in arrivals;
      CapturedStep(soFar, arrivals);
      match arrivals[0]
      case Chunk(bytes) => CapturedInOrder(soFar + bytes, arrivals[1..]);
      case ConnectionGone => CapturedInOrder([], arrivals[1..]);
    }
  }

  lemma LastStream(soFar: seq<Byte>)
    ensures Captured(ScanStream(soFar).rest, []) == []
    ensures FramesOf(StreamsFrom(soFar, [])) == ScanStream(soFar).frames
  {
    hide ScanStream;
    assert ScanStream(soFar).frames + [] == ScanStream(soFar).frames;
  }

  lemma ShortStream(s: seq<Byte>)
    requires |s| < 24
    ensures ScanStream(s).frames == [] && ScanStream(s).rest == s
  {}

  lemma {:induction false} CapturedVerify(rest: seq<Byte>, arrivals: seq<Arrival>)
    ensures AllVerify(Captured(rest, arrivals))
    decreases |arrivals|
  {
    hide ScanStream, VerifyFrame;
    if arrivals != [] {
      match arrivals[0]
      case Chunk(bytes) =>
        Conservation(rest + bytes);
        CapturedVerify(ScanStream(rest + bytes).rest, arrivals[1..]);
      case Datagram(bytes) =>
        CapturedVerify(rest, arrivals[1..]);
      case ConnectionGone =>
        CapturedVerify([], arrivals[1..]);
    }
  }

  /** Whatever arrives, in whatever order, the closed file holds exactly the captured frames and
      is accepted. */
  method RunCapture(arrivals: seq<Arrival>) returns (file: seq<Byte>)
    requires |Captured([], arrivals)| < TWO_TO_THE_64
    ensures var fs := Captured([], arrivals);
      var r := InspectFile(file);
      && file == Header(|fs|) + Concat(fs)
      && Accepts(r, NO_EXPECTATIONS)
      && r.stats == ObservedAll(ReadingsOf(fs)) && r.raws == RawsOf(fs)
  {
    hide ScanStream, Concat, Header, HeaderMagic, HeaderVersion, HeaderCount, InspectFile, Accepts, ObservedAll,
        ReadingsOf, RawsOf, AllVerify, Captured, VerifyFrame;
    var session := new CaptureSession();
    ghost var done: seq<Frame> := [];
    StartOfCapture(arrivals);
    var i := 0;
    while i < |arrivals|
      invariant 0 <= i <= |arrivals|
      invariant fresh(session)
      invariant session.ok == |done| && session.file == Header(0) + Concat(done)
      invariant done + Captured(session.stream, arrivals[i..]) == Captured([], arrivals)
    {
      ghost var before := session.stream;
      done := TakeArrival(session, arrivals[i], done);
      NextArrival(before, arrivals, i);
      i := i + 1;
    }
    EndOfCapture(done, session.stream, arrivals);
    session.RewriteHeader();
    file := session.file;
    WellFormedAccepted(done);
  }

  /** The frames one arrival adds and the leftover it leaves. */
  function Added(rest: seq<Byte>, a: Arrival): (r: (seq<Frame>, seq<Byte>)) {
    match a
    case Chunk(bytes) => (ScanStream(rest + bytes).frames, ScanStream(rest + bytes).rest)
    case Datagram(bytes) => (FrameIn(bytes), rest)
    case ConnectionGone => ([], [])
  }

  method TakeArrival(session: CaptureSession, a: Arrival, ghost done: seq<Frame>) returns (ghost now: seq<Frame>)
    requires session.ok == |done| && session.file == Header(0) + Concat(done)
    modifies session
    ensures now == done + Added(old(session.stream), a).0 && session.stream == Added(old(session.stream), a).1
    ensures session.ok == |now| && session.file == Header(0) + Concat(now)
  {
    hide ScanStream, Concat, Header, VerifyFrame;
    ghost var more := Added(session.stream, a).0;
    now := done + more;
    MoreFrames(Header(0), done, more);
    match a {
      case Chunk(bytes) =>
        session.ReceiveTcp(bytes);
      case Datagram(bytes) =>
        OneFrame(bytes);
        session.ReceiveUdp(bytes);
      case ConnectionGone =>
        NoFrames();
        session.ConnectionChange();
    }
  }

  lemma StartOfCapture(arrivals: seq<Arrival>)
    ensures arrivals[0..] == arrivals
    ensures Header(0) + Concat([]) == Header(0)
    ensures [] + Captured([], arrivals) == Captured([], arrivals)
  {
    hide Header, Captured;
  }

  lemma NextArrival(rest: seq<Byte>, arrivals: seq<Arrival>, i: nat)
    requires i < |arrivals|
    ensures Captured(rest, arrivals[i..])
         == Added(rest, arrivals[i]).0 + Captured(Added(rest, arrivals[i]).1, arrivals[i + 1..])
  {}

  lemma MoreFrames(header: seq<Byte>, a: seq<Frame>, b: seq<Frame>)
    ensures header + Concat(a + b) == (header + Concat(a)) + Concat(b)
  {
    hide Concat;
    ConcatAppend(a, b);
    AppendAssoc(header, Concat(a), Concat(b));
  }

  lemma OneFrame(datagram: seq<Byte>)
    ensures Concat(FrameIn(datagram)) == if |datagram| >= 24 && VerifyFrame(datagram[..24]) then datagram[..24] else []
  {}

  lemma EndOfCapture(done: seq<Frame>, rest: seq<Byte>, arrivals: seq<Arrival>)
    requires done + Captured(rest, arrivals[|arrivals|..]) == Captured([], arrivals)
    ensures done == Captured([], arrivals) && AllVerify(done)
  {
    hide AllVerify;
    assert arrivals[|arrivals|..] == [];
    assert Captured(rest, []) == [];
    CapturedVerify([], arrivals);
  }
}

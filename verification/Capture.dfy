/** The capture tool's receiving side: the C++ stream decoder, the datagram path
    and the output file it grows. */
module Capture {
  import opened Bytes
  import opened WireFrame
  import opened StreamScan
  import opened ZcmFile

  /** The state `main` threads through the decoder: the stream buffer, the output file and the counters. */
  class CaptureSession {
    var stream: seq<Byte>
    var file: seq<Byte>
    var ok: nat
    var drop: nat
    var resync: nat

    /** The output file is opened empty and starts with a header that says zero frames. */
    constructor ()
      ensures stream == [] && ok == 0 && drop == 0 && resync == 0
      ensures file == Header(0)
    {
      hide Header, HeaderMagic, HeaderVersion, HeaderCount;
      stream, file := [], [];
      ok, drop, resync := 0, 0, 0;
      new;
      RewriteHeader();
    }

    /** First position from `from` on that carries the magic with room for a frame, or -1. */
    static method FindMagic(data: seq<Byte>, from: nat) returns (at: int)
      ensures at == -1 || from <= at
      ensures at >= 0 ==> at + 24 <= |data| && MagicAt(data, at)
      ensures at >= 0 ==> forall i :: from <= i < at ==> !MagicAt(data, i)
      ensures at == -1 ==> forall i :: from <= i <= |data| - 24 ==> !MagicAt(data, i)
    {
      var last := |data| - 24;
      var i := from;
      while i <= last
        invariant from <= i
        invariant forall k :: from <= k < i && k <= last ==> !MagicAt(data, k)
      {
        if MagicAt(data, i) {
          return i;
        }
        i := i + 1;
      }
      return -1;
    }

    method AppendFrame(frame: Frame)
      modifies this`file, this`ok
      ensures file == old(file) + frame && ok == old(ok) + 1
    {
      file := file + frame;
      ok := ok + 1;
    }

    /** Decodes the buffer in place; what is done is exactly what the byte-by-byte scan says. */
    method DecodeTcpStream()
      modifies this
      ensures var r := ScanStream(old(stream));
        && file == old(file) + Concat(r.frames)
        && ok == old(ok) + |r.frames|
        && drop == old(drop) + r.drops
        && resync == old(resync) + r.resync
        && stream == r.rest
    {
      hide VerifyFrame, ScanStream, Concat;
      var pos := 0;
      var n := |stream|;
      ghost var whole := ScanStream(stream);
      ghost var done := EMPTY;
      assert stream[0..] == stream;
      ThenNothing(whole);
      ghost var base := file;
      NoFrames();
      while n - pos >= 24
        invariant 0 <= pos <= n == |stream|
        invariant stream == old(stream)
        invariant whole == Then(done, ScanStream(stream[pos..]))
        invariant file == base + Concat(done.frames)
        invariant ok == old(ok) + |done.frames|
        invariant drop == old(drop) + done.drops
        invariant resync == old(resync) + done.resync
        decreases n - pos
      {
        var magic := FindMagic(stream, pos);
        if magic < 0 {
          var keep := 24 - 1;
          if n - pos > keep {
            SkipPlain(stream, pos, n - keep, done);
            done := done.(resync := done.resync + (n - pos - keep));
            resync := resync + (n - pos - keep);
            pos := n - keep;
          }
          break;
        }
        if magic > pos {
          SkipPlain(stream, pos, magic, done);
          done := done.(resync := done.resync + (magic - pos));
          resync := resync + (magic - pos);
          pos := magic;
        }
        var frame: Frame := stream[pos..pos + 24];
        if !VerifyFrame(frame) {
          RejectAt(stream, pos, done);
          done := done.(drops := done.drops + 1, resync := done.resync + 1);
          drop := drop + 1;
          resync := resync + 1;
          pos := pos + 1;
          continue;
        }
        AcceptAt(stream, pos, done);
        FileGrows(base, done.frames, frame);
        done := done.(frames := done.frames + [frame]);
        AppendFrame(frame);
        pos := pos + 24;
      }
      ShortRest(stream, pos, done);
      if pos > 0 {
        stream := stream[pos..];
      }
    }

    /** Bytes arrive on the connection. */
    method ReceiveTcp(chunk: seq<Byte>)
      modifies this
      ensures var r := ScanStream(old(stream) + chunk);
        && file == old(file) + Concat(r.frames)
        && ok == old(ok) + |r.frames|
        && drop == old(drop) + r.drops
        && resync == old(resync) + r.resync
        && stream == r.rest
    {
      stream := stream + chunk;
      DecodeTcpStream();
    }

    /** A connection closed or was replaced: what it left behind is forgotten. */
    method ConnectionChange()
      modifies this`stream
      ensures stream == []
    {
      stream := [];
    }

    method ReceiveUdp(datagram: seq<Byte>)
      modifies this
      ensures stream == old(stream) && resync == old(resync)
      ensures if |datagram| >= 24 && VerifyFrame(datagram[..24])
              then file == old(file) + datagram[..24] && ok == old(ok) + 1 && drop == old(drop)
              else file == old(file) && ok == old(ok) && drop == old(drop) + (if |datagram| > 0 then 1 else 0)
    {
      hide VerifyFrame;
      if |datagram| < 24 {
        if |datagram| > 0 {
          drop := drop + 1;
        }
        return;
      }
      var frame: Frame := datagram[..24];
      if !VerifyFrame(frame) {
        drop := drop + 1;
        return;
      }
      AppendFrame(frame);
    }

    /** Seeks to the start and writes over what is there: the header now announces the frames
        counted so far, and nothing behind it is touched. */
    method RewriteHeader()
      modifies this`file
      ensures |file| == (if |old(file)| < 16 then 16 else |old(file)|)
      ensures HeaderMagic(file) == ZCM_MAGIC && HeaderVersion(file) == ZCM_VERSION
      ensures HeaderCount(file) == ok % TWO_TO_THE_64
      ensures forall i :: 16 <= i < |old(file)| ==> file[i] == old(file)[i]
      ensures |old(file)| >= 16 ==> file == Header(ok % TWO_TO_THE_64) + old(file)[16..]
      ensures old(file) == [] ==> file == Header(ok % TWO_TO_THE_64)
    {
      hide Header, HeaderMagic, HeaderVersion, HeaderCount;
      var header := Header(ok % TWO_TO_THE_64);
      var kept := if |file| > 16 then file[16..] else [];
      HeaderReads(ok % TWO_TO_THE_64, kept);
      file := Overwrite(file, 0, header);
      assert file == header + kept;
    }
  }

  // ----- one iteration of the decoder against the scan -----

  lemma ThenNothing(r: Scan)
    ensures Then(EMPTY, r) == r
  {}

  lemma NoFrames()
    ensures Concat([]) == []
  {}

  lemma FileGrows(base: seq<Byte>, fs: seq<Frame>, frame: Frame)
    ensures base + Concat(fs + [frame]) == base + Concat(fs) + frame
  {
    ConcatAppend(fs, [frame]);
    assert Concat([frame]) == frame;
    AppendAssoc(base, Concat(fs), frame);
  }

  /** Jumping over positions without a magic. */
  lemma SkipPlain(s: seq<Byte>, pos: nat, to: nat, done: Scan)
    requires pos <= to && to + 23 <= |s|
    requires forall i :: pos <= i < to ==> !MagicAt(s, i)
    ensures Then(done, ScanStream(s[pos..])) == Then(done.(resync := done.resync + (to - pos)), ScanStream(s[to..]))
  {
    hide ScanStream;
    var u := s[pos..];
    forall i | 0 <= i < to - pos
      ensures !MagicAt(u, i)
    {
      assert !MagicAt(s, pos + i);
    }
    SkipNoMagic(u, to - pos);
    assert u[to - pos..] == s[to..];
    var t := ScanStream(s[to..]);
    assert [] + t.frames == t.frames;
  }

  /** Giving up one byte at a magic whose window does not verify. */
  lemma RejectAt(s: seq<Byte>, pos: nat, done: Scan)
    requires pos + 24 <= |s| && MagicAt(s, pos) && !VerifyFrame(s[pos..pos + 24])
    ensures Then(done, ScanStream(s[pos..]))
         == Then(done.(drops := done.drops + 1, resync := done.resync + 1), ScanStream(s[pos + 1..]))
  {
    hide VerifyFrame;
    var u := s[pos..];
    assert u[..24] == s[pos..pos + 24];
    assert u[1..] == s[pos + 1..];
    assert MagicAt(u, 0);
  }

  /** Taking a verifying window. */
  lemma AcceptAt(s: seq<Byte>, pos: nat, done: Scan)
    requires pos + 24 <= |s| && VerifyFrame(s[pos..pos + 24])
    ensures Then(done, ScanStream(s[pos..]))
         == Then(done.(frames := done.frames + [s[pos..pos + 24]]), ScanStream(s[pos + 24..]))
  {
    hide VerifyFrame;
    var u := s[pos..];
    assert u[..24] == s[pos..pos + 24];
    assert u[24..] == s[pos + 24..];
    AppendAssoc(done.frames, [u[..24]], ScanStream(u[24..]).frames);
  }

  lemma ShortRest(s: seq<Byte>, pos: nat, done: Scan)
    requires pos <= |s| < pos + 24
    ensures Then(done, ScanStream(s[pos..])) == Scan(done.frames, done.drops, done.resync, s[pos..])
  {}
}

/** The operator's .zcm writer, and why what it leaves behind is accepted by the inspector. */
module ZcmWriter {
  import opened Bytes
  import opened WireFrame
  import opened WireRecord
  import opened StreamScan
  import opened Analyze
  import opened ZcmFile
  import opened Inspect

  /** The file, the channel's position in it, the frames written and whether it is closed. */
  datatype Writer = Writer(file: seq<Byte>, position: nat, frameCount: nat, closed: bool)

  function Created(): (w: Writer) {
    Writer(Header(0), HEADER_SIZE, 0, false)
  }

  datatype Outcome = Done(writer: Writer) | WriterClosed

  /** A record that failed its check is passed over in silence. */
  function Write(w: Writer, r: Record): (o: Outcome)
    requires w.position <= |w.file|
  {
    if w.closed then WriterClosed
    else if !r.crcOk then Done(w)
    else Done(w.(file := Overwrite(w.file, w.position, Encode(r)), position := w.position + 24,
        frameCount := w.frameCount + 1))
  }

  /** The count goes out as a 64-bit word. */
  function Closed(w: Writer): (r: Writer) {
    if w.closed then w
    else Writer(Overwrite(w.file, 0, Header(w.frameCount % TWO_TO_THE_64)), HEADER_SIZE, w.frameCount, true)
  }

  function WriteAll(rs: seq<Record>): (w: Writer)
    ensures !w.closed && w.position == |w.file|
    decreases |rs|
  {
    if rs == [] then Created() else Write(WriteAll(rs[..|rs| - 1]), rs[|rs| - 1]).writer
  }

  /** So far: the empty header, then the bytes of the frames that verified. */
  lemma {:induction false} WrittenSoFar(fs: seq<Frame>)
    ensures WriteAll(Decoded(fs)).file == Header(0) + Concat(Verified(fs))
    ensures WriteAll(Decoded(fs)).frameCount == |Verified(fs)|
    decreases |fs|
  {
    hide VerifyFrame, Header, Encode, Decode, Write, Concat;
    if fs == [] {
      NothingWritten();
    } else {
      var front, last := fs[..|fs| - 1], fs[|fs| - 1];
      WrittenSoFar(front);
      assert Decoded(fs)[..|fs| - 1] == Decoded(front);
      OneWritten(WriteAll(Decoded(front)), Verified(front), last);
    }
  }

  lemma NothingWritten()
    ensures Created().file == Header(0) + Concat([])
  {
    hide Header;
  }

  lemma OneWritten(w: Writer, v: seq<Frame>, f: Frame)
    requires !w.closed && w.position == |w.file|
    requires w.file == Header(0) + Concat(v) && w.frameCount == |v|
    ensures var k, v' := Write(w, Decode(f)).writer, v + (if VerifyFrame(f) then [f] else []);
      k.file == Header(0) + Concat(v') && k.frameCount == |v'|
  {
    hide VerifyFrame, Header, Encode, Decode, Concat;
    EncodeDecode(f);
    DecodedOk(f);
    ConcatAppend(v, [f]);
    ConcatSingle(f);
    AppendAssoc(Header(0), Concat(v), f);
    assert v + [] == v;
  }

  lemma ConcatSingle(f: Frame)
    ensures Concat([f]) == f
  {}

  lemma DecodedOk(f: Frame)
    ensures Decode(f).crcOk == VerifyFrame(f)
  {}

  lemma {:induction false} VerifiedVerify(fs: seq<Frame>)
    ensures AllVerify(Verified(fs))
    decreases |fs|
  {
    hide VerifyFrame;
    if fs != [] {
      VerifiedVerify(fs[..|fs| - 1]);
    }
  }

  lemma HeaderReplaced(count: U64, body: seq<Byte>)
    ensures Overwrite(Header(0) + body, 0, Header(count)) == Header(count) + body
  {
    hide Header;
  }

  /** Whatever frames were received, valid or not, the closed file is accepted: as many frames
      as verified, none failing, their raw values in the order written. */
  lemma ClosedFileAccepted(fs: seq<Frame>)
    requires |fs| < TWO_TO_THE_64
    ensures var r := InspectFile(Closed(WriteAll(Decoded(fs))).file);
      && Accepts(r, NO_EXPECTATIONS)
      && r.count == |Verified(fs)| && r.stats == ObservedAll(ReadingsOf(Verified(fs)))
      && r.stats.crcFail == 0
      && r.raws == RawsOf(Verified(fs))
  {
    hide VerifyFrame, Header, WriteAll, Decoded, Verified, Overwrite, InspectFile, ObservedAll, ReadingsOf, RawsOf,
        Accepts, Concat;
    WrittenSoFar(fs);
    VerifiedVerify(fs);
    HeaderReplaced(|Verified(fs)|, Concat(Verified(fs)));
    WellFormedAccepted(Verified(fs));
  }

  /** Before it is closed the file is accepted too, as an empty capture: its header says so. */
  lemma OpenFileLooksEmpty(fs: seq<Frame>)
    ensures var r := InspectFile(WriteAll(Decoded(fs)).file);
      Accepts(r, NO_EXPECTATIONS) && r.count == 0 && r.raws == []
  {
    hide VerifyFrame, Header, WriteAll, Decoded, Verified, ObservedAll, ReadingsOf, HeaderMagic, HeaderVersion,
        HeaderCount;
    WrittenSoFar(fs);
    HeaderReads(0, Concat(Verified(fs)));
    ReportOnVerified([]);
  }

  class ZcmFileWriter {
    var file: seq<Byte>
    var position: nat
    var frameCount: nat
    var closed: bool

    ghost function State(): (w: Writer)
      reads this
    {
      Writer(file, position, frameCount, closed)
    }

    constructor ()
      ensures State() == Created()
    {
      hide Header;
      file := Header(0);
      position := HEADER_SIZE;
      frameCount := 0;
      closed := false;
    }

    /** ok is false where the source throws. */
    method WriteRecord(r: Record) returns (ok: bool)
      requires position <= |file|
      modifies this
      ensures position <= |file|
      ensures (if ok then Done(State()) else WriterClosed) == Write(old(State()), r)
      ensures !ok ==> State() == old(State())
    {
      hide Encode;
      if closed {
        return false;
      }
      if !r.crcOk {
        return true;
      }
      file := Overwrite(file, position, Encode(r));
      position := position + 24;
      frameCount := frameCount + 1;
      return true;
    }

    /** Closing again changes nothing. */
    method Close()
      modifies this
      ensures State() == Closed(old(State())) && closed
    {
      hide Header;
      if closed {
        return;
      }
      position := 0;
      var header := Header(frameCount % TWO_TO_THE_64);
      file := Overwrite(file, position, header);
      position := position + |header|;
      closed := true;
    }
  }
}

/** Replaying a capture at its own pace. */
module Replay {
  import opened Bytes
  import opened WireFrame
  import opened StreamScan
  import opened ZcmFile
  import opened Inspect
  import opened FrameBatch

  const ONE_SECOND := 1_000_000_000

  /** The pause between two 32-bit timestamps: their wrapping difference, at most a second. */
  function DeltaNs(prev: U32, next: U32): (d: nat)
    ensures d <= ONE_SECOND
  {
    var d := (next - prev) % TWO_TO_THE_32;
    if d > ONE_SECOND then ONE_SECOND else d
  }

  /** Time slept while replaying: after each frame but the last, unless it failed its check. */
  function Slept(fs: seq<Frame>): (ns: nat)
    decreases |fs|
  {
    if |fs| < 2 then 0
    else
      Slept(fs[..|fs| - 1])
      + (if VerifyFrame(fs[|fs| - 2]) then DeltaNs(TimestampOf(fs[|fs| - 2]), TimestampOf(fs[|fs| - 1])) else 0)
  }

  /** No capture, however damaged, is slept through for more than a second per frame. */
  lemma {:induction false} SleepBound(fs: seq<Frame>)
    ensures fs != [] ==> Slept(fs) <= (|fs| - 1) * ONE_SECOND
    decreases |fs|
  {
    hide VerifyFrame, TimestampOf, DeltaNs;
    if |fs| >= 2 {
      SleepBound(fs[..|fs| - 1]);
    }
  }

  // ----- exactness -----

  /** The full 64-bit times behind the 32 bits that travel in each frame. */
  ghost predicate StampedWith(fs: seq<Frame>, times: seq<U64>) {
    && |times| == |fs|
    && (forall i :: 0 <= i < |fs| ==> TimestampOf(fs[i]) == times[i] % TWO_TO_THE_32)
    && (forall i :: 0 <= i < |times| - 1 ==> times[i] <= times[i + 1])
  }

  ghost predicate StepsWithinSecond(times: seq<U64>) {
    forall i :: 0 <= i < |times| - 1 ==> times[i + 1] as int <= times[i] as int + 1_000_000_000
  }

  /** The pause equals the time that passed exactly when that was at most a second; up to where 32 bits
      wrap it is a second otherwise. */
  lemma DeltaExact(t: U64, u: U64)
    requires t <= u
    ensures DeltaNs(t % TWO_TO_THE_32, u % TWO_TO_THE_32) <= u - t
    ensures DeltaNs(t % TWO_TO_THE_32, u % TWO_TO_THE_32) == u - t <==> u - t <= 1_000_000_000
    ensures 1_000_000_000 <= u - t < 0x1_0000_0000 ==>
      DeltaNs(t % TWO_TO_THE_32, u % TWO_TO_THE_32) == 1_000_000_000
  {
    WrapsAlike(t, u);
    if u - t < TWO_TO_THE_32 {
      NoWrap(u - t);
    }
  }

  lemma NoWrap(d: nat)
    requires d < TWO_TO_THE_32
    ensures d % TWO_TO_THE_32 == d
  {}

  lemma WrapsAlike(t: nat, u: nat)
    requires t <= u
    ensures (u % TWO_TO_THE_32 - t % TWO_TO_THE_32) % TWO_TO_THE_32 == (u - t) % TWO_TO_THE_32 <= u - t
  {}

  /** A capture of verified frames whose times never go back is replayed in exactly the time
      from its first to its last frame, across any number of 32-bit wraps, if and only if no
      two neighbours are more than a second apart; otherwise in less. */
  lemma {:induction false} ReplayTakesCaptureTime(fs: seq<Frame>, times: seq<U64>)
    requires fs != [] && AllVerify(fs) && StampedWith(fs, times)
    ensures Slept(fs) <= Passed(times)
    ensures Slept(fs) == Passed(times) <==> StepsWithinSecond(times)
    decreases |fs|
  {
    hide VerifyFrame, TimestampOf, DeltaNs, StepsWithinSecond;
    if |fs| == 1 {
      NoSteps(times);
    } else {
      var n := |fs| - 1;
      assert fs[n - 1] in fs;
      ShorterCapture(fs, times, n);
      ReplayTakesCaptureTime(fs[..n], times[..n]);
      DeltaExact(times[n - 1], times[n]);
      OneMoreStep(times, n);
    }
  }

  /** Time from each frame that fails its check to the next frame. */
  function AfterBad(fs: seq<Frame>, times: seq<U64>): (ns: int)
    requires |times| == |fs|
    decreases |fs|
  {
    if |fs| < 2 then 0
    else
      var n := |fs| - 1;
      var last: int := times[n];
      AfterBad(fs[..n], times[..n]) + (if VerifyFrame(fs[n - 1]) then 0 else last - times[n - 1])
  }

  /** Damaged frames shorten the replay by exactly the time from each of them to the next frame, in a
      capture with no two neighbours more than a second apart. */
  lemma {:induction false} BadFramesCostTheirPause(fs: seq<Frame>, times: seq<U64>)
    requires fs != [] && StampedWith(fs, times) && StepsWithinSecond(times)
    ensures Slept(fs) + AfterBad(fs, times) == Passed(times)
    decreases |fs|
  {
    hide VerifyFrame, TimestampOf, DeltaNs, StepsWithinSecond;
    if |fs| > 1 {
      var n := |fs| - 1;
      OneMoreStep(times, n);
      BadFramesCostTheirPause(fs[..n], times[..n]);
      DeltaExact(times[n - 1], times[n]);
    }
  }

  /** A capture that runs short: two frames of any sensor, packed two seconds apart, are
      replayed one second apart. */
  lemma ReplayCanRunShort(s: SensorSample)
    ensures var a, b := PackFrame(s.(timestampNs := 0)), PackFrame(s.(timestampNs := 2 * ONE_SECOND));
      && AllVerify([a, b]) && StampedWith([a, b], [0, 2 * ONE_SECOND])
      && Slept([a, b]) == ONE_SECOND && Passed([0, 2 * ONE_SECOND]) == 2 * ONE_SECOND
  {
    hide VerifyFrame, TimestampOf, PackFrame;
    PackRoundTrip(s.(timestampNs := 0));
    PackRoundTrip(s.(timestampNs := 2 * ONE_SECOND));
    var a, b := PackFrame(s.(timestampNs := 0)), PackFrame(s.(timestampNs := 2 * ONE_SECOND));
    assert [a, b][..1] == [a];
  }

  /** Time from the first to the last frame. */
  function Passed(times: seq<U64>): (ns: int)
    requires times != []
  {
    var last: int := times[|times| - 1];
    last - times[0]
  }

  lemma NoSteps(times: seq<U64>)
    requires |times| == 1
    ensures StepsWithinSecond(times)
  {}

  lemma ShorterCapture(fs: seq<Frame>, times: seq<U64>, n: nat)
    requires AllVerify(fs) && StampedWith(fs, times) && n <= |fs|
    ensures AllVerify(fs[..n]) && StampedWith(fs[..n], times[..n])
  {}

  lemma OneMoreStep(times: seq<U64>, n: nat)
    requires 1 <= n && |times| == n + 1 && times[n - 1] <= times[n]
    ensures StepsWithinSecond(times) <==> StepsWithinSecond(times[..n]) && times[n] - times[n - 1] <= ONE_SECOND
  {}

  // ----- the loop -----

  /** Frames that count as failed: bad ones, and those the socket did not take. */
  function Failures(fs: seq<Frame>, accepted: nat -> bool): (n: nat)
    ensures n <= |fs|
    decreases |fs|
  {
    if fs == [] then 0
    else
      var k := |fs| - 1;
      Failures(fs[..k], accepted) + (if VerifyFrame(fs[k]) && accepted(k) then 0 else 1)
  }

  /** Frames that went out as datagrams; accepted(i) is whether the socket takes frame i. */
  function Taken(fs: seq<Frame>, accepted: nat -> bool): (r: seq<Frame>)
    ensures |r| == |fs| - Failures(fs, accepted)
    decreases |fs|
  {
    if fs == [] then []
    else
      var k := |fs| - 1;
      Taken(fs[..k], accepted) + (if VerifyFrame(fs[k]) && accepted(k) then [fs[k]] else [])
  }

  ghost predicate WakesAfter(o: SendOracle, k: nat) {
    exists m: nat :: m >= k && o(m) != 0
  }

  /** The socket never blocks for good. */
  ghost predicate NeverStuck(o: SendOracle) {
    forall k: nat :: WakesAfter(o, k)
  }

  /** Offers the rest of a frame again and again until it is gone or the connection is. */
  method SendFrame(tcp: TcpClient, frame: Frame) returns (ok: bool, ghost part: seq<Byte>)
    requires tcp.Valid() && tcp.logs != [] && NeverStuck(tcp.answers)
    modifies tcp
    ensures tcp.Valid() && ok == tcp.connected && |tcp.logs| == |old(tcp.logs)|
    ensures !old(tcp.connected) ==> tcp.State() == old(tcp.State()) && !ok && part == []
    ensures part < frame && (ok ==> part == [])
    ensures tcp.logs[|tcp.logs| - 1] == old(tcp.logs[|tcp.logs| - 1]) + (if ok then frame else part)
  {
    var off := 0;
    ghost var base := tcp.logs;
    ghost var last := |base| - 1;
    assert WakesAfter(tcp.answers, tcp.sends);
    ghost var wake: nat :| wake >= tcp.sends && tcp.answers(wake) != 0;
    while off < 24
      invariant tcp.Valid() && off <= 24 && |tcp.logs| == |base|
      invariant tcp.logs[last] == base[last] + frame[..off]
      invariant tcp.connected == old(tcp.connected)
      invariant off > 0 ==> tcp.connected
      invariant !tcp.connected ==> tcp.State() == old(tcp.State())
      invariant off < 24 ==> wake >= tcp.sends && tcp.answers(wake) != 0
      decreases 24 - off, wake - tcp.sends
    {
      var n := tcp.SendNb(frame[off..]);
      if n < 0 {
        return false, frame[..off];
      }
      if n == 0 {
        continue;
      }
      assert frame[..off] + frame[off..][..n] == frame[..off + n];
      off := off + n;
      assert WakesAfter(tcp.answers, tcp.sends);
      wake :| wake >= tcp.sends && tcp.answers(wake) != 0;
    }
    return true, [];
  }

  /** What is known after the frames fs: over TCP the connection holds the frames counted as
      sent, and a beginning of one more only once it is gone. */
  ghost predicate SentSoFar(useTcp: bool, accepted: nat -> bool, fs: seq<Frame>, t0: Tcp, t: Tcp, out: seq<Frame>,
      part: seq<Byte>) {
    && AllVerify(out)
    && if useTcp
       then t.logs != [] && |part| < 24 && t.logs[|t.logs| - 1] == Concat(out) + part
            && out <= Verified(fs) && (t.connected ==> part == [] && out == Verified(fs))
       else t == t0 && out == Taken(fs, accepted)
  }

  lemma PassedOver(useTcp: bool, accepted: nat -> bool, fs: seq<Frame>, f: Frame, t0: Tcp, t: Tcp,
      out: seq<Frame>, part: seq<Byte>)
    requires SentSoFar(useTcp, accepted, fs, t0, t, out, part) && !VerifyFrame(f)
    ensures SentSoFar(useTcp, accepted, fs + [f], t0, t, out, part)
  {
    hide VerifyFrame, AllVerify, Concat;
    assert (fs + [f])[..|fs|] == fs;
    assert Verified(fs) + [] == Verified(fs);
  }

  /** One verified frame goes out over the chosen transport. */
  method SendOne(useTcp: bool, tcp: TcpClient, accepted: nat -> bool, k: nat, frame: Frame, ghost fs: seq<Frame>,
      ghost t0: Tcp, ghost out: seq<Frame>, ghost part: seq<Byte>) returns (ok: bool, ghost part': seq<Byte>)
    requires tcp.Valid() && (useTcp ==> NeverStuck(tcp.answers)) && k == |fs| && VerifyFrame(frame)
    requires SentSoFar(useTcp, accepted, fs, t0, tcp.State(), out, part)
    modifies tcp
    ensures tcp.Valid()
    ensures SentSoFar(useTcp, accepted, fs + [frame], t0, tcp.State(), if ok then out + [frame] else out, part')
  {
    hide VerifyFrame, Concat;
    assert (fs + [frame])[..|fs|] == fs;
    part' := part;
    if useTcp {
      ghost var was := tcp.connected;
      ghost var more;
      ok, more := SendFrame(tcp, frame);
      if was && !ok {
        part' := more;
      }
      OneMoreSent(out, frame);
    } else {
      ok := accepted(k);
      assert Taken(fs, accepted) + [] == Taken(fs, accepted);
    }
  }

  /** Over TCP the connection takes, whole and in order, exactly the frames counted as sent, the
      first ones that verify, and a receiver on it decodes exactly those; as datagrams
      exactly the frames counted as sent go out. */
  method ReplayFrames(fs: seq<Frame>, useTcp: bool, tcp: TcpClient, accepted: nat -> bool)
      returns (sent: nat, fail: nat, slept: nat, ghost out: seq<Frame>)
    requires tcp.Valid()
    requires useTcp ==> NeverStuck(tcp.answers) && tcp.connected && tcp.logs[|tcp.logs| - 1] == []
    modifies tcp
    ensures sent + fail == |fs| && sent == |out| && slept == Slept(fs)
    ensures fail == 0 ==> AllVerify(fs) && out == fs
    ensures !useTcp ==> tcp.State() == old(tcp.State()) && out == Taken(fs, accepted)
    ensures useTcp ==> tcp.logs != [] && ScanStream(tcp.logs[|tcp.logs| - 1]).frames == out
    ensures useTcp ==> out <= Verified(fs) && (tcp.connected ==> out == Verified(fs))
  {
    hide VerifyFrame, TimestampOf, DeltaNs, ScanStream, AllVerify, SentSoFar;
    sent, fail, slept, out := 0, 0, 0, [];
    ghost var t0, part := tcp.State(), [];
    NothingSent(useTcp, accepted, t0);
    var i := 0;
    while i < |fs|
      invariant 0 <= i <= |fs|
      invariant tcp.Valid() && SentSoFar(useTcp, accepted, fs[..i], t0, tcp.State(), out, part)
      invariant sent + fail == i && sent == |out|
      invariant slept == Slept(fs[..if i < |fs| then i + 1 else i])
      invariant fail == 0 ==> out == fs[..i]
    {
      assert fs[..i + 1] == fs[..i] + [fs[i]];
      if !VerifyFrame(fs[i]) {
        PassedOver(useTcp, accepted, fs[..i], fs[i], t0, tcp.State(), out, part);
        fail := fail + 1;
      } else {
        var ok;
        ok, part := SendOne(useTcp, tcp, accepted, i, fs[i], fs[..i], t0, out, part);
        if ok {
          sent, out := sent + 1, out + [fs[i]];
        } else {
          fail := fail + 1;
        }
      }
      if i + 1 < |fs| {
        assert fs[..i + 2][..i + 1] == fs[..i + 1];
        if VerifyFrame(fs[i]) {
          slept := slept + DeltaNs(TimestampOf(fs[i]), TimestampOf(fs[i + 1]));
        }
      }
      i := i + 1;
    }
    assert fs[..|fs|] == fs;
    SentInAll(useTcp, accepted, fs, t0, tcp.State(), out, part);
  }

  lemma SentInAll(useTcp: bool, accepted: nat -> bool, fs: seq<Frame>, t0: Tcp, t: Tcp, out: seq<Frame>,
      part: seq<Byte>)
    requires SentSoFar(useTcp, accepted, fs, t0, t, out, part)
    ensures AllVerify(out)
    ensures if useTcp
      then t.logs != [] && ScanStream(t.logs[|t.logs| - 1]).frames == out
           && out <= Verified(fs) && (t.connected ==> out == Verified(fs))
      else t == t0 && out == Taken(fs, accepted)
  {
    hide AllVerify, ScanStream;
    if useTcp {
      CleanStream(out, part);
    }
  }

  lemma NothingSent(useTcp: bool, accepted: nat -> bool, t: Tcp)
    requires useTcp ==> t.logs != [] && t.logs[|t.logs| - 1] == []
    ensures SentSoFar(useTcp, accepted, [], t, t, [], [])
  {}

  lemma OneMoreSent(out: seq<Frame>, f: Frame)
    ensures Concat(out + [f]) + [] == Concat(out) + [] + f
  {
    ConcatAppend(out, [f]);
    assert Concat([f]) == f;
  }

  datatype Loaded = NotAZcmFile | TruncatedFile | Loaded(frames: seq<Frame>)

  /** What the replayer reads before it sends anything. */
  function Load(file: seq<Byte>): (r: Loaded) {
    if |file| < 16 || HeaderMagic(file) != ZCM_MAGIC || HeaderVersion(file) != ZCM_VERSION then NotAZcmFile
    else if |file| - 16 < 24 * HeaderCount(file) then TruncatedFile
    else Loaded(Windows(file[16..], HeaderCount(file)))
  }

  /** The replayer loads a file exactly when the inspector reads it through, and with every
      frame accepted by the socket its exit status is that of a plain inspection. */
  lemma ReplayAgreesWithInspect(file: seq<Byte>)
    ensures Load(file).Loaded? <==> InspectFile(file).Inspected?
    ensures Load(file).Loaded? ==>
      (Failures(Load(file).frames, _ => true) == 0 <==> Accepts(InspectFile(file), NO_EXPECTATIONS))
  {
    hide VerifyFrame, ReportOn, RawsOf, Verified, Windows, HeaderMagic, HeaderVersion, HeaderCount, Accepts;
    if Load(file).Loaded? {
      AcceptedExactly(file);
      NoFailures(Load(file).frames);
    }
  }

  lemma {:induction false} NoFailures(fs: seq<Frame>)
    ensures Failures(fs, _ => true) == 0 <==> AllVerify(fs)
    decreases |fs|
  {
    hide VerifyFrame;
    if fs != [] {
      var k := |fs| - 1;
      NoFailures(fs[..k]);
      assert fs == fs[..k] + [fs[k]];
    }
  }
}

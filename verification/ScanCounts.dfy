/** What the decoders count, said of the bytes alone: refused windows, the leftover, and the bytes
    the Java decoder throws away uncounted. */
module ScanCounts {
  import opened Basics
  import opened Bytes
  import opened WireFrame
  import opened StreamScan
  import opened FrameReceiver
  import opened Decoders
  import opened Analyze

  /** Position j, from i on, has room for a window and starts in no decoded frame. */
  ghost predicate Open(s: seq<Byte>, i: nat, j: int) {
    i <= j <= |s| - 24 && !Covered(Positions(s, i), j)
  }

  /** Positions with a magic whose window did not verify. */
  ghost function Refused(s: seq<Byte>, i: nat): (r: set<int>) {
    set j | i <= j < |s| && Open(s, i, j) && MagicAt(s, j)
  }

  predicate NoMagicFrom(s: seq<Byte>, j: nat) {
    forall k :: j <= k <= |s| - 24 ==> !MagicAt(s, k)
  }

  /** Positions outside frames after which no magic comes any more. */
  ghost function Trailing(s: seq<Byte>, i: nat): (r: set<int>) {
    set j | i <= j < |s| && Open(s, i, j) && NoMagicFrom(s, j)
  }

  lemma {:induction false} CoveredFrom(s: seq<Byte>, i: nat, j: nat)
    requires i <= |s| && Covered(Positions(s, i), j)
    ensures i <= j
    decreases |s| - i
  {
    hide VerifyFrame, Covered;
    if i + 24 <= |s| {
      if Verifies(s, i) {
        CoveredByFirst(i, Positions(s, i + 24), j);
        if j < i {
          CoveredFrom(s, i + 24, j);
        }
      } else {
        CoveredFrom(s, i + 1, j);
      }
    } else {
      NothingCovers(j);
    }
  }

  lemma NothingCovers(j: nat)
    ensures !Covered([], j)
  {}

  /** After a verifying window nothing is open until its end. */
  lemma OpenAfterFrame(s: seq<Byte>, i: nat, j: int)
    requires i + 24 <= |s| && Verifies(s, i)
    ensures Open(s, i, j) <==> Open(s, i + 24, j)
  {
    hide VerifyFrame, Covered;
    if j >= i {
      CoveredByFirst(i, Positions(s, i + 24), j);
    }
  }

  lemma OpenAfterByte(s: seq<Byte>, i: nat, j: int)
    requires i + 24 <= |s| && !Verifies(s, i)
    ensures Open(s, i, j) <==> j == i || Open(s, i + 1, j)
  {
    hide VerifyFrame, Covered;
    if j == i && Covered(Positions(s, i + 1), i) {
      CoveredFrom(s, i + 1, i);
    }
  }

  /** The drop count of a scan is the number of windows outside decoded frames that begin with the
      magic. */
  lemma {:induction false} DropsAreRefused(s: seq<Byte>, i: nat)
    requires i <= |s|
    ensures ScanStream(s[i..]).drops == |Refused(s, i)|
    decreases |s| - i
  {
    hide VerifyFrame, MagicAt, Open;
    var u := s[i..];
    if i + 24 > |s| {
      forall j
        ensures !Open(s, i, j)
      {
        NoRoom(s, i, j);
      }
      assert Refused(s, i) == {};
    } else {
      WindowOf(s, i);
      if Verifies(s, i) {
        DropsAreRefused(s, i + 24);
        forall j
          ensures j in Refused(s, i) <==> j in Refused(s, i + 24)
        {
          OpenAfterFrame(s, i, j);
          RoomFor(s, i + 24, j);
        }
        assert Refused(s, i) == Refused(s, i + 24);
      } else {
        DropsAreRefused(s, i + 1);
        forall j
          ensures j in Refused(s, i) <==> (j == i && MagicAt(s, i)) || j in Refused(s, i + 1)
        {
          OpenAfterByte(s, i, j);
          RoomFor(s, i + 1, j);
        }
        if MagicAt(s, i) {
          assert Refused(s, i) == Refused(s, i + 1) + {i};
          RoomFor(s, i + 1, i);
        } else {
          assert Refused(s, i) == Refused(s, i + 1);
        }
      }
    }
  }

  lemma NoRoom(s: seq<Byte>, i: nat, j: int)
    requires i + 24 > |s|
    ensures !Open(s, i, j)
  {}

  lemma RoomFor(s: seq<Byte>, i: nat, j: int)
    ensures Open(s, i, j) ==> i <= j <= |s| - 24
  {}

  lemma WindowOf(s: seq<Byte>, i: nat)
    requires i + 24 <= |s|
    ensures var u := s[i..];
      && |u| >= 24 && u[..24] == s[i..i + 24] && u[24..] == s[i + 24..] && u[1..] == s[i + 1..]
      && (MagicAt(u, 0) <==> MagicAt(s, i)) && (VerifyFrame(u[..24]) <==> Verifies(s, i))
  {
    hide VerifyFrame;
  }

  // ----- the leftover -----

  /** Where the last decoded frame ends, or i. */
  function LastEnd(ps: seq<nat>, i: nat): (e: nat) {
    if ps == [] then i else ps[|ps| - 1] + 24
  }

  /** A scan keeps back, from the end, what follows the last decoded frame, but no more than 23 bytes. */
  lemma {:induction false} LeftoverIs(s: seq<Byte>, i: nat)
    requires i <= |s|
    ensures LastEnd(Positions(s, i), i) <= |s|
    ensures |ScanStream(s[i..]).rest| == Min(23, |s| - LastEnd(Positions(s, i), i))
    decreases |s| - i
  {
    hide VerifyFrame, MagicAt;
    if i + 24 <= |s| {
      WindowOf(s, i);
      if Verifies(s, i) {
        LeftoverIs(s, i + 24);
        LastEndAfter(i, Positions(s, i + 24));
      } else {
        LeftoverIs(s, i + 1);
      }
    }
  }

  lemma LastEndAfter(i: nat, t: seq<nat>)
    ensures LastEnd([i] + t, i) == LastEnd(t, i + 24)
  {}

  /** Of a whole stream: drops and the length kept back, from the greedy choice of frames alone. */
  lemma ScanCountsAre(s: seq<Byte>)
    ensures ScanStream(s).drops == |Refused(s, 0)|
    ensures LastEnd(Positions(s, 0), 0) <= |s|
    ensures |ScanStream(s).rest| == Min(23, |s| - LastEnd(Positions(s, 0), 0))
  {
    hide ScanStream, Refused, Positions, LastEnd;
    assert s[0..] == s;
    DropsAreRefused(s, 0);
    LeftoverIs(s, 0);
  }

  // ----- bytes thrown away uncounted -----

  /** What a call of the Java decoder throws away uncounted: exactly one byte for each position that has
      room for a window, starts in no decoded frame, and has no magic at or after it. */
  lemma {:induction false} UncountedAre(s: seq<Byte>, i: nat)
    requires i <= |s|
    ensures Uncounted(s[i..]) == |Trailing(s, i)|
    decreases |s| - i
  {
    hide VerifyFrame, MagicAt, Open, NoMagicFrom, NoMagic;
    var u := s[i..];
    if i + 24 > |s| {
      forall j
        ensures !Open(s, i, j)
      {
        NoRoom(s, i, j);
      }
      assert Trailing(s, i) == {};
    } else {
      WindowOf(s, i);
      SameNoMagic(s, i);
      if NoMagic(u) {
        AllTrailing(s, i);
        RangeSize(i - 1, |s| - 23);
      } else if Verifies(s, i) {
        UncountedAre(s, i + 24);
        forall j
          ensures j in Trailing(s, i) <==> j in Trailing(s, i + 24)
        {
          OpenAfterFrame(s, i, j);
          RoomFor(s, i + 24, j);
        }
        assert Trailing(s, i) == Trailing(s, i + 24);
      } else {
        UncountedAre(s, i + 1);
        forall j
          ensures j in Trailing(s, i) <==> j in Trailing(s, i + 1)
        {
          OpenAfterByte(s, i, j);
          RoomFor(s, i + 1, j);
        }
        assert Trailing(s, i) == Trailing(s, i + 1);
      }
    }
  }

  lemma SameNoMagic(s: seq<Byte>, i: nat)
    requires i <= |s|
    ensures NoMagic(s[i..]) <==> NoMagicFrom(s, i)
  {
    hide MagicAt;
    forall j | i <= j <= |s| - 24
      ensures MagicAt(s, j) == MagicAt(s[i..], j - i)
    {
      SameMagic(s, i, j);
    }
    if NoMagicFrom(s, i) {
      forall j | 0 <= j <= |s[i..]| - 24
        ensures !MagicAt(s[i..], j)
      {
        assert MagicAt(s, i + j) == MagicAt(s[i..], i + j - i);
      }
    }
  }

  lemma SameMagic(s: seq<Byte>, i: nat, j: nat)
    requires i <= j <= |s| - 24
    ensures MagicAt(s, j) == MagicAt(s[i..], j - i)
  {}

  lemma AllTrailing(s: seq<Byte>, i: nat)
    requires i + 24 <= |s| && NoMagicFrom(s, i)
    ensures Trailing(s, i) == Range(i - 1, |s| - 23)
  {
    hide VerifyFrame, MagicAt;
    NoMagicNoPositions(s, i);
    forall j | i <= j <= |s| - 24
      ensures Open(s, i, j) && NoMagicFrom(s, j)
    {
      NothingCovers(j);
    }
  }
}

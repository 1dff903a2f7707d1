/** The mesh route of a node: a sticky active hop, hops switched off by a mask, a
    rate-limited probe of the preferred hop and rotation on failure. */
module Router {
  import opened Bytes

  const MAX_FALLBACKS := 3
  const PREFERRED_PROBE_NS := 500_000_000

  datatype Endpoint = Endpoint(host: string, port: U16)

  datatype Route = Route(
    node: U16, hops: seq<Endpoint>, active: nat, mask: Byte,
    attempts: nat, fails: nat, hopOk: seq<nat>, lastProbeNs: U64) {

    /** What every operation keeps. */
    ghost predicate Valid() {
      && 1 <= |hops| <= MAX_FALLBACKS
      && active < |hops|
      && |hopOk| == MAX_FALLBACKS
      && attempts == fails + hopOk[0] + hopOk[1] + hopOk[2]
    }
  }

  /** Bit i of the mask switches hop i off. */
  predicate Masked(mask: Byte, i: nat)
    requires i < 8
  {
    DigitsOf(mask)[i]
  }

  /** Hop i of n hops under a mask. */
  predicate Open(n: nat, mask: Byte, i: nat)
    requires n <= MAX_FALLBACKS
  {
    i < n && !Masked(mask, i)
  }

  predicate Allowed(r: Route, i: nat)
    requires |r.hops| <= MAX_FALLBACKS
  {
    Open(|r.hops|, r.mask, i)
  }

  /** One send: the hop it went to, whether the socket took it, and the datagram. */
  datatype Sent = Sent(hop: nat, accepted: bool, data: seq<Byte>)

  /** What the socket answers to the n-th datagram, sent to a hop. */
  type Net = (nat, nat) -> bool

  datatype Forwarding = Forwarding(route: Route, trace: seq<Sent>, ok: bool)

  /** First allowed hop from i on, or the number of hops. */
  function FirstAllowed(r: Route, i: nat): (k: nat)
    requires |r.hops| <= MAX_FALLBACKS && i <= |r.hops|
    ensures i <= k <= |r.hops|
    ensures k < |r.hops| ==> Allowed(r, k)
    ensures forall j :: i <= j < k ==> !Allowed(r, j)
    decreases |r.hops| - i
  {
    if i == |r.hops| || Allowed(r, i) then i else FirstAllowed(r, i + 1)
  }

  function HopAt(r: Route, step: nat): (i: nat)
    requires r.hops != []
    ensures i < |r.hops|
  {
    (r.active + step) % |r.hops|
  }

  /** After a failure the next allowed hop, the present one last, becomes active. */
  function Advance(r: Route, step: nat): (k: Route)
    requires r.Valid() && 1 <= step
    ensures k == r.(active := k.active) && k.active < |r.hops|
    decreases |r.hops| + 1 - step
  {
    if step > |r.hops| then r
    else if Allowed(r, HopAt(r, step)) then r.(active := HopAt(r, step))
    else Advance(r, step + 1)
  }

  function Delivered(r: Route, hop: nat): (k: Route)
    requires |r.hopOk| == MAX_FALLBACKS && hop < MAX_FALLBACKS
  {
    r.(active := hop, hopOk := r.hopOk[hop := r.hopOk[hop] + 1])
  }

  /** Tries the allowed hops from the active one round, starting `attempt` places on. */
  function Rotate(r: Route, data: seq<Byte>, net: Net, trace: seq<Sent>, attempt: nat): (f: Forwarding)
    requires 1 <= |r.hops| <= MAX_FALLBACKS && r.active < |r.hops| && |r.hopOk| == MAX_FALLBACKS
    decreases |r.hops| - attempt
  {
    if attempt >= |r.hops| then Forwarding(r, trace, false)
    else
      var hop := HopAt(r, attempt);
      if !Allowed(r, hop) then Rotate(r, data, net, trace, attempt + 1)
      else if net(|trace|, hop) then Forwarding(Delivered(r, hop), trace + [Sent(hop, true, data)], true)
      else Rotate(r, data, net, trace + [Sent(hop, false, data)], attempt + 1)
  }

  /** Unsigned 64-bit subtraction. */
  function Since(now: U64, earlier: U64): (r: U64) {
    (now - earlier) % TWO_TO_THE_64
  }

  /** Whether a forward at `now` tries the preferred hop first. */
  predicate Probes(r: Route, now: U64)
    requires |r.hops| <= MAX_FALLBACKS
  {
    && r.active > 0 && Allowed(r, 0)
    && (r.lastProbeNs == 0 || Since(now, r.lastProbeNs) >= PREFERRED_PROBE_NS)
  }

  /** The route with an allowed hop active, if it has one. */
  function Settled(r: Route): (k: Route)
    requires r.Valid()
    ensures k == r.(active := k.active)
    ensures k.active == |r.hops| || Allowed(r, k.active)
    ensures k.active == |r.hops| ==> forall i :: 0 <= i < |r.hops| ==> !Allowed(r, i)
    ensures Allowed(r, r.active) ==> k == r
  {
    if Allowed(r, r.active) then r else r.(active := FirstAllowed(r, 0))
  }

  function Failed(r: Route): (k: Route)
    requires r.active < |r.hops| && 1 <= |r.hops| <= MAX_FALLBACKS && |r.hopOk| == MAX_FALLBACKS
    requires r.attempts == r.fails + 1 + r.hopOk[0] + r.hopOk[1] + r.hopOk[2]
    ensures k.Valid()
  {
    Advance(r.(fails := r.fails + 1), 1)
  }

  function AfterProbe(r: Route, data: seq<Byte>, net: Net, trace: seq<Sent>): (f: Forwarding)
    requires 1 <= |r.hops| <= MAX_FALLBACKS && r.active < |r.hops| && |r.hopOk| == MAX_FALLBACKS
    requires r.attempts == r.fails + 1 + r.hopOk[0] + r.hopOk[1] + r.hopOk[2]
  {
    var f := Rotate(r, data, net, trace, 0);
    if f.ok then f else f.(route := Failed(r))
  }

  /** The probe, if one is due, then the round of hops; r's active hop is allowed. */
  function Pursue(r: Route, now: U64, data: seq<Byte>, net: Net, trace: seq<Sent>): (f: Forwarding)
    requires 1 <= |r.hops| <= MAX_FALLBACKS && r.active < |r.hops| && |r.hopOk| == MAX_FALLBACKS
    requires r.attempts == r.fails + 1 + r.hopOk[0] + r.hopOk[1] + r.hopOk[2]
  {
    if !Probes(r, now) then AfterProbe(r, data, net, trace)
    else
      var p := r.(lastProbeNs := now);
      if net(|trace|, 0) then Forwarding(Delivered(p, 0), trace + [Sent(0, true, data)], true)
      else AfterProbe(p, data, net, trace + [Sent(0, false, data)])
  }

  function Forwarded(r: Route, now: U64, data: seq<Byte>, net: Net, trace: seq<Sent>): (f: Forwarding)
    requires r.Valid()
  {
    var s := Settled(r).(attempts := r.attempts + 1);
    if s.active == |r.hops|
    then Forwarding(r.(attempts := r.attempts + 1, fails := r.fails + 1), trace, false)
    else Pursue(s, now, data, net, trace)
  }

  // ----- one call -----

  predicate Tried(sends: seq<Sent>, hop: nat) {
    exists k :: 0 <= k < |sends| && sends[k].hop == hop
  }

  /** All sends carry the datagram, go to allowed hops and get the answer the socket gave. */
  ghost predicate Honest(r: Route, data: seq<Byte>, net: Net, from: nat, sends: seq<Sent>)
    requires |r.hops| <= MAX_FALLBACKS
  {
    forall k :: 0 <= k < |sends| ==>
      sends[k].data == data && Allowed(r, sends[k].hop) && sends[k].accepted == net(from + k, sends[k].hop)
  }

  /** Only the last send may have been accepted, and it was if and only if `ok`. */
  predicate OneAcceptance(sends: seq<Sent>, ok: bool) {
    && (forall k :: 0 <= k < |sends| - 1 ==> !sends[k].accepted)
    && (ok <==> sends != [] && sends[|sends| - 1].accepted)
  }

  /** How far round the ring a hop lies ahead of the active one. */
  function Ahead(r: Route, hop: nat): (d: nat)
    requires r.active < |r.hops| && hop < |r.hops|
  {
    if hop >= r.active then hop - r.active else hop + |r.hops| - r.active
  }

  /** The sends go round the ring, starting no nearer than `from`, and skip no allowed hop. */
  ghost predicate RoundFrom(r: Route, from: nat, sends: seq<Sent>)
    requires |r.hops| <= MAX_FALLBACKS && r.active < |r.hops|
  {
    && (forall k :: 0 <= k < |sends| ==> sends[k].hop < |r.hops| && from <= Ahead(r, sends[k].hop))
    && (forall j, k :: 0 <= j < k < |sends| ==> Ahead(r, sends[j].hop) < Ahead(r, sends[k].hop))
    && (forall h: nat, k: nat :: k < |sends| && Nearer(r, from, h, sends[k].hop) ==> Tried(sends[..k], h))
  }

  /** h is an allowed hop that the round reaches before `hop`. */
  predicate Nearer(r: Route, from: nat, h: nat, hop: nat)
    requires |r.hops| <= MAX_FALLBACKS && r.active < |r.hops| && hop < |r.hops|
  {
    h < |r.hops| && Allowed(r, h) && from <= Ahead(r, h) < Ahead(r, hop)
  }

  lemma AheadIs(r: Route, h: nat)
    requires 1 <= |r.hops| <= MAX_FALLBACKS && r.active < |r.hops| && h < |r.hops|
    ensures HopAt(r, Ahead(r, h)) == h
  {}

  lemma NoSends(r: Route, from: nat)
    requires |r.hops| <= MAX_FALLBACKS && r.active < |r.hops|
    ensures RoundFrom(r, from, [])
  {}

  lemma AheadOf(r: Route, d: nat)
    requires 1 <= |r.hops| <= MAX_FALLBACKS && r.active < |r.hops| && d < |r.hops|
    ensures Ahead(r, HopAt(r, d)) == d
  {}

  lemma RoundSkips(r: Route, from: nat, sends: seq<Sent>)
    requires 1 <= |r.hops| <= MAX_FALLBACKS && r.active < |r.hops| && from < |r.hops|
    requires RoundFrom(r, from + 1, sends) && !Allowed(r, HopAt(r, from))
    ensures RoundFrom(r, from, sends)
  {
    hide Masked, Tried, HopAt;
    forall h: nat, k: nat | k < |sends| && Nearer(r, from, h, sends[k].hop)
      ensures Nearer(r, from + 1, h, sends[k].hop)
    {
      AheadIs(r, h);
    }
  }

  lemma RoundPrepends(r: Route, data: seq<Byte>, from: nat, rest: seq<Sent>, accepted: bool)
    requires 1 <= |r.hops| <= MAX_FALLBACKS && r.active < |r.hops| && from < |r.hops|
    requires RoundFrom(r, from + 1, rest)
    ensures RoundFrom(r, from, [Sent(HopAt(r, from), accepted, data)] + rest)
  {
    hide Masked, HopAt;
    var hop := HopAt(r, from);
    AheadOf(r, from);
    var all := [Sent(hop, accepted, data)] + rest;
    forall h: nat, k: nat | k < |all| && Nearer(r, from, h, all[k].hop)
      ensures Tried(all[..k], h)
    {
      AheadIs(r, h);
      assert all[..k] == [Sent(hop, accepted, data)] + rest[..k - 1];
      if h == hop {
        assert all[..k][0].hop == h;
      } else {
        assert Nearer(r, from + 1, h, rest[k - 1].hop);
        var i :| 0 <= i < |rest[..k - 1]| && rest[..k - 1][i].hop == h;
        assert all[..k][i + 1] == rest[..k - 1][i];
      }
    }
  }

  /** What Rotate adds to the trace. */
  lemma {:induction false} RotateLaws(r: Route, data: seq<Byte>, net: Net, trace: seq<Sent>, attempt: nat)
      returns (more: seq<Sent>)
    requires 1 <= |r.hops| <= MAX_FALLBACKS && r.active < |r.hops| && |r.hopOk| == MAX_FALLBACKS
    ensures var f := Rotate(r, data, net, trace, attempt);
      && f.trace == trace + more
      && Honest(r, data, net, |trace|, more) && OneAcceptance(more, f.ok)
      && (f.ok ==> f.route == Delivered(r, more[|more| - 1].hop))
      && (!f.ok ==> f.route == r)
      && (!f.ok ==> forall k :: attempt <= k < |r.hops| && Allowed(r, HopAt(r, k)) ==> Tried(more, HopAt(r, k)))
    ensures RoundFrom(r, attempt, more)
    decreases |r.hops| - attempt
  {
    hide Open, Delivered, HopAt, RoundFrom;
    NoSends(r, attempt);
    if attempt >= |r.hops| {
      more := [];
    } else {
      var hop := HopAt(r, attempt);
      if !Allowed(r, hop) {
        more := RotateLaws(r, data, net, trace, attempt + 1);
        RoundSkips(r, attempt, more);
      } else if net(|trace|, hop) {
        more := [Sent(hop, true, data)];
        NoSends(r, attempt + 1);
        RoundPrepends(r, data, attempt, [], true);
        assert more == [Sent(hop, true, data)] + [];
      } else {
        var rest := RotateLaws(r, data, net, trace + [Sent(hop, false, data)], attempt + 1);
        more := [Sent(hop, false, data)] + rest;
        RoundPrepends(r, data, attempt, rest, false);
        AppendAssoc(trace, [Sent(hop, false, data)], rest);
        PrependRefusal(r, data, net, |trace|, hop, rest, Rotate(r, data, net, trace, attempt).ok);
        forall k | attempt <= k < |r.hops| && Allowed(r, HopAt(r, k)) && !Rotate(r, data, net, trace, attempt).ok
          ensures Tried(more, HopAt(r, k))
        {
          TriedPrepend(data, hop, rest, HopAt(r, k));
        }
      }
    }
  }

  lemma TriedPrepend(data: seq<Byte>, hop: nat, rest: seq<Sent>, h: nat)
    requires h == hop || Tried(rest, h)
    ensures Tried([Sent(hop, false, data)] + rest, h)
  {
    var all := [Sent(hop, false, data)] + rest;
    if h == hop {
      assert all[0].hop == h;
    } else {
      var k :| 0 <= k < |rest| && rest[k].hop == h;
      assert all[k + 1] == rest[k];
    }
  }

  lemma PrependRefusal(r: Route, data: seq<Byte>, net: Net, from: nat, hop: nat, rest: seq<Sent>, ok: bool)
    requires |r.hops| <= MAX_FALLBACKS && Allowed(r, hop) && !net(from, hop)
    requires Honest(r, data, net, from + 1, rest) && OneAcceptance(rest, ok)
    ensures Honest(r, data, net, from, [Sent(hop, false, data)] + rest)
    ensures OneAcceptance([Sent(hop, false, data)] + rest, ok)
  {}

  /** Going once round passes every hop. */
  lemma RoundTheRing(r: Route, h: nat) returns (k: nat)
    requires 1 <= |r.hops| <= MAX_FALLBACKS && r.active < |r.hops| && h < |r.hops|
    ensures k < |r.hops| && HopAt(r, k) == h
  {
    k := if h >= r.active then h - r.active else h + |r.hops| - r.active;
  }

  lemma {:induction false} AdvanceAllowed(r: Route, step: nat, k: nat)
    requires r.Valid() && 1 <= step <= k <= |r.hops| && Allowed(r, HopAt(r, k))
    ensures Allowed(r, Advance(r, step).active)
    decreases k - step
  {
    hide Open;
    if !Allowed(r, HopAt(r, step)) {
      AdvanceAllowed(r, step + 1, k);
    }
  }

  /** After a failure the route moves to the next allowed hop round the ring. */
  lemma {:induction false} AdvanceToNext(r: Route, step: nat, k: nat)
    requires r.Valid() && 1 <= step <= k <= |r.hops| && Allowed(r, HopAt(r, k))
    requires forall j :: step <= j < k ==> !Allowed(r, HopAt(r, j))
    ensures Advance(r, step).active == HopAt(r, k)
    decreases k - step
  {
    hide Open;
    if step < k {
      AdvanceToNext(r, step + 1, k);
    }
  }

  /** What a call sends after the probe, if there was one, was refused. */
  ghost predicate Rotated(r: Route, data: seq<Byte>, net: Net, from: nat, more: seq<Sent>, f: Forwarding)
    requires 1 <= |r.hops| <= MAX_FALLBACKS && |r.hopOk| == MAX_FALLBACKS
  {
    && Honest(r, data, net, from, more) && OneAcceptance(more, f.ok)
    && f.route.Valid()
    && f.route == r.(active := f.route.active, fails := f.route.fails, hopOk := f.route.hopOk)
    && (f.ok ==> OkAt(r, more[|more| - 1].hop, f.route))
    && (!f.ok ==> f.route.fails == r.fails + 1 && f.route.hopOk == r.hopOk)
    && (!f.ok ==> forall h :: 0 <= h < |r.hops| && Allowed(r, h) ==> Tried(more, h) && Allowed(r, f.route.active))
  }

  /** A delivery on a hop makes it active and is counted there and nowhere else. */
  predicate OkAt(r: Route, hop: nat, k: Route)
    requires |r.hopOk| == MAX_FALLBACKS
  {
    && hop < MAX_FALLBACKS
    && k.active == hop && k.fails == r.fails && k.hopOk == r.hopOk[hop := r.hopOk[hop] + 1]
  }

  lemma AfterProbeLaws(r: Route, data: seq<Byte>, net: Net, trace: seq<Sent>) returns (more: seq<Sent>)
    requires 1 <= |r.hops| <= MAX_FALLBACKS && r.active < |r.hops| && |r.hopOk| == MAX_FALLBACKS
    requires r.attempts == r.fails + 1 + r.hopOk[0] + r.hopOk[1] + r.hopOk[2]
    ensures AfterProbe(r, data, net, trace).trace == trace + more
    ensures Rotated(r, data, net, |trace|, more, AfterProbe(r, data, net, trace))
    ensures RoundFrom(r, 0, more)
  {
    hide Rotate, Masked, HopAt, Advance, Tried, RoundFrom;
    more := RotateLaws(r, data, net, trace, 0);
    var f := AfterProbe(r, data, net, trace);
    if !f.ok {
      forall h | 0 <= h < |r.hops| && Allowed(r, h)
        ensures Tried(more, h) && Allowed(r, f.route.active)
      {
        var k := RoundTheRing(r, h);
        FailedAllowed(r, h);
      }
    }
  }

  /** After a failure the active hop is an allowed one, if there is any. */
  lemma FailedAllowed(r: Route, h: nat)
    requires 1 <= |r.hops| <= MAX_FALLBACKS && r.active < |r.hops| && |r.hopOk| == MAX_FALLBACKS
    requires r.attempts == r.fails + 1 + r.hopOk[0] + r.hopOk[1] + r.hopOk[2]
    requires h < |r.hops| && Allowed(r, h)
    ensures Allowed(r, Failed(r).active)
  {
    hide Masked;
    var k := RoundTheRing(r, h);
    var r1 := r.(fails := r.fails + 1);
    if k == 0 {
      assert HopAt(r1, |r.hops|) == HopAt(r1, 0) == h;
      AdvanceAllowed(r1, 1, |r.hops|);
    } else {
      AdvanceAllowed(r1, 1, k);
    }
  }

  /** What one call to forward does: every send goes to an allowed hop; success is exactly one
      accepted send, the last, on the hop that is now active; failure means every allowed hop
      was tried and refused in this call. But for the probe the sends go round the ring from the
      active hop, each hop nearer on the way having been tried first. */
  ghost predicate ForwardLaw(r: Route, now: U64, data: seq<Byte>, net: Net, from: nat, more: seq<Sent>, f: Forwarding)
    requires r.Valid()
  {
    && Honest(r, data, net, from, more) && OneAcceptance(more, f.ok)
    && f.route.Valid()
    && f.route.node == r.node && f.route.hops == r.hops && f.route.mask == r.mask
    && f.route.attempts == r.attempts + 1
    && (f.ok ==> OkAt(r, more[|more| - 1].hop, f.route))
    && (!f.ok ==> f.route.fails == r.fails + 1 && f.route.hopOk == r.hopOk)
    && (!f.ok ==> forall h :: 0 <= h < |r.hops| && Allowed(r, h) ==> Tried(more, h) && Allowed(r, f.route.active))
    && f.route.lastProbeNs == (if Probes(Settled(r), now) then now else r.lastProbeNs)
    && (Probes(Settled(r), now) ==> more != [] && more[0].hop == 0)
    && (Settled(r).active < |r.hops| ==> RoundFrom(Settled(r), 0, if Probes(Settled(r), now) then more[1..] else more))
  }

  lemma PursueLaws(r: Route, now: U64, data: seq<Byte>, net: Net, trace: seq<Sent>) returns (more: seq<Sent>)
    requires 1 <= |r.hops| <= MAX_FALLBACKS && r.active < |r.hops| && |r.hopOk| == MAX_FALLBACKS
    requires r.attempts == r.fails + 1 + r.hopOk[0] + r.hopOk[1] + r.hopOk[2]
    ensures var f := Pursue(r, now, data, net, trace);
      && f.trace == trace + more
      && Rotated(if Probes(r, now) then r.(lastProbeNs := now) else r, data, net, |trace|, more, f)
      && (Probes(r, now) ==> more != [] && more[0].hop == 0)
    ensures RoundFrom(r, 0, if Probes(r, now) then more[1..] else more)
  {
    hide Masked, AfterProbe, Tried, Since, RoundFrom;
    NoSends(r, 0);
    if !Probes(r, now) {
      more := AfterProbeLaws(r, data, net, trace);
    } else {
      var p := r.(lastProbeNs := now);
      if net(|trace|, 0) {
        more := [Sent(0, true, data)];
        assert more[1..] == [];
      } else {
        var rest := AfterProbeLaws(p, data, net, trace + [Sent(0, false, data)]);
        more := [Sent(0, false, data)] + rest;
        AppendAssoc(trace, [Sent(0, false, data)], rest);
        ProbeRefused(p, data, net, trace, rest);
        SameRound(p, r, rest);
      }
    }
  }

  lemma SameRound(p: Route, r: Route, sends: seq<Sent>)
    requires |r.hops| <= MAX_FALLBACKS && r.active < |r.hops|
    requires p.hops == r.hops && p.active == r.active && p.mask == r.mask && RoundFrom(p, 0, sends)
    ensures RoundFrom(r, 0, sends)
  {
    hide Masked, Tried;
    forall h: nat, k: nat | k < |sends| && Nearer(r, 0, h, sends[k].hop)
      ensures Nearer(p, 0, h, sends[k].hop)
    {}
  }

  lemma ProbeRefused(p: Route, data: seq<Byte>, net: Net, trace: seq<Sent>, rest: seq<Sent>)
    requires 1 <= |p.hops| <= MAX_FALLBACKS && |p.hopOk| == MAX_FALLBACKS && Allowed(p, 0) && !net(|trace|, 0)
    requires p.active < |p.hops| && p.attempts == p.fails + 1 + p.hopOk[0] + p.hopOk[1] + p.hopOk[2]
    requires var f := AfterProbe(p, data, net, trace + [Sent(0, false, data)]);
      Rotated(p, data, net, |trace| + 1, rest, f)
    ensures var f := AfterProbe(p, data, net, trace + [Sent(0, false, data)]);
      Rotated(p, data, net, |trace|, [Sent(0, false, data)] + rest, f)
  {
    hide Masked, AfterProbe, Tried, Honest;
    var f := AfterProbe(p, data, net, trace + [Sent(0, false, data)]);
    PrependRefusal(p, data, net, |trace|, 0, rest, f.ok);
    forall h | Tried(rest, h)
      ensures Tried([Sent(0, false, data)] + rest, h)
    {
      TriedPrepend(data, 0, rest, h);
    }
  }

  lemma ForwardLaws(r: Route, now: U64, data: seq<Byte>, net: Net, trace: seq<Sent>)
    requires r.Valid()
    ensures var f := Forwarded(r, now, data, net, trace);
      trace <= f.trace && ForwardLaw(r, now, data, net, |trace|, f.trace[|trace|..], f)
  {
    hide Masked, Pursue, Tried, Since, RoundFrom, Honest, OneAcceptance;
    var f := Forwarded(r, now, data, net, trace);
    var s := Settled(r).(attempts := r.attempts + 1);
    if s.active == |r.hops| {
      assert f.trace[|trace|..] == [];
      NothingSent(r, data, net, |trace|);
    } else {
      var more := PursueLaws(s, now, data, net, trace);
      assert f.trace[|trace|..] == more;
      SameRound(s, Settled(r), if Probes(s, now) then more[1..] else more);
      SameHonesty(if Probes(s, now) then s.(lastProbeNs := now) else s, r, data, net, |trace|, more);
    }
  }

  lemma NothingSent(r: Route, data: seq<Byte>, net: Net, from: nat)
    requires |r.hops| <= MAX_FALLBACKS
    ensures Honest(r, data, net, from, []) && OneAcceptance([], false)
  {}

  lemma SameHonesty(p: Route, r: Route, data: seq<Byte>, net: Net, from: nat, sends: seq<Sent>)
    requires |r.hops| <= MAX_FALLBACKS && p.hops == r.hops && p.mask == r.mask
    requires Honest(p, data, net, from, sends)
    ensures Honest(r, data, net, from, sends)
  {
    hide Masked;
  }

  lemma ForwardKeepsValid(r: Route, now: U64, data: seq<Byte>, net: Net, trace: seq<Sent>)
    requires r.Valid()
    ensures Forwarded(r, now, data, net, trace).route.Valid()
  {
    hide Forwarded, RoundFrom, Honest, OneAcceptance, Tried, Probes, Settled;
    ForwardLaws(r, now, data, net, trace);
  }

  // ----- where a call starts and where it leaves the route, from the route's own fields -----

  /** Bit i of the mask. */
  lemma MaskBits(mask: Byte)
    ensures Masked(mask, 0) <==> mask & 1 != 0
    ensures Masked(mask, 1) <==> mask & 2 != 0
    ensures Masked(mask, 2) <==> mask & 4 != 0
  {}

  /** h is the lowest-numbered allowed hop. */
  ghost predicate Lowest(r: Route, h: nat)
    requires |r.hops| <= MAX_FALLBACKS
  {
    Allowed(r, h) && forall j: nat :: j < h ==> !Allowed(r, j)
  }

  /** h is where the round of a call starts: the active hop, or the lowest allowed if that is not. */
  ghost predicate StartsAt(r: Route, h: nat)
    requires |r.hops| <= MAX_FALLBACKS
  {
    Allowed(r, h) && (if Allowed(r, r.active) then h == r.active else Lowest(r, h))
  }

  /** A probe of hop 0 is due: another hop is active and allowed, hop 0 is allowed, and it was never
      probed or not in the last half second. */
  predicate ProbeDue(r: Route, now: U64)
    requires |r.hops| <= MAX_FALLBACKS
  {
    && r.active > 0 && Allowed(r, r.active) && Allowed(r, 0)
    && (r.lastProbeNs == 0 || (now - r.lastProbeNs) % 0x1_0000_0000_0000_0000 >= 500_000_000)
  }

  /** The hop the sends of a round begin with. */
  lemma RoundBegins(r: Route, h: nat, sends: seq<Sent>)
    requires |r.hops| <= MAX_FALLBACKS && h < |r.hops| && Allowed(r, h) && sends != []
    requires RoundFrom(r.(active := h), 0, sends)
    ensures sends[0].hop == h
  {
    hide Masked;
    var k := r.(active := h);
    assert !Tried(sends[..0], h);
    assert !Nearer(k, 0, h, sends[0].hop);
  }

  lemma SettledIs(r: Route, now: U64)
    requires r.Valid()
    ensures Probes(Settled(r), now) <==> ProbeDue(r, now)
    ensures forall h: nat :: StartsAt(r, h) ==> Settled(r) == r.(active := h)
  {
    hide Masked;
  }

  /** The first send goes to hop 0 if a probe is due and otherwise to the active hop, or to the
      lowest-numbered allowed one if the active hop is not allowed; but for the probe the
      sends go round the ring from there. */
  lemma ForwardStarts(r: Route, now: U64, data: seq<Byte>, net: Net, trace: seq<Sent>, h: nat)
    requires r.Valid() && StartsAt(r, h)
    ensures var f := Forwarded(r, now, data, net, trace);
      && trace <= f.trace
      && var more := f.trace[|trace|..];
      more != [] &&
      var round := if ProbeDue(r, now) then more[1..] else more;
      && more[0].hop == (if ProbeDue(r, now) then 0 else h)
      && RoundFrom(r.(active := h), 0, round) && (round != [] ==> round[0].hop == h)
      && f.route.lastProbeNs == (if ProbeDue(r, now) then now else r.lastProbeNs)
  {
    hide Forwarded, Masked, Settled, Probes, ProbeDue, RoundFrom, Honest;
    ForwardLaws(r, now, data, net, trace);
    SettledIs(r, now);
    var f := Forwarded(r, now, data, net, trace);
    var more := f.trace[|trace|..];
    assert !Tried([], h);
    var round := if ProbeDue(r, now) then more[1..] else more;
    if round != [] {
      RoundBegins(r, h, round);
    }
  }

  function Place(r: Route, h: nat, k: nat): (i: nat)
    requires r.hops != []
  {
    (h + k) % |r.hops|
  }

  /** k places round the ring from h is the next allowed hop, h itself the last to come. */
  ghost predicate NextAllowed(r: Route, h: nat, k: nat)
    requires 1 <= |r.hops| <= MAX_FALLBACKS
  {
    && 1 <= k <= |r.hops| && Allowed(r, Place(r, h, k))
    && forall j :: 1 <= j < k ==> !Allowed(r, Place(r, h, j))
  }

  /** After a failed call the allowed hop next round the ring from where it started is active; with
      no hop allowed the route stays where it was. */
  lemma ForwardFailsOver(r: Route, now: U64, data: seq<Byte>, net: Net, trace: seq<Sent>)
    requires r.Valid() && !Forwarded(r, now, data, net, trace).ok
    ensures var f := Forwarded(r, now, data, net, trace);
      && (forall h: nat, k: nat :: StartsAt(r, h) && NextAllowed(r, h, k) ==> f.route.active == Place(r, h, k))
      && ((forall i: nat :: !Allowed(r, i)) ==> f.route.active == r.active && f.trace == trace)
  {
    hide Masked, Rotate, Probes, Delivered, Advance;
    var f := Forwarded(r, now, data, net, trace);
    var s := Settled(r).(attempts := r.attempts + 1);
    forall h: nat, k: nat | StartsAt(r, h) && NextAllowed(r, h, k)
      ensures f.route.active == Place(r, h, k)
    {
      FailedRoute(s, now, data, net, trace);
      SameNext(r, s, h, k);
      AdvancesTo(s, f.route.active, k);
    }
  }

  lemma SameNext(r: Route, s: Route, h: nat, k: nat)
    requires 1 <= |r.hops| <= MAX_FALLBACKS && s.hops == r.hops && s.mask == r.mask && NextAllowed(r, h, k)
    ensures NextAllowed(s, h, k)
  {
    hide Masked;
    forall j | 1 <= j < k
      ensures !Allowed(s, Place(s, h, j))
    {
      assert !Allowed(r, Place(r, h, j));
    }
  }

  lemma FailedRoute(s: Route, now: U64, data: seq<Byte>, net: Net, trace: seq<Sent>)
    requires 1 <= |s.hops| <= MAX_FALLBACKS && s.active < |s.hops| && |s.hopOk| == MAX_FALLBACKS
    requires s.attempts == s.fails + 1 + s.hopOk[0] + s.hopOk[1] + s.hopOk[2]
    requires !Pursue(s, now, data, net, trace).ok
    ensures Pursue(s, now, data, net, trace).route.active == Failed(s).active
  {
    hide Masked, Rotate, Probes, Delivered, Advance;
    if Probes(s, now) {
      SameAdvance(s.(fails := s.fails + 1), s.(fails := s.fails + 1, lastProbeNs := now), 1);
    }
  }

  lemma {:induction false} SameAdvance(r: Route, k: Route, step: nat)
    requires r.Valid() && k.Valid() && 1 <= step
    requires r.hops == k.hops && r.active == k.active && r.mask == k.mask
    ensures Advance(r, step).active == Advance(k, step).active
    decreases |r.hops| + 1 - step
  {
    hide Masked;
    if step <= |r.hops| {
      SameAdvance(r, k, step + 1);
    }
  }

  lemma AdvancesTo(s: Route, active: nat, k: nat)
    requires 1 <= |s.hops| <= MAX_FALLBACKS && s.active < |s.hops| && |s.hopOk| == MAX_FALLBACKS
    requires s.attempts == s.fails + 1 + s.hopOk[0] + s.hopOk[1] + s.hopOk[2]
    requires NextAllowed(s, s.active, k) && active == Failed(s).active
    ensures active == Place(s, s.active, k)
  {
    hide Masked, Advance;
    var p := s.(fails := s.fails + 1);
    forall j | 1 <= j <= k
      ensures HopAt(p, j) == Place(s, s.active, j)
    {}
    forall j | 1 <= j < k
      ensures !Allowed(p, HopAt(p, j))
    {
      assert !Allowed(s, Place(s, s.active, j));
    }
    AdvanceToNext(p, 1, k);
  }

  /** A round that ends without a delivery changes nothing. */
  lemma RotateFails(r: Route, data: seq<Byte>, net: Net, trace: seq<Sent>)
    requires 1 <= |r.hops| <= MAX_FALLBACKS && r.active < |r.hops| && |r.hopOk| == MAX_FALLBACKS
    ensures !Rotate(r, data, net, trace, 0).ok ==> Rotate(r, data, net, trace, 0).route == r
  {
    hide Rotate;
    var more := RotateLaws(r, data, net, trace, 0);
  }

  // ----- whole runs -----

  datatype RouteEvent = Forward(now: U64, data: seq<Byte>) | SetMask(mask: Byte)

  /** probes: when the preferred hop was probed. */
  datatype Progress = Progress(route: Route, trace: seq<Sent>, probes: seq<U64>)

  function NewRoute(node: U16, hops: seq<Endpoint>): (r: Route) {
    Route(node, hops, 0, 0, 0, 0, [0, 0, 0], 0)
  }

  function RouteStep(p: Progress, net: Net, ev: RouteEvent): (q: Progress)
    requires p.route.Valid()
    ensures q.route.Valid() && q.route.hops == p.route.hops
    ensures p.trace <= q.trace
  {
    match ev
    case SetMask(mask) => p.(route := p.route.(mask := mask))
    case Forward(now, data) =>
      ForwardLaws(p.route, now, data, net, p.trace);
      var f := Forwarded(p.route, now, data, net, p.trace);
      Progress(f.route, f.trace, p.probes + (if Probes(Settled(p.route), now) then [now] else []))
  }

  function RouteRun(node: U16, hops: seq<Endpoint>, net: Net, evs: seq<RouteEvent>): (p: Progress)
    requires 1 <= |hops| <= MAX_FALLBACKS
    ensures p.route.Valid() && p.route.hops == hops
    decreases |evs|
  {
    if evs == [] then Progress(NewRoute(node, hops), [], [])
    else RouteStep(RouteRun(node, hops, net, evs[..|evs| - 1]), net, evs[|evs| - 1])
  }

  // ----- deliveries are counted where they happened -----

  predicate TakenBy(s: Sent, hop: nat) {
    s.accepted && s.hop == hop
  }

  function AcceptedOn(trace: seq<Sent>, hop: nat): (n: nat) {
    if trace == [] then 0
    else AcceptedOn(trace[..|trace| - 1], hop) + (if TakenBy(trace[|trace| - 1], hop) then 1 else 0)
  }

  lemma AcceptedMore(trace: seq<Sent>, more: seq<Sent>, ok: bool, hop: nat)
    requires OneAcceptance(more, ok)
    ensures AcceptedOn(trace + more, hop)
         == AcceptedOn(trace, hop) + (if ok && more[|more| - 1].hop == hop then 1 else 0)
  {
    if more == [] {
      assert trace + more == trace;
    } else {
      var n := |more| - 1;
      assert (trace + more)[..|trace + more| - 1] == trace + more[..n];
      assert (trace + more)[|trace + more| - 1] == more[n];
      AcceptedNone(trace, more[..n], hop);
    }
  }

  lemma {:induction false} AcceptedNone(trace: seq<Sent>, more: seq<Sent>, hop: nat)
    requires forall k :: 0 <= k < |more| ==> !more[k].accepted
    ensures AcceptedOn(trace + more, hop) == AcceptedOn(trace, hop)
    decreases |more|
  {
    if more == [] {
      assert trace + more == trace;
    } else {
      var n := |more| - 1;
      assert (trace + more)[..|trace + more| - 1] == trace + more[..n];
      AcceptedNone(trace, more[..n], hop);
    }
  }

  /** Over any run, whatever the mask changes: the counter of each hop is the number of
      datagrams it accepted, and every attempt is a failure or one of these. */
  lemma {:induction false} HopCountersAreDeliveries(node: U16, hops: seq<Endpoint>, net: Net, evs: seq<RouteEvent>,
      hop: nat)
    requires 1 <= |hops| <= MAX_FALLBACKS && hop < MAX_FALLBACKS
    ensures var p := RouteRun(node, hops, net, evs);
      && p.route.hopOk[hop] == AcceptedOn(p.trace, hop)
      && p.route.attempts == p.route.fails + p.route.hopOk[0] + p.route.hopOk[1] + p.route.hopOk[2]
      && p.route.active < |hops|
    decreases |evs|
  {
    hide Forwarded, Masked, Probes, Settled, AcceptedOn, RoundFrom, Honest, Tried, OneAcceptance;
    if evs == [] {
      NoneAccepted(hop);
    } else {
      HopCountersAreDeliveries(node, hops, net, evs[..|evs| - 1], hop);
      var p := RouteRun(node, hops, net, evs[..|evs| - 1]);
      match evs[|evs| - 1]
      case SetMask(mask) =>
      case Forward(now, data) =>
        ForwardLaws(p.route, now, data, net, p.trace);
        var f := Forwarded(p.route, now, data, net, p.trace);
        var more := f.trace[|p.trace|..];
        assert f.trace == p.trace + more;
        AcceptedMore(p.trace, more, f.ok, hop);
    }
  }

  lemma NoneAccepted(hop: nat)
    ensures AcceptedOn([], hop) == 0
  {}

  // ----- probes of the preferred hop -----

  ghost predicate Timed(evs: seq<RouteEvent>) {
    && (forall i :: 0 <= i < |evs| && evs[i].Forward? ==> evs[i].now > 0)
    && (forall i, j :: 0 <= i < j < |evs| && evs[i].Forward? && evs[j].Forward? ==> evs[i].now <= evs[j].now)
  }

  ghost predicate Spaced(probes: seq<U64>) {
    forall i :: 0 <= i < |probes| - 1 ==> probes[i + 1] as int >= probes[i] as int + 500_000_000
  }

  /** The last probe is remembered, and it was not later than any forward still to come. */
  ghost predicate Remembers(p: Progress, evs: seq<RouteEvent>) {
    && (p.probes == [] ==> p.route.lastProbeNs == 0)
    && (p.probes != [] ==>
        && p.route.lastProbeNs == p.probes[|p.probes| - 1] > 0
        && exists i :: 0 <= i < |evs| && evs[i].Forward? && evs[i].now == p.route.lastProbeNs)
  }

  /** With a clock that never goes back and is never zero, two probes of the preferred hop
      are at least half a second apart. */
  lemma {:induction false} ProbesSpaced(node: U16, hops: seq<Endpoint>, net: Net, evs: seq<RouteEvent>)
    requires 1 <= |hops| <= MAX_FALLBACKS && Timed(evs)
    ensures Spaced(RouteRun(node, hops, net, evs).probes)
    ensures Remembers(RouteRun(node, hops, net, evs), evs)
    decreases |evs|
  {
    hide RouteStep, Spaced, Remembers;
    if evs == [] {
      NoProbes(node, hops);
    } else {
      var before := evs[..|evs| - 1];
      ProbesSpaced(node, hops, net, before);
      var p := RouteRun(node, hops, net, before);
      match evs[|evs| - 1]
      case SetMask(mask) =>
        MaskProbes(p, net, mask);
        RemembersLater(p, before, evs, RouteStep(p, net, SetMask(mask)));
      case Forward(now, data) =>
        ForwardProbes(p, net, now, data, evs);
    }
  }

  lemma NoProbes(node: U16, hops: seq<Endpoint>)
    ensures Spaced([]) && Remembers(Progress(NewRoute(node, hops), [], []), [])
  {}

  lemma MaskProbes(p: Progress, net: Net, mask: Byte)
    requires p.route.Valid()
    ensures var q := RouteStep(p, net, SetMask(mask));
      q.probes == p.probes && q.route.lastProbeNs == p.route.lastProbeNs
  {}

  lemma ProbeEffect(p: Progress, net: Net, now: U64, data: seq<Byte>)
    requires p.route.Valid()
    ensures var q := RouteStep(p, net, Forward(now, data));
      || (q.probes == p.probes && q.route.lastProbeNs == p.route.lastProbeNs)
      || (&& q.probes == p.probes + [now] && q.route.lastProbeNs == now
          && (p.route.lastProbeNs == 0 || Since(now, p.route.lastProbeNs) >= PREFERRED_PROBE_NS))
  {
    hide Forwarded, Masked, Settled, Since, Honest, OneAcceptance, Tried;
    ForwardLaws(p.route, now, data, net, p.trace);
  }

  lemma ForwardProbes(p: Progress, net: Net, now: U64, data: seq<Byte>, evs: seq<RouteEvent>)
    requires p.route.Valid() && evs != [] && evs[|evs| - 1] == Forward(now, data)
    requires Timed(evs) && Spaced(p.probes) && Remembers(p, evs[..|evs| - 1])
    ensures var q := RouteStep(p, net, Forward(now, data)); Spaced(q.probes) && Remembers(q, evs)
  {
    hide RouteStep;
    var before := evs[..|evs| - 1];
    var q := RouteStep(p, net, Forward(now, data));
    ProbeEffect(p, net, now, data);
    if q.probes == p.probes {
      RemembersLater(p, before, evs, q);
    } else {
      assert q.probes == p.probes + [now];
      if p.probes != [] {
        var i :| 0 <= i < |before| && before[i].Forward? && before[i].now == p.route.lastProbeNs;
        assert evs[i] == before[i];
        SinceForward(now, p.route.lastProbeNs);
      }
    }
  }

  lemma SinceForward(now: U64, before: U64)
    requires before <= now
    ensures Since(now, before) == now - before
  {}

  lemma RemembersLater(p: Progress, before: seq<RouteEvent>, evs: seq<RouteEvent>, q: Progress)
    requires Remembers(p, before) && before <= evs
    requires q.probes == p.probes && q.route.lastProbeNs == p.route.lastProbeNs
    ensures Remembers(q, evs)
  {}

  // ----- recovery of the preferred hop -----

  /** From event m on the time is at least t, hop 0 is never masked and takes every datagram. */
  ghost predicate HealthyFrom(node: U16, hops: seq<Endpoint>, net: Net, evs: seq<RouteEvent>, m: nat, t: U64)
    requires 1 <= |hops| <= MAX_FALLBACKS && m <= |evs|
  {
    && 0 < t
    && (forall i :: 0 <= i < m && evs[i].Forward? ==> evs[i].now < t)
    && (forall i :: m <= i < |evs| && evs[i].Forward? ==> evs[i].now >= t)
    && (forall i :: m <= i < |evs| && evs[i].SetMask? ==> !Masked(evs[i].mask, 0))
    && !Masked(RouteRun(node, hops, net, evs[..m]).route.mask, 0)
    && (forall n :: n >= |RouteRun(node, hops, net, evs[..m]).trace| ==> net(n, 0))
  }

  /** Either back on hop 0, or not yet probed since t. */
  ghost predicate Recovering(p: Progress, t: U64) {
    !Masked(p.route.mask, 0) && (p.route.active == 0 || p.route.lastProbeNs < t)
  }

  lemma HealthyAccepts(r: Route, data: seq<Byte>, net: Net, from: nat, more: seq<Sent>, ok: bool)
    requires |r.hops| <= MAX_FALLBACKS
    requires Honest(r, data, net, from, more) && OneAcceptance(more, ok) && Tried(more, 0)
    requires forall n :: n >= from ==> net(n, 0)
    ensures ok
  {}

  /** One forward while hop 0 is healthy. */
  lemma HealthyForward(p: Progress, now: U64, data: seq<Byte>, net: Net, t: U64)
    requires p.route.Valid() && Recovering(p, t) && 0 < t <= now
    requires forall n :: n >= |p.trace| ==> net(n, 0)
    ensures var f := Forwarded(p.route, now, data, net, p.trace);
      && f.ok
      && (f.route.active == 0 || f.route.lastProbeNs < t)
      && (now >= t + PREFERRED_PROBE_NS ==> f.route.active == 0)
  {
    hide Masked;
    var r := p.route;
    ForwardLaws(r, now, data, net, p.trace);
    var f := Forwarded(r, now, data, net, p.trace);
    var more := f.trace[|p.trace|..];
    assert Allowed(r, 0);
    if !f.ok {
      HealthyAccepts(r, data, net, |p.trace|, more, false);
    }
    if r.active == 0 {
      assert HopAt(r, 0) == 0;
    } else if r.lastProbeNs < t {
      SinceForward(now, r.lastProbeNs);
    }
  }

  lemma {:induction false} StaysRecovering(node: U16, hops: seq<Endpoint>, net: Net, evs: seq<RouteEvent>, m: nat,
      t: U64)
    requires 1 <= |hops| <= MAX_FALLBACKS && m <= |evs|
    requires HealthyFrom(node, hops, net, evs, m, t)
    requires Timed(evs)
    ensures Recovering(RouteRun(node, hops, net, evs), t)
    ensures |RouteRun(node, hops, net, evs[..m]).trace| <= |RouteRun(node, hops, net, evs).trace|
    decreases |evs|
  {
    hide Masked, RouteStep, Timed;
    if m == |evs| {
      assert evs[..m] == evs;
      NotProbedSince(node, hops, net, evs, m, t);
    } else {
      var before := evs[..|evs| - 1];
      HealthyEarlier(node, hops, net, evs, m, t);
      StaysRecovering(node, hops, net, before, m, t);
      assert before[..m] == evs[..m];
      var p := RouteRun(node, hops, net, before);
      HealthyStep(p, net, evs[|evs| - 1], t);
    }
  }

  lemma NotProbedSince(node: U16, hops: seq<Endpoint>, net: Net, evs: seq<RouteEvent>, m: nat, t: U64)
    requires 1 <= |hops| <= MAX_FALLBACKS && m == |evs| && evs[..m] == evs
    requires HealthyFrom(node, hops, net, evs, m, t) && Timed(evs)
    ensures Recovering(RouteRun(node, hops, net, evs), t)
  {
    hide Masked, RouteRun;
    ProbesSpaced(node, hops, net, evs);
    var p := RouteRun(node, hops, net, evs);
    if p.probes != [] {
      var i :| 0 <= i < |evs| && evs[i].Forward? && evs[i].now == p.route.lastProbeNs;
    }
  }

  lemma HealthyEarlier(node: U16, hops: seq<Endpoint>, net: Net, evs: seq<RouteEvent>, m: nat, t: U64)
    requires 1 <= |hops| <= MAX_FALLBACKS && m < |evs|
    requires HealthyFrom(node, hops, net, evs, m, t) && Timed(evs)
    ensures HealthyFrom(node, hops, net, evs[..|evs| - 1], m, t) && Timed(evs[..|evs| - 1])
  {
    hide Masked, RouteRun;
    assert evs[..|evs| - 1][..m] == evs[..m];
  }

  lemma HealthyStep(p: Progress, net: Net, ev: RouteEvent, t: U64)
    requires p.route.Valid() && Recovering(p, t) && 0 < t
    requires ev.Forward? ==> ev.now >= t
    requires ev.SetMask? ==> !Masked(ev.mask, 0)
    requires forall n :: n >= |p.trace| ==> net(n, 0)
    ensures Recovering(RouteStep(p, net, ev), t)
    ensures |p.trace| <= |RouteStep(p, net, ev).trace|
  {
    hide Masked, Forwarded, Settled, Probes, Honest, OneAcceptance, Tried;
    match ev
    case SetMask(mask) =>
    case Forward(now, data) =>
      HealthyForward(p, now, data, net, t);
      ForwardLaws(p.route, now, data, net, p.trace);
  }

  /** Once hop 0 has been healthy for half a second, every forward succeeds and leaves the
      route on hop 0, and so it stays while hop 0 stays healthy. */
  lemma PreferredHopRecovers(node: U16, hops: seq<Endpoint>, net: Net, evs: seq<RouteEvent>, m: nat, t: U64, now: U64,
      data: seq<Byte>)
    requires 1 <= |hops| <= MAX_FALLBACKS && m <= |evs|
    requires Timed(evs + [Forward(now, data)])
    requires HealthyFrom(node, hops, net, evs, m, t)
    requires now >= t + 500_000_000
    ensures var p := RouteRun(node, hops, net, evs);
      var f := Forwarded(p.route, now, data, net, p.trace);
      f.ok && f.route.active == 0
  {
    hide Masked, Forwarded;
    assert (evs + [Forward(now, data)])[..|evs|] == evs;
    TimedBefore(evs + [Forward(now, data)], |evs|);
    StaysRecovering(node, hops, net, evs, m, t);
    HealthyForward(RouteRun(node, hops, net, evs), now, data, net, t);
  }

  lemma TimedBefore(evs: seq<RouteEvent>, n: nat)
    requires n <= |evs| && Timed(evs)
    ensures Timed(evs[..n])
  {}

  // ----- a whole batch -----

  /** parts: for each frame its own stretch of the trace; oks: what its forward answered. */
  datatype BatchRun = BatchRun(end: Progress, parts: seq<seq<Sent>>, oks: seq<bool>)

  /** The frames of a batch forwarded one after the other at the same time, as a mesh flush does. */
  function ForwardEach(p: Progress, net: Net, now: U64, batch: seq<seq<Byte>>): (q: BatchRun)
    requires p.route.Valid()
    ensures q.end.route.Valid() && q.end.route.hops == p.route.hops
    ensures |q.parts| == |q.oks| == |batch|
    decreases |batch|
  {
    if batch == [] then BatchRun(p, [], [])
    else
      var n := |batch| - 1;
      var b := ForwardEach(p, net, now, batch[..n]);
      var end := RouteStep(b.end, net, Forward(now, batch[n]));
      BatchRun(end, b.parts + [end.trace[|b.end.trace|..]],
               b.oks + [Forwarded(b.end.route, now, batch[n], net, b.end.trace).ok])
  }

  function Joined(parts: seq<seq<Sent>>): (r: seq<Sent>) {
    if parts == [] then [] else Joined(parts[..|parts| - 1]) + parts[|parts| - 1]
  }

  /** How many forwards said yes. */
  function Yes(oks: seq<bool>): (n: nat)
    ensures n <= |oks|
  {
    if oks == [] then 0 else Yes(oks[..|oks| - 1]) + (if oks[|oks| - 1] then 1 else 0)
  }

  /** What happens to one frame: its sends carry it and nothing else, to allowed hops; if its
      forward says yes exactly one hop accepted it, with the last send, otherwise none did,
      and every allowed hop was tried. */
  ghost predicate FrameLaw(r: Route, frame: seq<Byte>, sends: seq<Sent>, ok: bool)
    requires |r.hops| <= MAX_FALLBACKS
  {
    && (forall k :: 0 <= k < |sends| ==> sends[k].data == frame && Allowed(r, sends[k].hop))
    && OneAcceptance(sends, ok)
    && (!ok ==> forall h :: 0 <= h < |r.hops| && Allowed(r, h) ==> Tried(sends, h))
  }

  /** The trace of a batch is one stretch for each of its frames, in order, and the route's
      counters say how many forwards failed and how many hops accepted. */
  ghost predicate BatchLaw(p: Progress, batch: seq<seq<Byte>>, q: BatchRun)
    requires |p.route.hops| <= MAX_FALLBACKS
  {
    && |q.parts| == |q.oks| == |batch|
    && q.end.trace == p.trace + Joined(q.parts)
    && (forall i :: 0 <= i < |batch| ==> FrameLaw(p.route, batch[i], q.parts[i], q.oks[i]))
    && q.end.route.hops == p.route.hops && q.end.route.mask == p.route.mask
    && q.end.route.attempts == p.route.attempts + |batch|
    && q.end.route.fails == p.route.fails + (|batch| - Yes(q.oks))
    && AcceptedTotal(q.end.trace) == AcceptedTotal(p.trace) + Yes(q.oks)
  }

  /** Of a batch each frame is accepted by exactly one hop if its forward says yes and by none
      otherwise, and no send of its stretch carries anything else. */
  lemma {:induction false} BatchDeliversOnce(p: Progress, net: Net, now: U64, batch: seq<seq<Byte>>)
    requires p.route.Valid()
    ensures BatchLaw(p, batch, ForwardEach(p, net, now, batch))
    decreases |batch|
  {
    hide Forwarded, AcceptedTotal, FrameLaw, RouteStep, BatchLaw;
    if batch == [] {
      EmptyBatch(p);
    } else {
      var n := |batch| - 1;
      BatchDeliversOnce(p, net, now, batch[..n]);
      var b := ForwardEach(p, net, now, batch[..n]);
      BatchKeepsRoute(p, batch[..n], b);
      OneMoreFrame(p.route, b.end, now, net, batch[n]);
      BatchLawGrows(p, batch[..n], b, batch[n], RouteStep(b.end, net, Forward(now, batch[n])),
                    Forwarded(b.end.route, now, batch[n], net, b.end.trace).ok);
      assert batch == batch[..n] + [batch[n]];
    }
  }

  lemma EmptyBatch(p: Progress)
    requires p.route.Valid()
    ensures BatchLaw(p, [], BatchRun(p, [], []))
  {
    hide AcceptedTotal;
    assert p.trace + [] == p.trace;
  }

  lemma BatchKeepsRoute(p: Progress, batch: seq<seq<Byte>>, b: BatchRun)
    requires p.route.Valid() && BatchLaw(p, batch, b)
    ensures b.end.route.hops == p.route.hops && b.end.route.mask == p.route.mask
  {
    hide AcceptedTotal, FrameLaw, Yes, Joined;
  }

  lemma BatchLawGrows(p: Progress, batch: seq<seq<Byte>>, b: BatchRun, frame: seq<Byte>, end: Progress, ok: bool)
    requires p.route.Valid() && BatchLaw(p, batch, b) && b.end.trace <= end.trace
    requires var part := end.trace[|b.end.trace|..]; FrameLaw(p.route, frame, part, ok)
    requires end.route.hops == p.route.hops && end.route.mask == p.route.mask
    requires end.route.attempts == b.end.route.attempts + 1
    requires end.route.fails == b.end.route.fails + (if ok then 0 else 1)
    requires AcceptedTotal(end.trace) == AcceptedTotal(b.end.trace) + (if ok then 1 else 0)
    ensures BatchLaw(p, batch + [frame],
      BatchRun(end, b.parts + [end.trace[|b.end.trace|..]], b.oks + [ok]))
  {
    hide AcceptedTotal, FrameLaw, Joined, Yes;
    var part := end.trace[|b.end.trace|..];
    JoinedMore(b.parts, part);
    YesMore(b.oks, ok);
    AppendAssoc(p.trace, Joined(b.parts), part);
    assert end.trace == b.end.trace + part;
  }

  lemma JoinedMore(parts: seq<seq<Sent>>, part: seq<Sent>)
    ensures Joined(parts + [part]) == Joined(parts) + part
  {
    assert (parts + [part])[..|parts|] == parts;
  }

  lemma YesMore(oks: seq<bool>, ok: bool)
    ensures Yes(oks + [ok]) == Yes(oks) + (if ok then 1 else 0)
  {
    assert (oks + [ok])[..|oks|] == oks;
  }

  lemma OneMoreFrame(r: Route, p: Progress, now: U64, net: Net, frame: seq<Byte>)
    requires r.Valid() && p.route.Valid() && p.route.hops == r.hops && p.route.mask == r.mask
    ensures var q, ok := RouteStep(p, net, Forward(now, frame)), Forwarded(p.route, now, frame, net, p.trace).ok;
      && p.trace <= q.trace && FrameLaw(r, frame, q.trace[|p.trace|..], ok)
      && q.route.mask == r.mask && q.route.attempts == p.route.attempts + 1
      && q.route.fails == p.route.fails + (if ok then 0 else 1)
      && AcceptedTotal(q.trace) == AcceptedTotal(p.trace) + (if ok then 1 else 0)
  {
    hide Forwarded, Masked, Probes, Settled, RoundFrom, Tried, OneAcceptance, AcceptedTotal;
    ForwardLaws(p.route, now, frame, net, p.trace);
    var f := Forwarded(p.route, now, frame, net, p.trace);
    var part := f.trace[|p.trace|..];
    AcceptedByOne(p.trace, part, f.ok);
    assert f.trace == p.trace + part;
  }

  function AcceptedTotal(trace: seq<Sent>): (n: nat) {
    AcceptedOn(trace, 0) + AcceptedOn(trace, 1) + AcceptedOn(trace, 2)
  }

  lemma AcceptedByOne(trace: seq<Sent>, more: seq<Sent>, ok: bool)
    requires OneAcceptance(more, ok)
    requires ok ==> more[|more| - 1].hop < MAX_FALLBACKS
    ensures AcceptedTotal(trace + more) == AcceptedTotal(trace) + (if ok then 1 else 0)
  {
    hide AcceptedOn;
    AcceptedMore(trace, more, ok, 0);
    AcceptedMore(trace, more, ok, 1);
    AcceptedMore(trace, more, ok, 2);
    if ok {
      var h := LastHop(more);
      assert h == 0 || h == 1 || h == 2;
    }
  }

  function LastHop(sends: seq<Sent>): (h: nat)
    requires sends != []
  {
    sends[|sends| - 1].hop
  }

  // ----- the class that does this in place -----

  /** The datagram socket, with everything sent through it. */
  class HopSocket {
    var trace: seq<Sent>
    const net: Net

    constructor (net: Net)
      ensures trace == [] && this.net == net
    {
      trace := [];
      this.net := net;
    }

    method SendTo(hop: nat, data: seq<Byte>) returns (accepted: bool)
      modifies this
      ensures accepted == net(|old(trace)|, hop) && trace == old(trace) + [Sent(hop, accepted, data)]
    {
      accepted := net(|trace|, hop);
      trace := trace + [Sent(hop, accepted, data)];
    }
  }

  /** Position of the first route of a node, or the length of the table. */
  function Find(table: seq<Route>, node: U16): (k: nat)
    ensures k <= |table|
    ensures k < |table| ==> table[k].node == node
    ensures forall i :: 0 <= i < k ==> table[i].node != node
  {
    if table == [] || table[0].node == node then 0 else 1 + Find(table[1..], node)
  }

  lemma FindIs(table: seq<Route>, node: U16, k: nat)
    requires k <= |table|
    requires k < |table| ==> table[k].node == node
    requires forall i :: 0 <= i < k ==> table[i].node != node
    ensures Find(table, node) == k
  {}

  const NO_ROUTE := NewRoute(0, [])

  class MeshRouter {
    const routes: array<Route>
    var count: nat

    ghost predicate Valid()
      reads this, routes
    {
      count <= routes.Length && forall i :: 0 <= i < count ==> routes[i].Valid()
    }

    ghost function Table(): (t: seq<Route>)
      requires count <= routes.Length
      reads this, routes
    {
      routes[..count]
    }

    constructor (maxRoutes: nat)
      ensures Valid() && fresh(routes) && routes.Length == maxRoutes && Table() == []
    {
      routes := new Route[maxRoutes](_ => NO_ROUTE);
      count := 0;
    }

    /** Takes one to three hops while there is room; a second route of a node is never found. */
    method AddRoute(node: U16, hops: array?<Endpoint>, hopCount: U8) returns (added: bool)
      requires Valid()
      requires hops != null ==> hopCount <= hops.Length
      modifies this`count, routes
      ensures Valid()
      ensures added <==> hops != null && 1 <= hopCount <= 3 && old(count) < routes.Length
      ensures Table() == if added then old(Table()) + [NewRoute(node, old(hops[..hopCount]))] else old(Table())
    {
      if hops == null || hopCount == 0 || hopCount > MAX_FALLBACKS || count >= routes.Length {
        return false;
      }
      routes[count] := NewRoute(node, hops[..hopCount]);
      count := count + 1;
      return true;
    }

    method FindRoute(node: U16) returns (k: nat)
      requires Valid()
      ensures k == Find(Table(), node)
    {
      k := 0;
      while k < count
        invariant k <= count
        invariant forall i :: 0 <= i < k ==> Table()[i].node != node
      {
        if routes[k].node == node {
          FindIs(Table(), node, k);
          return;
        }
        k := k + 1;
      }
      FindIs(Table(), node, k);
    }

    method SetHopSkipMask(node: U16, mask: Byte) returns (known: bool)
      requires Valid()
      modifies routes
      ensures Valid()
      ensures var t, k := old(Table()), Find(old(Table()), node);
        && known == (k < |t|)
        && Table() == if known then t[k := t[k].(mask := mask)] else t
    {
      var k := FindRoute(node);
      if k == count {
        return false;
      }
      routes[k] := routes[k].(mask := mask);
      return true;
    }

    /** The loop round the hops, from the active one. */
    method TryHops(udp: HopSocket, k: nat, data: seq<Byte>) returns (ok: bool)
      requires k < count <= routes.Length
      requires var r := routes[k]; 1 <= |r.hops| <= MAX_FALLBACKS && r.active < |r.hops| && |r.hopOk| == MAX_FALLBACKS
      modifies routes, udp
      ensures var f := Rotate(old(routes[k]), data, udp.net, old(udp.trace), 0);
        ok == f.ok && udp.trace == f.trace && routes[..] == old(routes[..])[k := f.route]
    {
      hide Open;
      var r := routes[k];
      for attempt := 0 to |r.hops|
        invariant routes[..] == old(routes[..])
        invariant Rotate(r, data, udp.net, old(udp.trace), 0) == Rotate(r, data, udp.net, udp.trace, attempt)
      {
        var hop := (r.active + attempt) % |r.hops|;
        if Allowed(r, hop) {
          var accepted := udp.SendTo(hop, data);
          if accepted {
            routes[k] := Delivered(r, hop);
            return true;
          }
        }
      }
      return false;
    }

    /** After a failure: the next allowed hop, the present one last. */
    method MoveOn(k: nat)
      requires k < count <= routes.Length && routes[k].Valid()
      modifies routes
      ensures routes[..] == old(routes[..])[k := Advance(old(routes[k]), 1)]
    {
      hide Open;
      var r := routes[k];
      var step := 1;
      while step <= |r.hops|
        invariant 1 <= step <= |r.hops| + 1
        invariant routes[..] == old(routes[..])
        invariant Advance(r, 1) == Advance(r, step)
      {
        var hop := (r.active + step) % |r.hops|;
        if Allowed(r, hop) {
          routes[k] := r.(active := hop);
          return;
        }
        step := step + 1;
      }
    }

    /** Makes an allowed hop active if the present one is not. */
    method Settle(k: nat) returns (settled: bool)
      requires k < count <= routes.Length && routes[k].Valid()
      modifies routes
      ensures var s := Settled(old(routes[k]));
        && settled == (s.active < |s.hops|)
        && routes[..] == if settled then old(routes[..])[k := s] else old(routes[..])
    {
      hide Open;
      var r := routes[k];
      if Allowed(r, r.active) {
        return true;
      }
      for i := 0 to |r.hops|
        invariant routes[..] == old(routes[..])
        invariant FirstAllowed(r, 0) == FirstAllowed(r, i)
      {
        if Allowed(r, i) {
          routes[k] := r.(active := i);
          return true;
        }
      }
      return false;
    }

    /** The probe, if one is due, then the round of hops. */
    method PursueHops(udp: HopSocket, k: nat, now: U64, data: seq<Byte>) returns (ok: bool)
      requires k < count <= routes.Length
      requires var r := routes[k];
        && 1 <= |r.hops| <= MAX_FALLBACKS && r.active < |r.hops| && |r.hopOk| == MAX_FALLBACKS
        && r.attempts == r.fails + 1 + r.hopOk[0] + r.hopOk[1] + r.hopOk[2]
      modifies routes, udp
      ensures var f := Pursue(old(routes[k]), now, data, udp.net, old(udp.trace));
        ok == f.ok && udp.trace == f.trace && routes[..] == old(routes[..])[k := f.route]
    {
      hide Open, Rotate, Advance, Probes;
      if Probes(routes[k], now) {
        routes[k] := routes[k].(lastProbeNs := now);
        var accepted := udp.SendTo(0, data);
        if accepted {
          routes[k] := Delivered(routes[k], 0);
          return true;
        }
      }
      RotateFails(routes[k], data, udp.net, udp.trace);
      ok := TryHops(udp, k, data);
      if !ok {
        routes[k] := routes[k].(fails := routes[k].fails + 1);
        MoveOn(k);
      }
    }

    method ForwardUdp(udp: HopSocket, node: U16, data: seq<Byte>, now: U64) returns (ok: bool)
      requires Valid()
      modifies routes, udp
      ensures Valid()
      ensures var t, k := old(Table()), Find(old(Table()), node);
        if k == |t| then !ok && Table() == t && udp.trace == old(udp.trace)
        else
          var f := Forwarded(t[k], now, data, udp.net, old(udp.trace));
          ok == f.ok && udp.trace == f.trace && Table() == t[k := f.route]
    {
      hide Masked, Settled, Pursue;
      var k := FindRoute(node);
      if k == count {
        return false;
      }
      ForwardKeepsValid(routes[k], now, data, udp.net, udp.trace);
      var settled := Settle(k);
      routes[k] := routes[k].(attempts := routes[k].attempts + 1);
      if !settled {
        routes[k] := routes[k].(fails := routes[k].fails + 1);
        return false;
      }
      ok := PursueHops(udp, k, now, data);
    }
  }
}

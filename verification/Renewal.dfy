/**
 Which address a client asks for when it extends its lease.  The comments of dhcp/client/dhcpclient.cpp promise
 the address that it was bound to.  What it asks for is the address of the offer it accepted before the
 acknowledgement bound it.
 */
module Renewal {
  import opened Bytes
  import opened Wrappers
  import opened DhcpMessage
  import opened Lease
  import opened Timers
  import opened ClientMachine
  import opened ClientRuns
  import opened Handshake

  predicate Leased(state: State)
  {
    state == Bound || state == Renewing || state == Rebinding
  }

  /** From `s` on, the client keeps the lease that it has, and no acknowledgement gives it a new one. */
  predicate KeepsLease(s: Sys, es: seq<Event>)
    requires FeasibleFrom(s, es)
    decreases |es|
  {
    && Leased(s.client.state)
    && (es == [] ||
        (&& (Step(s, es[0]).client.state == Bound ==> s.client.state == Bound)
         && KeepsLease(Step(s, es[0]), es[1..])))
  }

  /** `t` has come from `s` by requests that extend the lease, all for the same offer. */
  ghost predicate Extends(s: Sys, t: Sys)
  {
    && t.offer == s.offer
    && |s.sent| <= |t.sent| && t.sent[..|s.sent|] == s.sent
    && forall k :: |s.sent| <= k < |t.sent| ==>
         (t.sent[k].from == Renewing || t.sent[k].from == Rebinding) && t.sent[k].offer == s.offer
  }

  lemma TurnOrPollExtends(s: Sys, e: Event)
    requires Feasible(s, e) && Leased(s.client.state) && Leased(Step(s, e).client.state)
    ensures var t := Step(s, e);
            && t.offer == s.offer
            && (t.sent == s.sent
                || (&& t.sent == s.sent + [Sent(t.client.lastMsg, s.client.state, s.offer)]
                    && (s.client.state == Renewing || s.client.state == Rebinding)))
  {
  }

  lemma StepExtends(s: Sys, e: Event)
    requires Feasible(s, e) && Leased(s.client.state) && Leased(Step(s, e).client.state)
    ensures Extends(s, Step(s, e))
  {
    TurnOrPollExtends(s, e);
  }

  lemma ExtendsTwice(s: Sys, t: Sys, u: Sys)
    requires Extends(s, t) && Extends(t, u)
    ensures Extends(s, u)
  {
    assert u.sent[..|s.sent|] == u.sent[..|t.sent|][..|s.sent|];
    forall k | |s.sent| <= k < |t.sent|
      ensures u.sent[k] == t.sent[k]
    {
      assert u.sent[..|t.sent|][k] == t.sent[k];
    }
  }

  lemma {:induction false} LeaseIsExtended(s: Sys, es: seq<Event>)
    requires FeasibleFrom(s, es) && KeepsLease(s, es)
    ensures Extends(s, RunFrom(s, es)) && Leased(RunFrom(s, es).client.state)
    decreases |es|
  {
    if es != [] {
      StepExtends(s, es[0]);
      LeaseIsExtended(Step(s, es[0]), es[1..]);
      ExtendsTwice(s, Step(s, es[0]), RunFrom(s, es));
    }
  }

  /** `m` asks for the address of the acknowledgement exactly if that of the offer is the same. */
  predicate AsksForBoundIffOffered(m: Msg, offer: Msg, ack: Msg)
  {
    && Type(m) == DHCPREQUEST
    && RequestedIp(m) == Yiaddr(offer)
    && (RequestedIp(m) == Yiaddr(ack) <==> Yiaddr(offer) == Yiaddr(ack))
  }

  /** In every run: from the poll `q` whose acknowledgement binds the client (`u`), every request that is sent
      to extend this lease asks for the address that the client is bound to if and only if the
      acknowledgement has given the address of the accepted offer. */
  lemma RenewalAsksForBoundExactly(s0: Sys, before: seq<Event>, s: Sys, q: Poll, u: Sys, es: seq<Event>, v: Sys)
    requires Initial(s0) && FeasibleFrom(s0, before) && s == RunFrom(s0, before)
    requires Feasible(s, Polled(q)) && u == Step(s, Polled(q)) && s.client.state != Bound && u.client.state == Bound
    requires FeasibleFrom(u, es) && KeepsLease(u, es) && v == RunFrom(u, es)
    ensures q.outcome.Readable? && q.outcome.read.Datagram? && u.offer.Some?
    ensures u.client.info.offeredAddress == Yiaddr(q.outcome.read.message)
    ensures Extends(u, v)
    ensures forall k :: |u.sent| <= k < |v.sent| ==>
              AsksForBoundIffOffered(v.sent[k].message, u.offer.value, q.outcome.read.message)
  {
    InitialInv(s0);
    RunKeepsInv(s0, before);
    StepKeepsInv(s, Polled(q));
    BoundToAck(s, q);
    AllExtensionsAsk(u, es, q.outcome.read.message);
  }

  lemma BoundToAck(s: Sys, q: Poll)
    requires Feasible(s, Polled(q)) && s.client.state != Bound && Step(s, Polled(q)).client.state == Bound
    ensures q.outcome.Readable? && q.outcome.read.Datagram?
    ensures Step(s, Polled(q)).client.info.offeredAddress == Yiaddr(q.outcome.read.message)
  {
    PollIsOk(s.client, s.phase.timeout, q);
  }

  lemma AllExtensionsAsk(u: Sys, es: seq<Event>, ack: Msg)
    requires Inv(u) && FeasibleFrom(u, es) && KeepsLease(u, es)
    ensures u.offer.Some? && Extends(u, RunFrom(u, es))
    ensures forall k :: |u.sent| <= k < |RunFrom(u, es).sent| ==>
              AsksForBoundIffOffered(RunFrom(u, es).sent[k].message, u.offer.value, ack)
  {
    LeaseIsExtended(u, es);
    RunKeepsInv(u, es);
    ExtensionsAsk(u, RunFrom(u, es), u.offer.value, ack);
  }

  lemma ExtensionsAsk(u: Sys, v: Sys, offer: Msg, ack: Msg)
    requires Extends(u, v) && SentOk(v.sent) && u.offer == Some(offer)
    ensures forall k :: |u.sent| <= k < |v.sent| ==> AsksForBoundIffOffered(v.sent[k].message, offer, ack)
  {
    forall k | |u.sent| <= k < |v.sent|
      ensures AsksForBoundIffOffered(v.sent[k].message, offer, ack)
    {
      GenuineAsks(v.sent[k], offer, ack);
    }
  }

  lemma GenuineAsks(x: Sent, offer: Msg, ack: Msg)
    requires Genuine(x) && x.offer == Some(offer) && (x.from == Renewing || x.from == Rebinding)
    ensures AsksForBoundIffOffered(x.message, offer, ack)
  {
  }

  // ----- A run in which the addresses differ -------------------------------------------------------

  lemma {:induction false} RunOn(s: Sys, es: seq<Event>, fs: seq<Event>)
    requires FeasibleFrom(s, es) && FeasibleFrom(RunFrom(s, es), fs)
    ensures FeasibleFrom(s, es + fs) && RunFrom(s, es + fs) == RunFrom(RunFrom(s, es), fs)
    decreases |es|
  {
    if es == [] {
      assert es + fs == fs;
    } else {
      assert (es + fs)[1..] == es[1..] + fs;
      RunOn(Step(s, es[0]), es[1..], fs);
    }
  }

  lemma RunOfOne(s: Sys, e: Event)
    requires Feasible(s, e)
    ensures FeasibleFrom(s, [e]) && RunFrom(s, [e]) == Step(s, e)
  {
    assert [e][1..] == [];
    assert RunFrom(Step(s, e), []) == Step(s, e);
  }

  /** Two turns after the start the client waits for an offer. */
  lemma StartsSelecting(s0: Sys) returns (es: seq<Event>)
    requires Initial(s0)
    ensures FeasibleFrom(s0, es)
    ensures RunFrom(s0, es).client.state == Selecting && RunFrom(s0, es).phase.Polling?
  {
    var e := Turn(s0.clock, s0.clock, 0);
    RunOfOne(s0, e);
    RunOfOne(Step(s0, e), e);
    RunOn(s0, [e], [e]);
    es := [e] + [e];
  }

  /** A poll that brings a message at once, while the operating system does all it is asked for. */
  function Delivery(s: Sys, m: Msg): Poll
  {
    Poll(s.clock, Readable(Datagram(true, m, System(s.clock, s.clock, true, true, true))), s.clock)
  }

  /** The client asks for the offer. */
  lemma OfferIsRequested(s: Sys, offer: Msg, server: address) returns (es: seq<Event>)
    requires Inv(s) && s.client.state == Selecting && s.phase.Polling?
    requires Answers(offer, s.client, DHCPOFFER, server)
    ensures FeasibleFrom(s, es)
    ensures var v := RunFrom(s, es);
            Inv(v) && v.client.state == Requesting && v.phase.Polling? && v.offer == Some(offer)
  {
    var e := Polled(Delivery(s, offer));
    OfferArrives(s, e.poll, offer, server);
    OfferIsAccepted(s.client, s.phase.timeout, e.poll, offer, server);
    RunOfOne(s, e);
    var r := Step(s, e);
    var turn := Turn(r.clock, r.clock, 0);
    StepKeepsInv(r, turn);
    RunOfOne(r, turn);
    RunOn(s, [e], [turn]);
    es := [e] + [turn];
  }

  /** The acknowledgement binds it. */
  lemma AckBinds(v: Sys, ack: Msg, server: address, netmask: address, gateway: address, dns: seq<address>)
    returns (es: seq<Event>)
    requires Inv(v) && v.client.state == Requesting && v.phase.Polling? && v.offer.Some?
    requires Answers(ack, v.client, DHCPACK, server) && Conveys(ack, server, netmask, gateway, dns)
    ensures FeasibleFrom(v, es)
    ensures var u := RunFrom(v, es);
            && Inv(u) && u.client.state == Bound && u.phase.Ready? && u.offer == v.offer
            && u.client.info.offeredAddress == Yiaddr(ack)
  {
    var e := Polled(Delivery(v, ack));
    StepKeepsInv(v, e);
    AckIsAccepted(v.client, v.phase.timeout, e.poll, ack, server, netmask, gateway, dns);
    RunOfOne(v, e);
    es := [e];
  }

  /** A request to extend the lease is the last message of `w`, for the offer of `u`, whose lease it has. */
  ghost predicate AsksToExtend(u: Sys, w: Sys)
  {
    && Inv(w) && w.offer == u.offer && w.client.info == u.client.info
    && w.sent != []
    && var last := w.sent[|w.sent| - 1];
       last.offer == u.offer && (last.from == Renewing || last.from == Rebinding)
  }

  lemma TurnExtends(s: Sys)
    requires Inv(s) && s.phase.Ready? && s.client.nextTimeout == NO_TIMEOUT
    requires s.client.state == Rebinding || (s.client.state == Renewing && !Expired(s.client.t2, s.clock))
    ensures AsksToExtend(s, Step(s, Turn(s.clock, s.clock, 0)))
  {
    StepKeepsInv(s, Turn(s.clock, s.clock, 0));
    var t := Step(s, Turn(s.clock, s.clock, 0));
    assert t.sent == s.sent + [Sent(t.client.lastMsg, s.client.state, s.offer)];
  }

  /** The turn that leaves Renewing when T2 has passed as well. */
  lemma TurnRebinds(s: Sys)
    requires Inv(s) && s.phase.Ready? && s.client.state == Renewing && Expired(s.client.t2, s.clock)
    ensures var t := Step(s, Turn(s.clock, s.clock, 0));
            && Inv(t) && t.phase.Ready? && t.client.nextTimeout == NO_TIMEOUT && t.client.state == Rebinding
            && t.offer == s.offer && t.client.info == s.client.info
  {
    StepKeepsInv(s, Turn(s.clock, s.clock, 0));
  }

  lemma RenewingAsks(s: Sys) returns (es: seq<Event>)
    requires Inv(s) && s.phase.Ready? && s.client.nextTimeout == NO_TIMEOUT && s.client.state == Renewing
    ensures FeasibleFrom(s, es) && AsksToExtend(s, RunFrom(s, es))
  {
    var e := Turn(s.clock, s.clock, 0);
    RunOfOne(s, e);
    es := [e];
    if Expired(s.client.t2, s.clock) {
      TurnRebinds(s);
      var t := Step(s, e);
      var f := Turn(t.clock, t.clock, 0);
      RunOfOne(t, f);
      TurnExtends(t);
      RunOn(s, [e], [f]);
      es := [e] + [f];
    } else {
      TurnExtends(s);
    }
  }

  /** The turn that leaves Bound at or after T1. */
  lemma TurnRenews(u: Sys, now: nat)
    requires Inv(u) && u.client.state == Bound && u.phase.Ready? && u.clock <= now && u.client.t1 <= now
    ensures var t := Step(u, Turn(now, now, 0));
            && Inv(t) && t.phase.Ready? && t.client.nextTimeout == NO_TIMEOUT && t.client.state == Renewing
            && t.offer == u.offer && t.client.info == u.client.info
  {
    StepKeepsInv(u, Turn(now, now, 0));
  }

  /** Once T1 has passed, the next turns send a request. */
  lemma LeaseIsExtendedLater(u: Sys) returns (es: seq<Event>)
    requires Inv(u) && u.client.state == Bound && u.phase.Ready?
    ensures FeasibleFrom(u, es) && AsksToExtend(u, RunFrom(u, es))
  {
    var now := if u.clock < u.client.t1 then u.client.t1 else u.clock;
    var e := Turn(now, now, 0);
    TurnRenews(u, now);
    RunOfOne(u, e);
    var rest := RenewingAsks(Step(u, e));
    RunOn(u, [e], rest);
    es := [e] + rest;
  }

  /** From every start, a server that offers one address and acknowledges another, whatever they are, brings
      about a run in which the client is bound to the second and asks for the first when it extends
      its lease. */
  lemma OfferedIsAskedForAgain(s0: Sys, server: address, offered: address, bound: address, netmask: address,
                               gateway: address, dns: seq<address>) returns (es: seq<Event>)
    requires Initial(s0)
    ensures FeasibleFrom(s0, es)
    ensures var w := RunFrom(s0, es);
            && w.client.info.offeredAddress == bound
            && w.sent != [] && w.sent[|w.sent| - 1].from in {Renewing, Rebinding}
            && RequestedIp(w.sent[|w.sent| - 1].message) == offered
  {
    var first := StartsSelecting(s0);
    InitialInv(s0);
    RunKeepsInv(s0, first);
    var s := RunFrom(s0, first);
    var rest := OfferThenLease(s, server, offered, bound, netmask, gateway, dns);
    RunOn(s0, first, rest);
    es := first + rest;
  }

  lemma OfferThenLease(s: Sys, server: address, offered: address, bound: address, netmask: address,
                       gateway: address, dns: seq<address>) returns (es: seq<Event>)
    requires Inv(s) && s.client.state == Selecting && s.phase.Polling?
    ensures FeasibleFrom(s, es)
    ensures var w := RunFrom(s, es);
            && w.client.info.offeredAddress == bound
            && w.sent != [] && w.sent[|w.sent| - 1].from in {Renewing, Rebinding}
            && RequestedIp(w.sent[|w.sent| - 1].message) == offered
  {
    var offer := BuiltOffer(s.client, server, offered, netmask, gateway, dns);
    var one := OfferIsRequested(s, offer, server);
    var v := RunFrom(s, one);
    var ack := BuiltAck(v.client, server, bound, netmask, gateway, dns);
    var two := AckBinds(v, ack, server, netmask, gateway, StoredServers(dns));
    RunOn(s, one, two);
    var u := RunFrom(v, two);
    var three := LeaseIsExtendedLater(u);
    RunOn(s, one + two, three);
    es := one + two + three;
    var w := RunFrom(u, three);
    assert Genuine(w.sent[|w.sent| - 1]);
  }

  lemma BuiltOffer(c: Client, server: address, offered: address, netmask: address, gateway: address,
                   dns: seq<address>) returns (m: Msg)
    ensures Answers(m, c, DHCPOFFER, server) && Yiaddr(m) == offered
  {
    m := LeaseMsg(DHCPOFFER, c.lastMsg, server, offered, netmask, gateway, dns, 0);
    LeaseAnswers(c, DHCPOFFER, server, offered, netmask, gateway, dns, 0);
  }

  lemma BuiltAck(c: Client, server: address, bound: address, netmask: address, gateway: address,
                 dns: seq<address>) returns (m: Msg)
    ensures Answers(m, c, DHCPACK, server) && Yiaddr(m) == bound
    ensures Conveys(m, server, netmask, gateway, StoredServers(dns))
  {
    m := LeaseMsg(DHCPACK, c.lastMsg, server, bound, netmask, gateway, dns, 0);
    LeaseAnswers(c, DHCPACK, server, bound, netmask, gateway, dns, 0);
    AckRoundTrip(c.lastMsg, server, bound, netmask, gateway, dns, 0);
  }
}

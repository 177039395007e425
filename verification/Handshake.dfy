/**
 The client against the server messages of dhcp/common/message.cpp: offers, acknowledgements and
 refusals that answer its last transmission are accepted and have their effect.
 */
module Handshake {
  import opened Bytes
  import opened Wrappers
  import opened DhcpMessage
  import opened Lease
  import opened Timers
  import opened ClientMachine
  import opened ClientRuns

  /** `m` is a reply to the last transmission of the client. */
  ghost predicate Answers(m: Msg, c: Client, kind: byte, server: address)
  {
    && IsValidDhcpMessage(m, OP_BOOTREPLY)
    && Xid(m) == Xid(c.lastMsg)
    && Type(m) == kind
    && ServerId(m) == server
  }

  lemma LeaseAnswers(c: Client, kind: byte, server: address, offered: address, netmask: address, gateway: address,
                     dns: seq<address>, nextXid: word32)
    ensures var m := LeaseMsg(kind, c.lastMsg, server, offered, netmask, gateway, dns, nextXid);
            Answers(m, c, kind, server) && Yiaddr(m) == offered
  {
    LeaseParses(kind, c.lastMsg, server, offered, netmask, gateway, dns, nextXid);
  }

  lemma NackAnswers(c: Client, server: address, nextXid: word32)
    ensures Answers(NackMsg(c.lastMsg, server, nextXid), c, DHCPNAK, server)
  {
    NackParses(c.lastMsg, server, nextXid);
  }

  /** The poll that receives `m` in a UDP packet for the client's port. */
  predicate Brings(p: Poll, m: Msg)
  {
    && p.startedAt <= p.doneAt
    && p.outcome.Readable? && p.outcome.read.Datagram?
    && p.outcome.read.udpValid && p.outcome.read.message == m
  }

  /** An offer takes a selecting client to Requesting, with the offered address and server. */
  lemma OfferIsAccepted(c: Client, timeout: word32, p: Poll, m: Msg, server: address)
    requires c.state == Selecting && Answers(m, c, DHCPOFFER, server) && Brings(p, m)
    ensures PollOnce(c, timeout, p) ==
            Waited(SetNextState(c.(serverAddress := server, requestAddress := Yiaddr(m)), Requesting), Ready)
  {
  }

  /** A refusal takes a client that waits for an answer back to Init. */
  lemma NackIsAccepted(c: Client, timeout: word32, p: Poll, m: Msg, server: address)
    requires c.state in {Requesting, Renewing, Rebinding} && Answers(m, c, DHCPNAK, server) && Brings(p, m)
    ensures PollOnce(c, timeout, p) == Waited(SetNextState(c, Init), Ready)
  {
  }

  /** So a refusal built by `nack` for the last request ends the wait for an answer. */
  lemma RefusalStartsOver(c: Client, timeout: word32, p: Poll, server: address, nextXid: word32)
    requires c.state in {Requesting, Renewing, Rebinding} && Brings(p, NackMsg(c.lastMsg, server, nextXid))
    ensures PollOnce(c, timeout, p) == Waited(SetNextState(c, Init), Ready)
  {
    NackAnswers(c, server, nextXid);
    NackIsAccepted(c, timeout, p, NackMsg(c.lastMsg, server, nextXid), server);
  }

  /** The operating system does everything that `configureDhcp` asks for. */
  predicate Succeeds(system: System)
  {
    system.bringUp && system.setAddress && system.setGateway
  }

  /** The lease a bound client has taken from an acknowledgement built by `ack`.  The lease time comes
      out as `LEASE_TIME_READ`, for which the estimated T2 lies before T1. */
  ghost predicate HasLease(c: Client, server: address, offered: address, netmask: address, gateway: address,
                           dns: seq<address>)
  {
    && c.state == Bound
    && c.info.serverId == server
    && c.info.offeredAddress == offered
    && c.info.subnetMask == netmask
    && c.info.gateway == gateway
    && (forall k :: 0 <= k < 4 ==> c.info.dns[k] == if k < |dns| then dns[k] else NO_ADDRESS)
    && c.info.leaseTime == LEASE_TIME_READ
    && T2Seconds(c.info) < T1Seconds(c.info)
  }

  lemma AckIsAccepted(c: Client, timeout: word32, p: Poll, m: Msg, server: address, netmask: address, gateway: address,
                      dns: seq<address>)
    requires c.state in {Requesting, Renewing, Rebinding} && Answers(m, c, DHCPACK, server) && Brings(p, m)
    requires Conveys(m, server, netmask, gateway, dns) && Succeeds(p.outcome.read.system)
    ensures var w, system := PollOnce(c, timeout, p), p.outcome.read.system;
            && w.phase == Ready
            && HasLease(w.client, server, Yiaddr(m), netmask, gateway, dns)
            && w.client.t1 == ExpiryAfter(system.now1, T1Seconds(w.client.info))
            && w.client.t2 == ExpiryAfter(system.now2, T2Seconds(w.client.info))
  {
    ValidHasCookie(m);
    var w := PollOnce(c, timeout, p);
    EstimatedTimersOrdered(w.client.info);
  }

  lemma ValidHasCookie(m: Msg)
    requires IsValidDhcpMessage(m, OP_BOOTREPLY)
    ensures OptionsSize(m) >= 4
  {
  }

  // ----- The whole exchange ------------------------------------------------------------------------

  lemma {:induction false} StayKeepsOffer(s: Sys, es: seq<Event>)
    requires FeasibleFrom(s, es) && StaysIn(s, es, Requesting)
    ensures RunFrom(s, es).client.state == Requesting && RunFrom(s, es).offer == s.offer
    decreases |es|
  {
    if es != [] {
      assert Step(s, es[0]).offer == s.offer;
      StayKeepsOffer(Step(s, es[0]), es[1..]);
    }
  }

  /** The poll that brings the offer. */
  lemma OfferArrives(s: Sys, p: Poll, offer: Msg, server: address)
    requires Inv(s) && s.client.state == Selecting && Feasible(s, Polled(p))
    requires Brings(p, offer) && Answers(offer, s.client, DHCPOFFER, server)
    ensures var r := Step(s, Polled(p));
            Inv(r) && r.client.state == Requesting && r.offer == Some(offer)
  {
    StepKeepsInv(s, Polled(p));
    OfferIsAccepted(s.client, s.phase.timeout, p, offer, server);
  }

  /** While the client waits in Requesting, its last message asks for the current offer. */
  lemma RequestIsForOffer(v: Sys, server: address)
    requires Inv(v) && v.client.state == Requesting && v.phase.Polling?
    requires v.offer.Some? && ServerId(v.offer.value) == server
    ensures Type(v.client.lastMsg) == DHCPREQUEST
    ensures RequestedIp(v.client.lastMsg) == Yiaddr(v.offer.value) && ServerId(v.client.lastMsg) == server
  {
    assert Genuine(v.sent[|v.sent| - 1]);
  }

  /** The exchange for any offer and acknowledgement that answer the client and convey the lease. */
  lemma Exchange(s: Sys, p: Poll, offer: Msg, r: Sys, stay: seq<Event>, v: Sys, q: Poll, ack: Msg, u: Sys,
                 server: address, netmask: address, gateway: address, dns: seq<address>)
    requires Inv(s) && s.client.state == Selecting && Feasible(s, Polled(p)) && r == Step(s, Polled(p))
    requires Brings(p, offer) && Answers(offer, s.client, DHCPOFFER, server)
    requires FeasibleFrom(r, stay) && StaysIn(r, stay, Requesting) && v == RunFrom(r, stay)
    requires Feasible(v, Polled(q)) && u == Step(v, Polled(q))
    requires Brings(q, ack) && Answers(ack, v.client, DHCPACK, server) && Conveys(ack, server, netmask, gateway, dns)
    requires Succeeds(q.outcome.read.system)
    ensures Type(v.client.lastMsg) == DHCPREQUEST
    ensures RequestedIp(v.client.lastMsg) == Yiaddr(offer) && ServerId(v.client.lastMsg) == server
    ensures HasLease(u.client, server, Yiaddr(ack), netmask, gateway, dns)
  {
    OfferArrives(s, p, offer, server);
    StayKeepsOffer(r, stay);
    RunKeepsInv(r, stay);
    RequestIsForOffer(v, server);
    AckIsAccepted(v.client, v.phase.timeout, q, ack, server, netmask, gateway, dns);
  }

  /** `m` is what `offer` or `ack` builds from a message for some transaction id of its own. */
  ghost predicate IsBuilt(m: Msg, kind: byte, source: Msg, server: address, offered: address, netmask: address,
                          gateway: address, dns: seq<address>)
  {
    exists nextXid: word32 :: m == LeaseMsg(kind, source, server, offered, netmask, gateway, dns, nextXid)
  }

  lemma BuiltAnswers(m: Msg, kind: byte, c: Client, server: address, offered: address, netmask: address,
                     gateway: address, dns: seq<address>)
    requires IsBuilt(m, kind, c.lastMsg, server, offered, netmask, gateway, dns)
    ensures Answers(m, c, kind, server) && Yiaddr(m) == offered
  {
    var nextXid: word32 :| m == LeaseMsg(kind, c.lastMsg, server, offered, netmask, gateway, dns, nextXid);
    LeaseAnswers(c, kind, server, offered, netmask, gateway, dns, nextXid);
  }

  lemma BuiltConveys(m: Msg, source: Msg, server: address, offered: address, netmask: address, gateway: address,
                     dns: seq<address>)
    requires IsBuilt(m, DHCPACK, source, server, offered, netmask, gateway, dns)
    ensures Conveys(m, server, netmask, gateway, StoredServers(dns))
  {
    var nextXid: word32 :| m == LeaseMsg(DHCPACK, source, server, offered, netmask, gateway, dns, nextXid);
    AckRoundTrip(source, server, offered, netmask, gateway, dns, nextXid);
  }

  lemma ExchangeOfBuilt(s: Sys, p: Poll, offer: Msg, r: Sys, stay: seq<Event>, v: Sys, q: Poll, ack: Msg, u: Sys,
                        server: address, offered: address, netmask: address, gateway: address, dns: seq<address>)
    requires Inv(s) && s.client.state == Selecting && Feasible(s, Polled(p)) && r == Step(s, Polled(p))
    requires Brings(p, offer)
    requires FeasibleFrom(r, stay) && StaysIn(r, stay, Requesting) && v == RunFrom(r, stay)
    requires Feasible(v, Polled(q)) && u == Step(v, Polled(q))
    requires Brings(q, ack) && Succeeds(q.outcome.read.system)
    requires IsBuilt(offer, DHCPOFFER, s.client.lastMsg, server, offered, netmask, gateway, dns)
    requires IsBuilt(ack, DHCPACK, v.client.lastMsg, server, offered, netmask, gateway, dns)
    ensures Type(v.client.lastMsg) == DHCPREQUEST
    ensures RequestedIp(v.client.lastMsg) == offered && ServerId(v.client.lastMsg) == server
    ensures HasLease(u.client, server, offered, netmask, gateway, StoredServers(dns))
  {
    BuiltAnswers(offer, DHCPOFFER, s.client, server, offered, netmask, gateway, dns);
    BuiltAnswers(ack, DHCPACK, v.client, server, offered, netmask, gateway, dns);
    BuiltConveys(ack, v.client.lastMsg, server, offered, netmask, gateway, dns);
    Exchange(s, p, offer, r, stay, v, q, ack, u, server, netmask, gateway, StoredServers(dns));
  }

  /** The whole exchange with the messages that the builders make.  In any run that has brought the client
      to a wait in Selecting (`s`), a server answers its last DISCOVER with `offer` (`r`).  Then anything may
      happen that leaves the client in Requesting, irrelevant messages, errors and retransmissions
      included (`v`), and the server answers the last REQUEST with `ack` (`u`).  That request asks the
      offering server for the offered address, and the client ends bound to exactly that lease, with as
      many of the name servers as the option holds. */
  lemma DiscoverOfferRequestAck(s0: Sys, before: seq<Event>, s: Sys, p: Poll, offer: Msg, r: Sys,
                                stay: seq<Event>, v: Sys, q: Poll, ack: Msg, u: Sys,
                                server: address, offered: address, netmask: address, gateway: address,
                                dns: seq<address>)
    requires Initial(s0) && FeasibleFrom(s0, before) && s == RunFrom(s0, before)
    requires s.client.state == Selecting && Feasible(s, Polled(p)) && r == Step(s, Polled(p))
    requires Brings(p, offer)
    requires FeasibleFrom(r, stay) && StaysIn(r, stay, Requesting) && v == RunFrom(r, stay)
    requires Feasible(v, Polled(q)) && u == Step(v, Polled(q))
    requires Brings(q, ack) && Succeeds(q.outcome.read.system)
    requires IsBuilt(offer, DHCPOFFER, s.client.lastMsg, server, offered, netmask, gateway, dns)
    requires IsBuilt(ack, DHCPACK, v.client.lastMsg, server, offered, netmask, gateway, dns)
    ensures Type(v.client.lastMsg) == DHCPREQUEST
    ensures RequestedIp(v.client.lastMsg) == offered && ServerId(v.client.lastMsg) == server
    ensures HasLease(u.client, server, offered, netmask, gateway, StoredServers(dns))
  {
    InitialInv(s0);
    RunKeepsInv(s0, before);
    ExchangeOfBuilt(s, p, offer, r, stay, v, q, ack, u, server, offered, netmask, gateway, dns);
  }

  /** What follows a lease: from the poll `q` that has bound the client (`u`), whatever else happens, the client
      is bound and silent as long as the clock has not reached T1 (`v`), and its next turn begins to renew
      exactly if that many seconds have passed since the lease was configured. */
  lemma LeaseIsRenewedOnTime(s: Sys, q: Poll, u: Sys, es: seq<Event>, v: Sys, now1: nat, now2: nat, adjustment: int)
    requires Feasible(s, Polled(q)) && u == Step(s, Polled(q)) && s.client.state != Bound && u.client.state == Bound
    requires FeasibleFrom(u, es) && v == RunFrom(u, es) && v.clock < u.client.t1
    requires Feasible(v, Turn(now1, now2, adjustment))
    ensures v.client.state == Bound && v.sent == u.sent && v.client.info == u.client.info
    ensures Step(v, Turn(now1, now2, adjustment)).client.state == Renewing
            <==> now1 - q.outcome.read.system.now1 >= 1000 * T1Seconds(u.client.info) as int
  {
    BoundByConfiguring(s, q);
    SilentUntilT1(u, es);
    ClockNeverGoesBack(u, es);
    BoundIsLeftAtT1(v, Turn(now1, now2, adjustment));
    RemainingIsExact(q.outcome.read.system.now1, T1Seconds(u.client.info), now1);
  }

  lemma BoundByConfiguring(s: Sys, q: Poll)
    requires Feasible(s, Polled(q)) && s.client.state != Bound && Step(s, Polled(q)).client.state == Bound
    ensures q.outcome.Readable? && q.outcome.read.Datagram?
    ensures var c := Step(s, Polled(q)).client;
            c.t1 == ExpiryAfter(q.outcome.read.system.now1, T1Seconds(c.info))
    ensures q.outcome.read.system.now1 <= Step(s, Polled(q)).clock
  {
    PollIsOk(s.client, s.phase.timeout, q);
  }
}

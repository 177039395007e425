/**
 Every transmission of the client, to the byte.
 */
module Transmissions {
  import opened Bytes
  import opened Wrappers
  import opened DhcpMessage
  import opened ClientMachine
  import opened ClientRuns
  import opened WireFormat

  /** The `k`-th transmission of a client with this hardware address. */
  ghost predicate Exact(x: Sent, mac: Mac, k: nat)
  {
    var xid := (1 + k) % TWO_TO_THE_32;
    if x.from == Selecting then x.message == DiscoverMsg(mac, xid)
    else
      && x.offer.Some?
      && x.message == RequestMsg(mac, Yiaddr(x.offer.value),
                                 if x.from == Rebinding then INADDR_BROADCAST else ServerId(x.offer.value), xid)
  }

  ghost predicate AllExact(s: Sys, mac: Mac)
  {
    s.client.mac == mac && forall k :: 0 <= k < |s.sent| ==> Exact(s.sent[k], mac, k)
  }

  lemma PollSendsNothing(s: Sys, p: Poll)
    requires Feasible(s, Polled(p))
    ensures Step(s, Polled(p)).sent == s.sent && Step(s, Polled(p)).client.mac == s.client.mac
  {
    if p.outcome.Readable? && ReceiveDhcpMessage(s.client, p.outcome.read) {
      ConfigureKeeps(s.client, p.outcome.read.message, p.outcome.read.system);
    }
  }

  lemma TurnKeepsMac(c: Client, now1: nat, now2: nat)
    ensures Evaluate(c, now1, now2).client.mac == c.mac
  {
  }

  lemma SelectingSends(s: Sys, now1: nat, now2: nat)
    requires ClientOk(s) && s.client.state == Selecting
    ensures var t := Evaluate(s.client, now1, now2);
            Exact(Sent(t.client.lastMsg, t.client.state, s.offer), s.client.mac, |s.sent|)
  {
  }

  /** The request that is built from the fields of the client. */
  lemma OthersSend(s: Sys, now1: nat, now2: nat)
    requires ClientOk(s) && s.client.state != Selecting && Evaluate(s.client, now1, now2).sent
    ensures var c, t := s.client, Evaluate(s.client, now1, now2);
            && t.client.state == c.state && c.state in {Requesting, Renewing, Rebinding}
            && t.client.lastMsg ==
                 RequestMsg(c.mac, c.requestAddress,
                            if c.state == Rebinding then INADDR_BROADCAST else c.serverAddress, c.nextXid)
  {
  }

  lemma TurnSendsExactly(s: Sys, now1: nat, now2: nat)
    requires ClientOk(s) && Evaluate(s.client, now1, now2).sent
    ensures var t := Evaluate(s.client, now1, now2);
            Exact(Sent(t.client.lastMsg, t.client.state, s.offer), s.client.mac, |s.sent|)
  {
    if s.client.state == Selecting {
      SelectingSends(s, now1, now2);
    } else {
      OthersSend(s, now1, now2);
    }
  }

  lemma OneMoreExact(sent: seq<Sent>, x: Sent, mac: Mac)
    requires forall k :: 0 <= k < |sent| ==> Exact(sent[k], mac, k)
    requires Exact(x, mac, |sent|)
    ensures forall k :: 0 <= k < |sent| + 1 ==> Exact((sent + [x])[k], mac, k)
  {
    forall k | 0 <= k < |sent| + 1
      ensures Exact((sent + [x])[k], mac, k)
    {
      if k < |sent| {
        assert (sent + [x])[k] == sent[k];
      } else {
        assert (sent + [x])[k] == x && k == |sent|;
      }
    }
  }

  lemma AfterTurnSent(s: Sys, t: Turned, now: nat, adjustment: int)
    ensures var r := AfterTurn(s, t, now, adjustment);
            && r.client == t.client
            && r.sent == if t.sent then s.sent + [Sent(t.client.lastMsg, t.client.state, s.offer)] else s.sent
  {
  }

  lemma StepKeepsExact(s: Sys, e: Event)
    requires Inv(s) && Feasible(s, e) && AllExact(s, s.client.mac)
    ensures AllExact(Step(s, e), s.client.mac)
  {
    match e
    case Polled(p) => PollSendsNothing(s, p);
    case Turn(now1, now2, adjustment) =>
      var t := Evaluate(s.client, now1, now2);
      TurnKeepsMac(s.client, now1, now2);
      AfterTurnSent(s, t, now2, adjustment);
      if t.sent {
        TurnSendsExactly(s, now1, now2);
        OneMoreExact(s.sent, Sent(t.client.lastMsg, t.client.state, s.offer), s.client.mac);
      }
  }

  lemma {:induction false} RunKeepsExact(s: Sys, es: seq<Event>)
    requires Inv(s) && FeasibleFrom(s, es) && AllExact(s, s.client.mac)
    ensures AllExact(RunFrom(s, es), s.client.mac)
    decreases |es|
  {
    if es != [] {
      StepKeepsInv(s, es[0]);
      StepKeepsExact(s, es[0]);
      RunKeepsExact(Step(s, es[0]), es[1..]);
    }
  }

  /** In every run the `k`-th transmission is, byte for byte, a DISCOVER from the client's hardware address, or a
      REQUEST from it for the offered address to the offering server or, while rebinding, to everybody;
      its transaction id is `k + 1`, modulo 2^32. */
  lemma EveryTransmissionOnTheWire(s0: Sys, es: seq<Event>, k: nat)
    requires Initial(s0) && FeasibleFrom(s0, es) && k < |RunFrom(s0, es).sent|
    ensures var x, mac, xid := RunFrom(s0, es).sent[k], s0.client.mac, (1 + k) % TWO_TO_THE_32;
            && (x.from == Selecting ==>
                  Used(x.message)
                  == FixedPart(1, Be32Bytes(xid), [0x80, 0], NO_ADDRESS, NO_ADDRESS, mac)
                     + [0x63, 0x82, 0x53, 0x63, 53, 1, 1]
                     + [55, 8] + [1, 3, 6, 28, 51, 58, 59, 26]
                     + [255])
            && (x.from != Selecting ==>
                  && x.offer.Some?
                  && Used(x.message)
                     == FixedPart(1, Be32Bytes(xid), [0x80, 0], NO_ADDRESS, NO_ADDRESS, mac)
                        + [0x63, 0x82, 0x53, 0x63, 53, 1, 3]
                        + [55, 8] + [1, 3, 6, 28, 51, 58, 59, 26]
                        + [50, 4] + Yiaddr(x.offer.value)
                        + [54, 4] + (if x.from == Rebinding then [255, 255, 255, 255] else ServerId(x.offer.value))
                        + [255])
  {
    InitialInv(s0);
    RunKeepsExact(s0, es);
    var x, mac, xid := RunFrom(s0, es).sent[k], s0.client.mac, (1 + k) % TWO_TO_THE_32;
    assert Exact(x, mac, k);
    if x.from == Selecting {
      DiscoverOnTheWire(mac, xid);
    } else {
      RequestOnTheWire(mac, Yiaddr(x.offer.value),
                       if x.from == Rebinding then INADDR_BROADCAST else ServerId(x.offer.value), xid);
    }
  }
}

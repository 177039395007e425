/**
 What holds over every run of the DHCP client, whatever the network, the clock and the operating
 system do.
 */
module ClientRuns {
  import opened Bytes
  import opened Wrappers
  import opened DhcpMessage
  import opened Lease
  import opened Timers
  import opened ClientMachine

  /** The states in which the client transmits. */
  predicate Sending(state: State)
  {
    state in {Selecting, Requesting, Renewing, Rebinding}
  }

  /** The backoff of section 4.1 of RFC 2131: no wait yet, then 4 s, doubled up to 64 s. */
  function Rung(k: nat): word32
  {
    if k == 0 then 0 else if k == 1 then 4000 else if k == 2 then 8000
    else if k == 3 then 16000 else if k == 4 then 32000 else 64000
  }

  predicate OnLadder(timeout: word32)
  {
    timeout in {0, 4000, 8000, 16000, 32000, 64000}
  }

  // ----- What every transmission and every wait looks like ---------------------------------------

  /** A transmission is a valid DISCOVER while selecting.  Otherwise it is a valid REQUEST that parses
      back to the address of the last accepted offer, and to the server id of that offer, or to the
      broadcast address while rebinding. */
  predicate Genuine(x: Sent)
  {
    && IsValidDhcpMessage(x.message, OP_BOOTREQUEST)
    && (x.from == Selecting ==> Type(x.message) == DHCPDISCOVER)
    && (x.from != Selecting ==>
          && x.from in {Requesting, Renewing, Rebinding}
          && x.offer.Some?
          && Type(x.message) == DHCPREQUEST
          && RequestedIp(x.message) == Yiaddr(x.offer.value)
          && ServerId(x.message) == if x.from == Rebinding then INADDR_BROADCAST else ServerId(x.offer.value))
  }

  /** A wait in a sending state lies on the backoff ladder and is fuzzed by at most a second; a wait
      in Bound is not fuzzed; the client waits in no other state. */
  predicate Proper(w: Wait)
  {
    && w.base != 0
    && (w.state == Bound || Sending(w.state))
    && (w.state == Bound ==> w.chosen == w.base)
    && (Sending(w.state) ==>
          OnLadder(w.base) && w.base - 1000 <= w.chosen <= w.base + 1000 && 3000 <= w.chosen <= 65000)
  }

  // ----- The invariant ---------------------------------------------------------------------------

  ghost predicate SentOk(sent: seq<Sent>)
  {
    && (forall k :: 0 <= k < |sent| ==> Genuine(sent[k]))
    && (forall k :: 0 <= k < |sent| ==> Xid(sent[k].message) == (1 + k) % TWO_TO_THE_32)
  }

  ghost predicate WaitsOk(waits: seq<Wait>)
  {
    forall k :: 0 <= k < |waits| ==> Proper(waits[k])
  }

  ghost predicate ClientOk(s: Sys)
  {
    var c := s.client;
    && c.nextXid == (1 + |s.sent|) % TWO_TO_THE_32
    && (s.sent != [] ==> c.lastMsg == s.sent[|s.sent| - 1].message)
    && (c.state in {Requesting, Bound, Renewing, Rebinding} ==>
          s.offer.Some? && c.requestAddress == Yiaddr(s.offer.value) && c.serverAddress == ServerId(s.offer.value))
    && (Sending(c.state) ==> OnLadder(c.nextTimeout) && c.fuzzNextTimeout)
  }

  /** While the client polls it has transmitted, and in a sending state the last transmission is the
      one of that state, for the offer that is current. */
  ghost predicate PollingOk(s: Sys)
  {
    s.phase.Polling? ==>
      && s.client.state != Init
      && (Sending(s.client.state) ==>
            && s.sent != []
            && s.sent[|s.sent| - 1].from == s.client.state
            && s.sent[|s.sent| - 1].offer == s.offer)
  }

  ghost predicate Inv(s: Sys)
  {
    SentOk(s.sent) && WaitsOk(s.waits) && ClientOk(s) && PollingOk(s)
  }

  /** What a turn may do to the client. */
  ghost predicate TurnedOk(s: Sys, t: Turned)
  {
    var c, d := s.client, t.client;
    && d.requestAddress == c.requestAddress && d.serverAddress == c.serverAddress
    && (d.state in {Requesting, Bound, Renewing, Rebinding} ==> c.state in {Requesting, Bound, Renewing, Rebinding})
    && (Sending(d.state) ==> OnLadder(d.nextTimeout) && d.fuzzNextTimeout)
    && (d.state == Bound ==> !d.fuzzNextTimeout)
    && (d.state == Init ==> d.nextTimeout == NO_TIMEOUT)
    && (t.sent ==>
          && Sending(d.state)
          && Genuine(Sent(d.lastMsg, d.state, s.offer))
          && Xid(d.lastMsg) == c.nextXid
          && d.nextXid == (c.nextXid + 1) as int % TWO_TO_THE_32)
    && (!t.sent ==>
          && d.lastMsg == c.lastMsg && d.nextXid == c.nextXid
          && (Sending(d.state) ==> d.nextTimeout == NO_TIMEOUT))
  }

  lemma RequestIsGenuine(s: Sys, from: State)
    requires ClientOk(s) && from in {Requesting, Renewing, Rebinding} && s.client.state == from
    ensures var c := s.client;
            var server := if from == Rebinding then INADDR_BROADCAST else c.serverAddress;
            var m := RequestMsg(c.mac, c.requestAddress, server, c.nextXid);
            Genuine(Sent(m, from, s.offer)) && Xid(m) == c.nextXid
  {
    var c := s.client;
    RequestParses(c.mac, c.requestAddress, if from == Rebinding then INADDR_BROADCAST else c.serverAddress, c.nextXid);
  }

  lemma DiscoverIsGenuine(s: Sys)
    ensures var m := DiscoverMsg(s.client.mac, s.client.nextXid);
            Genuine(Sent(m, Selecting, s.offer)) && Xid(m) == s.client.nextXid
  {
    DiscoverParses(s.client.mac, s.client.nextXid);
  }

  lemma TransmitIsOk(s: Sys, m: Msg)
    requires ClientOk(s) && Sending(s.client.state)
    requires Genuine(Sent(m, s.client.state, s.offer)) && Xid(m) == s.client.nextXid
    ensures TurnedOk(s, Turned(IncreaseTimeout(SendMessage(s.client, m)), true))
  {
  }

  lemma EvaluateIsOk(s: Sys, now1: nat, now2: nat)
    requires ClientOk(s)
    ensures TurnedOk(s, Evaluate(s.client, now1, now2))
  {
    var c, t := s.client, Evaluate(s.client, now1, now2);
    if t.sent {
      if c.state == Selecting {
        DiscoverIsGenuine(s);
        TransmitIsOk(s, DiscoverMsg(c.mac, c.nextXid));
      } else {
        RequestIsGenuine(s, c.state);
        TransmitIsOk(s, t.client.lastMsg);
      }
    } else {
      QuietTurnIsOk(s, now1, now2);
    }
  }

  lemma QuietTurnIsOk(s: Sys, now1: nat, now2: nat)
    requires ClientOk(s) && !Evaluate(s.client, now1, now2).sent
    ensures TurnedOk(s, Evaluate(s.client, now1, now2))
  {
  }

  lemma WaitIsProper(c: Client, adjustment: int)
    requires c.nextTimeout != NO_TIMEOUT && -TIMEOUT_SPAN <= adjustment <= TIMEOUT_SPAN
    requires if c.state == Bound then !c.fuzzNextTimeout
             else Sending(c.state) && OnLadder(c.nextTimeout) && c.fuzzNextTimeout
    ensures Proper(Wait(c.state, c.nextTimeout, CalculateTimeoutMillis(c, adjustment)))
  {
  }

  lemma NextXidAdvances(n: nat)
    ensures ((1 + n) % TWO_TO_THE_32 + 1) % TWO_TO_THE_32 == (2 + n) % TWO_TO_THE_32
  {
  }

  lemma OneMoreSent(sent: seq<Sent>, x: Sent)
    requires SentOk(sent) && Genuine(x) && Xid(x.message) == (1 + |sent|) % TWO_TO_THE_32
    ensures SentOk(sent + [x])
  {
  }

  lemma OneMoreWait(waits: seq<Wait>, w: Wait)
    requires WaitsOk(waits) && Proper(w)
    ensures WaitsOk(waits + [w])
  {
  }

  lemma TurnKeepsHistory(s: Sys, t: Turned, now: nat, adjustment: int)
    requires Inv(s) && TurnedOk(s, t) && -TIMEOUT_SPAN <= adjustment <= TIMEOUT_SPAN
    ensures SentOk(AfterTurn(s, t, now, adjustment).sent) && WaitsOk(AfterTurn(s, t, now, adjustment).waits)
  {
    var d := t.client;
    if t.sent {
      OneMoreSent(s.sent, Sent(d.lastMsg, d.state, s.offer));
    }
    if d.nextTimeout != NO_TIMEOUT {
      WaitIsProper(d, adjustment);
      OneMoreWait(s.waits, Wait(d.state, d.nextTimeout, CalculateTimeoutMillis(d, adjustment)));
    }
  }

  lemma TurnKeepsClient(s: Sys, t: Turned, now: nat, adjustment: int)
    requires ClientOk(s) && TurnedOk(s, t)
    ensures ClientOk(AfterTurn(s, t, now, adjustment))
  {
    NextXidAdvances(|s.sent|);
    var r := AfterTurn(s, t, now, adjustment);
    if t.sent {
      assert r.sent == s.sent + [Sent(t.client.lastMsg, t.client.state, s.offer)];
    }
  }

  lemma TurnKeepsInv(s: Sys, t: Turned, now: nat, adjustment: int)
    requires Inv(s) && s.phase.Ready? && TurnedOk(s, t) && -TIMEOUT_SPAN <= adjustment <= TIMEOUT_SPAN
    ensures Inv(AfterTurn(s, t, now, adjustment))
  {
    TurnKeepsHistory(s, t, now, adjustment);
    TurnKeepsClient(s, t, now, adjustment);
    assert PollingOk(AfterTurn(s, t, now, adjustment));
  }

  /** What a poll may do to the client. */
  ghost predicate PolledOk(c: Client, d: Client, p: Poll)
  {
    && d.lastMsg == c.lastMsg && d.nextXid == c.nextXid
    && (d.state == c.state ==>
          && d.requestAddress == c.requestAddress && d.serverAddress == c.serverAddress
          && d.nextTimeout == c.nextTimeout && d.fuzzNextTimeout == c.fuzzNextTimeout)
    && (d.state != c.state ==>
          && d.nextTimeout == NO_TIMEOUT && d.fuzzNextTimeout
          && p.outcome.Readable? && ReceiveDhcpMessage(c, p.outcome.read)
          && var m := p.outcome.read.message;
             || (&& c.state == Selecting && d.state == Requesting && Type(m) == DHCPOFFER
                 && d.serverAddress == ServerId(m) && d.requestAddress == Yiaddr(m))
             || (&& c.state in {Requesting, Renewing, Rebinding}
                 && ((d.state == Bound && Type(m) == DHCPACK && ConfigureDhcp(c, m, p.outcome.read.system).ok)
                     || (d.state == Init && Type(m) == DHCPNAK))
                 && d.requestAddress == c.requestAddress && d.serverAddress == c.serverAddress))
  }

  lemma ConfigureKeeps(c: Client, m: Msg, system: System)
    ensures var d := ConfigureDhcp(c, m, system).client;
            d == c.(info := d.info, t1 := d.t1, t2 := d.t2)
  {
  }

  lemma PollIsOk(c: Client, timeout: word32, p: Poll)
    requires p.startedAt <= p.doneAt
    ensures var w := PollOnce(c, timeout, p);
            PolledOk(c, w.client, p) && (w.client.state != c.state ==> w.phase.Ready?)
  {
    if p.outcome.Readable? && ReceiveDhcpMessage(c, p.outcome.read) {
      ConfigureKeeps(c, p.outcome.read.message, p.outcome.read.system);
    }
  }

  lemma PollKeepsInv(s: Sys, p: Poll)
    requires Inv(s) && Feasible(s, Polled(p))
    ensures Inv(Step(s, Polled(p)))
  {
    PollIsOk(s.client, s.phase.timeout, p);
  }

  lemma {:induction false} RunKeepsInv(s: Sys, es: seq<Event>)
    requires Inv(s) && FeasibleFrom(s, es)
    ensures Inv(RunFrom(s, es))
    decreases |es|
  {
    if es != [] {
      if es[0].Turn? {
        EvaluateIsOk(s, es[0].now1, es[0].now2);
        TurnKeepsInv(s, Evaluate(s.client, es[0].now1, es[0].now2), es[0].now2, es[0].adjustment);
      } else {
        PollKeepsInv(s, es[0].poll);
      }
      RunKeepsInv(Step(s, es[0]), es[1..]);
    }
  }

  // ----- Theorems about whole runs ---------------------------------------------------------------

  lemma InitialInv(s: Sys)
    requires Initial(s)
    ensures Inv(s)
  {
  }

  /** Coherence of every run: all transmissions are genuine, all waits are proper, and whenever the
      client polls, its last message is a DISCOVER while selecting and otherwise, in the states that
      wait for an answer, a REQUEST for the address and to the server of the current offer, or to
      everybody while rebinding. */
  lemma Coherence(s0: Sys, es: seq<Event>)
    requires Initial(s0) && FeasibleFrom(s0, es)
    ensures var s := RunFrom(s0, es);
            && (forall k :: 0 <= k < |s.sent| ==> Genuine(s.sent[k]))
            && (forall k :: 0 <= k < |s.waits| ==> Proper(s.waits[k]))
            && (s.phase.Polling? && s.client.state != Bound ==>
                  && Sending(s.client.state)
                  && IsValidDhcpMessage(s.client.lastMsg, OP_BOOTREQUEST)
                  && (s.client.state == Selecting ==> Type(s.client.lastMsg) == DHCPDISCOVER)
                  && (s.client.state != Selecting ==>
                        && s.offer.Some?
                        && Type(s.client.lastMsg) == DHCPREQUEST
                        && RequestedIp(s.client.lastMsg) == Yiaddr(s.offer.value)
                        && ServerId(s.client.lastMsg) ==
                             if s.client.state == Rebinding then INADDR_BROADCAST else ServerId(s.offer.value)))
  {
    InitialInv(s0);
    RunKeepsInv(s0, es);
    var s := RunFrom(s0, es);
    if s.phase.Polling? && s.client.state != Bound {
      assert Genuine(s.sent[|s.sent| - 1]);
    }
  }

  lemma XidsRepeat(sent: seq<Sent>, i: nat, j: nat)
    requires SentOk(sent) && i <= j < |sent|
    ensures Xid(sent[i].message) == Xid(sent[j].message) <==> (j - i) % TWO_TO_THE_32 == 0
  {
    SameRemainder(1 + i, 1 + j);
  }

  lemma SameRemainder(a: nat, b: nat)
    requires a <= b
    ensures a % TWO_TO_THE_32 == b % TWO_TO_THE_32 <==> (b - a) % TWO_TO_THE_32 == 0
  {
    var d := (b - a) / TWO_TO_THE_32;
    var r := (b - a) % TWO_TO_THE_32;
    assert b == a + d * TWO_TO_THE_32 + r;
  }

  /** Transaction ids: two transmissions of a run carry the same one exactly if their distance is a
      multiple of 2^32.  So the ids of fewer than 2^32 messages are all distinct. */
  lemma XidsRepeatExactly(s0: Sys, es: seq<Event>)
    requires Initial(s0) && FeasibleFrom(s0, es)
    ensures var sent := RunFrom(s0, es).sent;
            forall i, j :: 0 <= i <= j < |sent| ==>
              (Xid(sent[i].message) == Xid(sent[j].message) <==> (j - i) % TWO_TO_THE_32 == 0)
  {
    InitialInv(s0);
    RunKeepsInv(s0, es);
    var sent := RunFrom(s0, es).sent;
    forall i, j | 0 <= i <= j < |sent|
      ensures Xid(sent[i].message) == Xid(sent[j].message) <==> (j - i) % TWO_TO_THE_32 == 0
    {
      XidsRepeat(sent, i, j);
    }
  }

  /** `m` answers the last transmission: it is a valid OFFER, ACK or NAK with the transaction id of
      that one, and with none of the 2^32 - 1 ids that were sent before it. */
  ghost predicate AnswersTheLast(m: Msg, sent: seq<Sent>)
  {
    && sent != []
    && IsValidDhcpMessage(m, OP_BOOTREPLY)
    && Type(m) in {DHCPOFFER, DHCPACK, DHCPNAK}
    && Xid(m) == Xid(sent[|sent| - 1].message)
    && forall k :: 0 <= k < |sent| - 1 < k + TWO_TO_THE_32 ==> Xid(m) != Xid(sent[k].message)
  }

  lemma NearXidsDiffer(sent: seq<Sent>, i: nat, j: nat)
    requires SentOk(sent) && i < j < |sent| && j < i + TWO_TO_THE_32
    ensures Xid(sent[i].message) != Xid(sent[j].message)
  {
    XidsRepeat(sent, i, j);
  }

  lemma AcceptedAnswersTheLast(c: Client, read: Read, sent: seq<Sent>)
    requires SentOk(sent) && sent != [] && c.lastMsg == sent[|sent| - 1].message
    requires ReceiveDhcpMessage(c, read) && Type(read.message) in {DHCPOFFER, DHCPACK, DHCPNAK}
    ensures AnswersTheLast(read.message, sent)
  {
    var n := |sent| - 1;
    forall k | 0 <= k < n < k + TWO_TO_THE_32
      ensures Xid(sent[k].message) != Xid(sent[n].message)
    {
      NearXidsDiffer(sent, k, n);
    }
  }

  /** Answers to earlier transmissions never act: a message that changes anything in the client, be it the
      state or only what a failed configuration leaves behind, answers the last one. */
  lemma OnlyTheLastTransmissionIsAnswered(s0: Sys, es: seq<Event>, p: Poll)
    requires Initial(s0) && FeasibleFrom(s0, es) && Feasible(RunFrom(s0, es), Polled(p))
    requires Step(RunFrom(s0, es), Polled(p)).client != RunFrom(s0, es).client
    ensures p.outcome.Readable? && p.outcome.read.Datagram?
    ensures AnswersTheLast(p.outcome.read.message, RunFrom(s0, es).sent)
  {
    InitialInv(s0);
    RunKeepsInv(s0, es);
    var s := RunFrom(s0, es);
    PollIsOk(s.client, s.phase.timeout, p);
    AcceptedAnswersTheLast(s.client, p.outcome.read, s.sent);
  }

  /** A poll has brought a packet for the client's port with a valid reply to the last message. */
  predicate BringsReply(c: Client, p: Poll)
  {
    && p.outcome.Readable? && p.outcome.read.Datagram? && p.outcome.read.udpValid
    && IsValidDhcpMessage(p.outcome.read.message, 2)
    && Xid(p.outcome.read.message) == Xid(c.lastMsg)
  }

  /** Which messages act, by their type, and on which states: an offer (2) while selecting, a refusal (6) and an
      acknowledgement (5) while waiting for one.  Whatever else a poll brings changes nothing. */
  lemma MessagesActExactly(c: Client, timeout: word32, p: Poll)
    requires p.startedAt <= p.doneAt
    ensures var d := PollOnce(c, timeout, p).client;
            && (!BringsReply(c, p) || c.state == Init || c.state == Bound ==> d == c)
            && (BringsReply(c, p) && c.state == Selecting ==>
                  var m := p.outcome.read.message;
                  && (d.state == Requesting <==> Type(m) == 2)
                  && (Type(m) == 2 ==> d.serverAddress == ServerId(m) && d.requestAddress == Yiaddr(m))
                  && (Type(m) != 2 ==> d == c))
            && (BringsReply(c, p) && (c.state == Requesting || c.state == Renewing || c.state == Rebinding) ==>
                  var t := Type(p.outcome.read.message);
                  && (d.state == Init <==> t == 6)
                  && (d.state == Bound ==> t == 5)
                  && (t != 5 && t != 6 ==> d == c))
  {
    if BringsReply(c, p) {
      ConfigureKeeps(c, p.outcome.read.message, p.outcome.read.system);
    }
  }

  // ----- Stays in one state ------------------------------------------------------------------------

  /** From `s` on, the events leave the client in the given state. */
  predicate StaysIn(s: Sys, es: seq<Event>, state: State)
    requires FeasibleFrom(s, es)
    decreases |es|
  {
    s.client.state == state && (es == [] || StaysIn(Step(s, es[0]), es[1..], state))
  }

  // ----- Giving up after five requests -----------------------------------------------------------

  /** The event brings an answer that the client acts on. */
  predicate Answered(s: Sys, e: Event)
  {
    && e.Polled? && e.poll.outcome.Readable? && ReceiveDhcpMessage(s.client, e.poll.outcome.read)
    && var m := e.poll.outcome.read.message;
       || Type(m) == DHCPNAK
       || (Type(m) == DHCPACK && ConfigureDhcp(s.client, m, e.poll.outcome.read.system).ok)
  }

  /** The events of a stay in one state: all but the last leave the client in it, and the last, which
      is not an accepted answer, takes the client out of it. */
  predicate UnansweredStay(s: Sys, es: seq<Event>)
    requires FeasibleFrom(s, es)
    decreases |es|
  {
    && es != []
    && var t := Step(s, es[0]);
       if |es| == 1 then t.client.state != s.client.state && !Answered(s, es[0])
       else t.client.state == s.client.state && UnansweredStay(t, es[1..])
  }

  function Bases(waits: seq<Wait>): seq<word32>
  {
    if waits == [] then [] else [waits[0].base] + Bases(waits[1..])
  }

  /** The waits that are left after `k` of them. */
  function Ladder(k: nat): seq<word32>
    decreases 5 - k
  {
    if k >= 5 then [] else [Rung(k + 1)] + Ladder(k + 1)
  }

  /** A turn sends one message and starts one wait. */
  ghost predicate Climbs(s: Sys, t: Sys, k: nat)
  {
    && t.client.state == s.client.state && t.client.nextTimeout == Rung(k + 1)
    && |t.sent| == |s.sent| + 1 && t.sent == s.sent + [t.sent[|s.sent|]]
    && t.sent[|s.sent|].from == s.client.state
    && |t.waits| == |s.waits| + 1 && t.waits == s.waits + [t.waits[|s.waits|]]
    && t.waits[|s.waits|].base == Rung(k + 1)
  }

  lemma StepOnRung(s: Sys, e: Event, k: nat)
    requires s.client.state in {Requesting, Rebinding} && s.client.nextTimeout == Rung(k) && k <= 5
    requires Feasible(s, e)
    ensures var t := Step(s, e);
            && (e.Polled? || k == 5 ==> t.sent == s.sent && t.waits == s.waits)
            && (e.Polled? && t.client.state == s.client.state ==> t.client.nextTimeout == s.client.nextTimeout)
            && (e.Polled? && t.client.state != s.client.state ==> Answered(s, e))
            && (e.Turn? && k == 5 ==> t.client.state == Init)
            && (e.Turn? && k < 5 ==> Climbs(s, t, k))
  {
    if e.Polled? {
      PollIsOk(s.client, s.phase.timeout, e.poll);
    }
  }

  /** From `s` to `r` the client sends `out`, all from the state of `s`, and waits `more`, which are
      the waits that are left after `k` of them; then it is in Init. */
  ghost predicate GivesUp(s: Sys, r: Sys, k: nat, out: seq<Sent>, more: seq<Wait>)
  {
    && r.client.state == Init
    && r.sent == s.sent + out && |out| + k == 5
    && (forall j :: 0 <= j < |out| ==> out[j].from == s.client.state)
    && r.waits == s.waits + more && Bases(more) == Ladder(k)
  }

  lemma ClimbThenGiveUp(s: Sys, t: Sys, r: Sys, k: nat, out: seq<Sent>, more: seq<Wait>)
    requires k < 5 && Climbs(s, t, k) && GivesUp(t, r, k + 1, out, more)
    ensures GivesUp(s, r, k, [t.sent[|s.sent|]] + out, [t.waits[|s.waits|]] + more)
  {
    var x, w := t.sent[|s.sent|], t.waits[|s.waits|];
    assert s.sent + ([x] + out) == s.sent + [x] + out;
    assert s.waits + ([w] + more) == s.waits + [w] + more;
    assert ([w] + more)[1..] == more;
  }

  lemma {:induction false} StayOnRung(s: Sys, es: seq<Event>, k: nat) returns (out: seq<Sent>, more: seq<Wait>)
    requires s.client.state in {Requesting, Rebinding} && s.client.nextTimeout == Rung(k) && k <= 5
    requires FeasibleFrom(s, es) && UnansweredStay(s, es)
    ensures GivesUp(s, RunFrom(s, es), k, out, more)
    decreases |es|
  {
    StepOnRung(s, es[0], k);
    var t := Step(s, es[0]);
    assert RunFrom(s, es) == RunFrom(t, es[1..]);
    if |es| == 1 {
      out, more := [], [];
    } else if es[0].Polled? {
      out, more := StayOnRung(t, es[1..], k);
    } else {
      out, more := StayOnRung(t, es[1..], k + 1);
      ClimbThenGiveUp(s, t, RunFrom(t, es[1..]), k, out, more);
      out, more := [t.sent[|s.sent|]] + out, [t.waits[|s.waits|]] + more;
    }
  }

  lemma FullLadder()
    ensures Ladder(0) == [4000, 8000, 16000, 32000, 64000]
  {
    assert Ladder(4) == [Rung(5)] + Ladder(5);
    assert Ladder(2) == [Rung(3)] + ([Rung(4)] + Ladder(4));
    assert Ladder(0) == [Rung(1)] + ([Rung(2)] + Ladder(2));
  }

  lemma AllRequests(s: Sys, r: Sys, out: seq<Sent>)
    requires SentOk(r.sent) && r.sent == s.sent + out && s.client.state in {Requesting, Rebinding}
    requires forall j :: 0 <= j < |out| ==> out[j].from == s.client.state
    ensures forall j :: |s.sent| <= j < |r.sent| ==>
              r.sent[j].from == s.client.state && Type(r.sent[j].message) == DHCPREQUEST
  {
    assert forall j :: |s.sent| <= j < |r.sent| ==> r.sent[j] == out[j - |s.sent|] && Genuine(r.sent[j]);
  }

  /** From `s` to `r` exactly five REQUESTs have been sent, all from the state of `s`, the waits started
      were of 4, 8, 16, 32 and 64 seconds, and the client is in Init. */
  ghost predicate GaveUpAfterFive(s: Sys, r: Sys)
  {
    && r.client.state == Init
    && |r.sent| == |s.sent| + 5
    && r.sent[..|s.sent|] == s.sent
    && (forall j :: |s.sent| <= j < |r.sent| ==>
          r.sent[j].from == s.client.state && Type(r.sent[j].message) == DHCPREQUEST)
    && |s.waits| <= |r.waits| && r.waits[..|s.waits|] == s.waits
    && Bases(r.waits[|s.waits|..]) == [4000, 8000, 16000, 32000, 64000]
  }

  lemma FreshStayGivesUp(s: Sys, es: seq<Event>)
    requires Inv(s) && s.client.state in {Requesting, Rebinding} && s.client.nextTimeout == NO_TIMEOUT
    requires FeasibleFrom(s, es) && UnansweredStay(s, es)
    ensures GaveUpAfterFive(s, RunFrom(s, es))
  {
    var out, more := StayOnRung(s, es, 0);
    var r := RunFrom(s, es);
    RunKeepsInv(s, es);
    AllRequests(s, r, out);
    assert r.waits[|s.waits|..] == more;
    FullLadder();
  }

  /** Every state is entered with an immediate turn and no timeout. */
  lemma StatesAreEnteredFresh(s: Sys, e: Event)
    requires Inv(s) && Feasible(s, e) && Step(s, e).client.state != s.client.state
    ensures Step(s, e).client.nextTimeout == NO_TIMEOUT && Step(s, e).phase == Ready
  {
    if e.Polled? {
      PollIsOk(s.client, s.phase.timeout, e.poll);
    }
  }

  lemma StepKeepsInv(s: Sys, e: Event)
    requires Inv(s) && Feasible(s, e)
    ensures Inv(Step(s, e))
  {
    assert [e][1..] == [];
    RunKeepsInv(s, [e]);
    assert RunFrom(s, [e]) == RunFrom(Step(s, e), []) == Step(s, e);
  }

  /** Section 4.1 of RFC 2131 and the give-up rule: in every run, a stay in Requesting or Rebinding, from
      the event that enters the state until it is left without an accepted ACK or NAK, sends exactly
      five REQUESTs from that state, waits 4, 8, 16, 32 and 64 seconds, and ends in Init. */
  lemma FiveRequestsThenInit(s0: Sys, es: seq<Event>, enter: Event, stay: seq<Event>)
    requires Initial(s0) && FeasibleFrom(s0, es) && Feasible(RunFrom(s0, es), enter)
    requires var s := Step(RunFrom(s0, es), enter);
             && s.client.state in {Requesting, Rebinding}
             && s.client.state != RunFrom(s0, es).client.state
             && FeasibleFrom(s, stay) && UnansweredStay(s, stay)
    ensures var s := Step(RunFrom(s0, es), enter);
            GaveUpAfterFive(s, RunFrom(s, stay))
  {
    InitialInv(s0);
    RunKeepsInv(s0, es);
    StatesAreEnteredFresh(RunFrom(s0, es), enter);
    StepKeepsInv(RunFrom(s0, es), enter);
    FreshStayGivesUp(Step(RunFrom(s0, es), enter), stay);
  }

  // ----- Waiting ---------------------------------------------------------------------------------

  /** The effective deadline of a poll. */
  function Deadline(s: Sys, p: Poll): nat
    requires s.phase.Polling?
  {
    p.startedAt + s.phase.timeout
  }

  /** The polls of one call of `waitAndReceive`: the last one returns. */
  predicate OneWait(s: Sys, polls: seq<Poll>)
    decreases |polls|
  {
    && polls != []
    && Feasible(s, Polled(polls[0]))
    && var t := Step(s, Polled(polls[0]));
       if |polls| == 1 then t.phase.Ready? else t.phase.Polling? && OneWait(t, polls[1..])
  }

  function AfterWait(s: Sys, polls: seq<Poll>): Sys
    requires OneWait(s, polls)
    decreases |polls|
  {
    var t := Step(s, Polled(polls[0]));
    if |polls| == 1 then t else AfterWait(t, polls[1..])
  }

  /** From one poll to the next, the deadline does not move earlier. */
  lemma DeadlineNeverMovesEarlier(s: Sys, p: Poll, next: Poll)
    requires Feasible(s, Polled(p)) && Feasible(Step(s, Polled(p)), Polled(next))
    ensures Deadline(s, p) <= Deadline(Step(s, Polled(p)), next)
  {
  }

  /** However many errors, irrelevant messages and failed configurations there are, `waitAndReceive`
      returns without a change of state only when the timeout it was called with has fully elapsed
      since its first reading of the clock. */
  lemma {:induction false} WaitsOutTheTimeout(s: Sys, polls: seq<Poll>)
    requires OneWait(s, polls)
    ensures AfterWait(s, polls).client.state != s.client.state
            || AfterWait(s, polls).clock >= polls[0].startedAt + s.phase.timeout
    decreases |polls|
  {
    var p := polls[0];
    PollIsOk(s.client, s.phase.timeout, p);
    if |polls| > 1 {
      DeadlineNeverMovesEarlier(s, p, polls[1]);
      WaitsOutTheTimeout(Step(s, Polled(p)), polls[1..]);
    }
  }

  // ----- Bound -----------------------------------------------------------------------------------

  /** Bound is left for Renewing only, and exactly at a turn that finds T1 expired.  Otherwise the wait
      is what remains of T1, reduced modulo 2^32 and not fuzzed, so that it never goes beyond T1; no
      message is sent, and received ones change nothing. */
  lemma BoundIsLeftAtT1(s: Sys, e: Event)
    requires s.client.state == Bound && Feasible(s, e)
    ensures var t := Step(s, e);
            && t.sent == s.sent && t.client.t1 == s.client.t1
            && (t.client.state == Bound || t.client.state == Renewing)
            && (t.client.state == Renewing <==> e.Turn? && Expired(s.client.t1, e.now1))
            && (e.Polled? ==> t.client == s.client)
            && (e.Turn? && t.phase.Polling? ==>
                  && t.phase.timeout == t.client.nextTimeout == RemainingMillis(s.client.t1, e.now2) % TWO_TO_THE_32
                  && t.clock + t.phase.timeout <= s.client.t1)
            && (e.Turn? && t.phase.Ready? && t.client.state == Bound ==>
                  RemainingMillis(s.client.t1, e.now2) % TWO_TO_THE_32 == 0)
  {
  }

  /** Renewing is left without an answer exactly at a turn that finds T2 expired, for Rebinding and
      without a transmission; every other turn sends one message. */
  lemma RenewingIsLeftAtT2(s: Sys, e: Event)
    requires s.client.state == Renewing && Feasible(s, e)
    ensures var t := Step(s, e);
            && (t.client.state != Renewing && !Answered(s, e) <==> e.Turn? && Expired(s.client.t2, e.now1))
            && (e.Turn? && Expired(s.client.t2, e.now1) ==> t.client.state == Rebinding && t.sent == s.sent)
            && (e.Turn? && !Expired(s.client.t2, e.now1) ==> |t.sent| == |s.sent| + 1)
  {
    if e.Polled? {
      PollIsOk(s.client, s.phase.timeout, e.poll);
    }
  }

  /** Until T1 a bound client stays bound and silent, whatever arrives. */
  lemma {:induction false} SilentUntilT1(s: Sys, es: seq<Event>)
    requires s.client.state == Bound && FeasibleFrom(s, es) && RunFrom(s, es).clock < s.client.t1
    ensures var r := RunFrom(s, es);
            r.client.state == Bound && r.sent == s.sent && r.client.t1 == s.client.t1 && r.client.info == s.client.info
    decreases |es|
  {
    if es != [] {
      BoundIsLeftAtT1(s, es[0]);
      var t := Step(s, es[0]);
      ClockNeverGoesBack(t, es[1..]);
      SilentUntilT1(t, es[1..]);
    }
  }

  lemma {:induction false} ClockNeverGoesBack(s: Sys, es: seq<Event>)
    requires FeasibleFrom(s, es)
    ensures s.clock <= RunFrom(s, es).clock
    decreases |es|
  {
    if es != [] {
      ClockNeverGoesBack(Step(s, es[0]), es[1..]);
    }
  }
}

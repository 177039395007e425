/**
 From an acknowledgement to the timers and states of the client, told by the options of the message: when it
 binds, when renewing starts and when rebinding starts.
 */
module LeaseTimes {
  import opened Bytes
  import opened Wrappers
  import opened DhcpOptions
  import opened DhcpMessage
  import opened Lease
  import opened Timers
  import opened ClientMachine
  import opened ClientRuns
  import opened Handshake

  /** The options give the time `w` for a code, or none, which counts as 0. */
  predicate GivesTime(opts: seq<Opt>, code: byte, w: word32)
  {
    Bodies(opts, code) == [Be32Bytes(w)] || (Bodies(opts, code) == [] && w == 0)
  }

  /** An acknowledgement with these options: a lease time and, if they are not 0, T1 and T2. */
  ghost predicate IsAck(m: Msg, c: Client, opts: seq<Opt>, lease: word32, t1: word32, t2: word32)
  {
    && IsValidDhcpMessage(m, 2) && Xid(m) == Xid(c.lastMsg) && Type(m) == 5
    && Closed(m, opts)
    && GivesTime(opts, OPT_LEASE_TIME, lease) && GivesTime(opts, OPT_T1, t1) && GivesTime(opts, OPT_T2, t2)
  }

  lemma TimeIsLastGiven(opts: seq<Opt>, code: byte, w: word32)
    requires GivesTime(opts, code, w) && IsTime(code)
    ensures LastGiven(code, 0, Bodies(opts, code)) == Number(w)
  {
  }

  lemma TimeIsRead(m: Msg, opts: seq<Opt>, code: byte, w: word32)
    requires Closed(m, opts) && GivesTime(opts, code, w) && IsTime(code)
    ensures Slot(Collect(OptionField(m), OptionsSize(m), 4, NO_INFO).info, code, 0) == Number(w)
  {
    LoopKeepsLast(OptionField(m), OptionsSize(m), 4, opts, code, 0);
    TimeIsLastGiven(opts, code, w);
  }

  lemma TimesAreRead(m: Msg, opts: seq<Opt>, lease: word32, t1: word32, t2: word32)
    requires Closed(m, opts)
    requires GivesTime(opts, OPT_LEASE_TIME, lease) && GivesTime(opts, OPT_T1, t1) && GivesTime(opts, OPT_T2, t2)
    ensures var r := Collect(OptionField(m), OptionsSize(m), 4, NO_INFO);
            r.ok && r.info.leaseTime == lease && r.info.t1 == t1 && r.info.t2 == t2
  {
    ClosedIsAccepted(m, opts);
    TimeIsRead(m, opts, OPT_LEASE_TIME, lease);
    TimeIsRead(m, opts, OPT_T1, t1);
    TimeIsRead(m, opts, OPT_T2, t2);
  }

  /** The seconds until renewing and rebinding: those of the message, else half the lease time, and seven
      eighths of it as far as 32 bits hold the product. */
  function RenewAfter(lease: word32, t1: word32): nat { if t1 > 0 then t1 else lease / 2 }

  function RebindAfter(lease: word32, t2: word32): nat
  {
    if t2 > 0 then t2
    else if 7 * lease as int < 0x1_0000_0000 then 7 * lease as int / 8
    else 7 * lease as int % 0x1_0000_0000 / 8
  }

  lemma SecondsAgree(info: DhcpInfo)
    ensures T1Seconds(info) == RenewAfter(info.leaseTime, info.t1)
    ensures T2Seconds(info) == RebindAfter(info.leaseTime, info.t2)
  {
  }

  lemma ConfigureGives(c: Client, m: Msg, system: System, info: DhcpInfo)
    requires OptionsSize(m) >= 4 && Collect(OptionField(m), OptionsSize(m), 4, NO_INFO) == Collected(info, true)
    ensures var r := ConfigureDhcp(c, m, system);
            && (r.ok <==> info.leaseTime > 0 && system.bringUp && system.setAddress
                          && (c.noGateway || system.setGateway))
            && (info.leaseTime == 0 ==> r.client.t1 == c.t1 && r.client.t2 == c.t2)
            && (info.leaseTime > 0 ==>
                  && r.client.t1 == system.now1 + 1000 * T1Seconds(info)
                  && r.client.t2 == system.now2 + 1000 * T2Seconds(info))
  {
    var all := info.(offeredAddress := Yiaddr(m));
    assert T1Seconds(all) == T1Seconds(info) && T2Seconds(all) == T2Seconds(info);
  }

  lemma ConfiguresTimers(c: Client, m: Msg, system: System, opts: seq<Opt>, lease: word32, t1: word32, t2: word32)
    requires IsAck(m, c, opts, lease, t1, t2)
    ensures var r := ConfigureDhcp(c, m, system);
            && (r.ok <==> lease > 0 && system.bringUp && system.setAddress && (c.noGateway || system.setGateway))
            && (lease == 0 ==> r.client.t1 == c.t1 && r.client.t2 == c.t2)
            && (lease > 0 ==>
                  && r.client.t1 == system.now1 + 1000 * RenewAfter(lease, t1)
                  && r.client.t2 == system.now2 + 1000 * RebindAfter(lease, t2))
  {
    ValidHasCookie(m);
    TimesAreRead(m, opts, lease, t1, t2);
    var info := Collect(OptionField(m), OptionsSize(m), 4, NO_INFO).info;
    SecondsAgree(info);
    ConfigureGives(c, m, system, info);
  }

  /** The states in which the client waits for an acknowledgement. */
  predicate Waiting(state: State)
  {
    state == Requesting || state == Renewing || state == Rebinding
  }

  /** What a poll does that brings an acknowledgement: it configures, and binds if that succeeds. */
  lemma AckConfigures(c: Client, timeout: word32, p: Poll, m: Msg)
    requires Waiting(c.state) && Brings(p, m)
    requires IsValidDhcpMessage(m, OP_BOOTREPLY) && Xid(m) == Xid(c.lastMsg) && Type(m) == DHCPACK
    ensures var w, r := PollOnce(c, timeout, p), ConfigureDhcp(c, m, p.outcome.read.system);
            && w.client == (if r.ok then SetNextState(r.client, Bound) else r.client)
            && (r.ok ==> w.phase.Ready?)
            && (!r.ok ==> (w.phase.Polling? <==> p.doneAt - p.startedAt < timeout))
  {
  }

  /** A waiting client becomes bound by an acknowledgement exactly if it gives a lease time that is not zero and
      the interface can be brought up and gets its address and, unless that is not asked for, its
      gateway.  Otherwise the client goes on waiting for what is left of its timeout. */
  lemma BoundExactly(c: Client, timeout: word32, p: Poll, m: Msg, opts: seq<Opt>,
                     lease: word32, t1: word32, t2: word32)
    requires Waiting(c.state) && Brings(p, m) && IsAck(m, c, opts, lease, t1, t2)
    ensures var w, system := PollOnce(c, timeout, p), p.outcome.read.system;
            && (w.client.state == Bound
                <==> lease > 0 && system.bringUp && system.setAddress && (c.noGateway || system.setGateway))
            && (w.client.state == Bound ==>
                  && w.phase.Ready?
                  && w.client.t1 == system.now1 + 1000 * RenewAfter(lease, t1)
                  && w.client.t2 == system.now2 + 1000 * RebindAfter(lease, t2))
            && (w.client.state != Bound ==>
                  && w.client.state == c.state
                  && w.client.nextTimeout == c.nextTimeout && w.client.lastMsg == c.lastMsg
                  && (w.phase.Polling? <==> p.doneAt - p.startedAt < timeout))
  {
    var system := p.outcome.read.system;
    AckConfigures(c, timeout, p, m);
    ConfiguresTimers(c, m, system, opts, lease, t1, t2);
    ConfigureKeeps(c, m, system);
    var r, w := ConfigureDhcp(c, m, system), PollOnce(c, timeout, p);
    KeptOrBound(c, r, w.client);
  }

  lemma KeptOrBound(c: Client, r: Configured, d: Client)
    requires Waiting(c.state) && r.client == c.(info := r.client.info, t1 := r.client.t1, t2 := r.client.t2)
    requires d == if r.ok then SetNextState(r.client, Bound) else r.client
    ensures d.t1 == r.client.t1 && d.t2 == r.client.t2 && (d.state == Bound <==> r.ok)
    ensures !r.ok ==> d.state == c.state && d.nextTimeout == c.nextTimeout && d.lastMsg == c.lastMsg
  {
  }

  /** From the poll that binds the client, whatever arrives before T1, the turn that follows starts to renew
      exactly if the T1 of the message, or half of its lease time, has passed since it was configured. */
  lemma RenewsByTheMessage(s: Sys, q: Poll, m: Msg, opts: seq<Opt>, lease: word32, t1: word32, t2: word32,
                           es: seq<Event>, v: Sys, now1: nat, now2: nat, adjustment: int)
    requires Waiting(s.client.state) && Feasible(s, Polled(q))
    requires Brings(q, m) && IsAck(m, s.client, opts, lease, t1, t2) && Step(s, Polled(q)).client.state == Bound
    requires FeasibleFrom(Step(s, Polled(q)), es) && v == RunFrom(Step(s, Polled(q)), es)
    requires v.clock - q.outcome.read.system.now1 < 1000 * RenewAfter(lease, t1)
    requires Feasible(v, Turn(now1, now2, adjustment))
    ensures v.client.state == Bound && v.sent == s.sent
    ensures Step(v, Turn(now1, now2, adjustment)).client.state == Renewing
            <==> now1 - q.outcome.read.system.now1 >= 1000 * RenewAfter(lease, t1)
  {
    BoundExactly(s.client, s.phase.timeout, q, m, opts, lease, t1, t2);
    SilentUntilT1(Step(s, Polled(q)), es);
    BoundIsLeftAtT1(v, Turn(now1, now2, adjustment));
  }

  /** No acknowledgement of the last message arrives in the run. */
  predicate Unconfigured(s: Sys, es: seq<Event>)
    requires FeasibleFrom(s, es)
    decreases |es|
  {
    es == [] ||
    (&& (es[0].Polled? && es[0].poll.outcome.Readable? && ReceiveDhcpMessage(s.client, es[0].poll.outcome.read) ==>
           Type(es[0].poll.outcome.read.message) != DHCPACK)
     && Unconfigured(Step(s, es[0]), es[1..]))
  }

  lemma StepKeepsTimers(s: Sys, e: Event)
    requires Feasible(s, e)
    requires e.Polled? && e.poll.outcome.Readable? && ReceiveDhcpMessage(s.client, e.poll.outcome.read) ==>
               Type(e.poll.outcome.read.message) != DHCPACK
    ensures Step(s, e).client.t1 == s.client.t1 && Step(s, e).client.t2 == s.client.t2
  {
  }

  lemma {:induction false} TimersStay(s: Sys, es: seq<Event>)
    requires FeasibleFrom(s, es) && Unconfigured(s, es)
    ensures RunFrom(s, es).client.t1 == s.client.t1 && RunFrom(s, es).client.t2 == s.client.t2
    decreases |es|
  {
    if es != [] {
      StepKeepsTimers(s, es[0]);
      TimersStay(Step(s, es[0]), es[1..]);
    }
  }

  /** And when the client is renewing without another acknowledgement, a turn starts to rebind exactly if the T2
      of the message, or seven eighths of its lease time, has passed. */
  lemma RebindsByTheMessage(s: Sys, q: Poll, m: Msg, opts: seq<Opt>, lease: word32, t1: word32, t2: word32,
                            es: seq<Event>, v: Sys, now1: nat, now2: nat, adjustment: int)
    requires Waiting(s.client.state) && Feasible(s, Polled(q))
    requires Brings(q, m) && IsAck(m, s.client, opts, lease, t1, t2) && Step(s, Polled(q)).client.state == Bound
    requires FeasibleFrom(Step(s, Polled(q)), es) && Unconfigured(Step(s, Polled(q)), es)
    requires v == RunFrom(Step(s, Polled(q)), es) && v.client.state == Renewing
    requires Feasible(v, Turn(now1, now2, adjustment))
    ensures Step(v, Turn(now1, now2, adjustment)).client.state == Rebinding
            <==> now1 - q.outcome.read.system.now2 >= 1000 * RebindAfter(lease, t2)
  {
    BoundExactly(s.client, s.phase.timeout, q, m, opts, lease, t1, t2);
    TimersStay(Step(s, Polled(q)), es);
    RenewingIsLeftAtT2(v, Turn(now1, now2, adjustment));
  }
}

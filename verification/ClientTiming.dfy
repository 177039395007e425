/**
 How long the client waits: the timeout of every wait, the backoff of every stay in a sending state, and what
 the polls of one wait do with the time.
 */
module ClientTiming {
  import opened Bytes
  import opened Wrappers
  import opened ClientMachine
  import opened ClientRuns

  // ----- Every wait --------------------------------------------------------------------------------

  /** In every run, a turn that starts to wait in a sending state waits for the base timeout plus the random
      adjustment of that turn; in Bound it waits for the timeout itself.  A turn does not wait only if
      there is no timeout. */
  lemma WaitIsBasePlusAdjustment(s0: Sys, es: seq<Event>, e: Event)
    requires Initial(s0) && FeasibleFrom(s0, es) && Feasible(RunFrom(s0, es), e) && e.Turn?
    ensures var s, t := RunFrom(s0, es), Step(RunFrom(s0, es), e);
            && (t.phase.Ready? <==> t.client.nextTimeout == 0)
            && (t.phase.Ready? ==> t.waits == s.waits)
            && (t.phase.Polling? ==>
                  && t.waits == s.waits + [Wait(t.client.state, t.client.nextTimeout, t.phase.timeout)]
                  && t.phase.timeout ==
                       if t.client.state == Bound then t.client.nextTimeout else t.client.nextTimeout + e.adjustment)
  {
    InitialInv(s0);
    RunKeepsInv(s0, es);
    EvaluateIsOk(RunFrom(s0, es), e.now1, e.now2);
    TurnWaits(RunFrom(s0, es), e);
  }

  /** What a turn's client may wait with. */
  predicate MayWait(c: Client)
  {
    if c.state == Bound then !c.fuzzNextTimeout
    else if Sending(c.state) then OnLadder(c.nextTimeout) && c.fuzzNextTimeout
    else c.nextTimeout == NO_TIMEOUT
  }

  lemma BeginWaits(s: Sys, t: Turned, now: nat, adjustment: int)
    requires MayWait(t.client) && s.phase.Ready? && -TIMEOUT_SPAN <= adjustment <= TIMEOUT_SPAN
    ensures var r, c := AfterTurn(s, t, now, adjustment), t.client;
            && r.client == c
            && (r.phase.Ready? <==> c.nextTimeout == 0)
            && (r.phase.Ready? ==> r.waits == s.waits)
            && (r.phase.Polling? ==>
                  && r.waits == s.waits + [Wait(c.state, c.nextTimeout, r.phase.timeout)]
                  && r.phase.timeout == if c.state == Bound then c.nextTimeout else c.nextTimeout + adjustment)
  {
  }

  lemma TurnWaits(s: Sys, e: Event)
    requires Inv(s) && Feasible(s, e) && e.Turn? && TurnedOk(s, Evaluate(s.client, e.now1, e.now2))
    ensures var t := Step(s, e);
            && (t.phase.Ready? <==> t.client.nextTimeout == 0)
            && (t.phase.Ready? ==> t.waits == s.waits)
            && (t.phase.Polling? ==>
                  && t.waits == s.waits + [Wait(t.client.state, t.client.nextTimeout, t.phase.timeout)]
                  && t.phase.timeout ==
                       if t.client.state == Bound then t.client.nextTimeout else t.client.nextTimeout + e.adjustment)
  {
    BeginWaits(s, Evaluate(s.client, e.now1, e.now2), e.now2, e.adjustment);
  }

  /** The random adjustment may be anything up to a second either way, and nothing else. */
  lemma AdjustmentsAreWithinASecond(s: Sys, now: nat, adjustment: int)
    requires s.phase.Ready? && s.clock <= now
    ensures Feasible(s, Turn(now, now, adjustment)) <==> -1000 <= adjustment <= 1000
  {
  }

  // ----- The polls of one wait ---------------------------------------------------------------------

  /** A poll that goes on leaves exactly the time that it has not taken, and a poll ends the wait exactly if
      it times out, changes the state or has taken all the time. */
  lemma PollSpendsTime(s: Sys, p: Poll)
    requires Feasible(s, Polled(p))
    ensures var t := Step(s, Polled(p));
            && (t.phase.Polling? ==> p.doneAt + t.phase.timeout == p.startedAt + s.phase.timeout && t.phase.timeout > 0)
            && (t.phase.Ready? <==>
                  || p.outcome.TimedOut?
                  || t.client.state != s.client.state
                  || p.doneAt - p.startedAt >= s.phase.timeout)
  {
    PollIsOk(s.client, s.phase.timeout, p);
  }

  /** The time spent in all polls of a wait but the last, and the time that the last one is given. */
  function SpentBefore(polls: seq<Poll>): int
  {
    if |polls| <= 1 then 0 else polls[0].doneAt - polls[0].startedAt + SpentBefore(polls[1..])
  }

  function GivenToLast(s: Sys, polls: seq<Poll>): nat
    requires OneWait(s, polls)
    decreases |polls|
  {
    if |polls| == 1 then s.phase.timeout else GivenToLast(Step(s, Polled(polls[0])), polls[1..])
  }

  /** Over one whole wait, whatever interrupts it, the last poll is given exactly what the others have left of
      the chosen timeout. */
  lemma {:induction false} WaitSpendsItsTimeout(s: Sys, polls: seq<Poll>)
    requires OneWait(s, polls)
    ensures SpentBefore(polls) + GivenToLast(s, polls) == s.phase.timeout
    ensures |polls| > 1 ==> 0 <= SpentBefore(polls) < s.phase.timeout
    decreases |polls|
  {
    if |polls| > 1 {
      PollSpendsTime(s, polls[0]);
      WaitSpendsItsTimeout(Step(s, Polled(polls[0])), polls[1..]);
    }
  }

  // ----- The backoff of every stay -----------------------------------------------------------------

  function Turns(es: seq<Event>): nat
  {
    if es == [] then 0 else (if es[0].Turn? then 1 else 0) + Turns(es[1..])
  }

  /** From `s` to `r` there were `n` turns after the first `k` of a stay: each has sent one message from the
      state of `s` and started one wait, with the timeouts 4, 8, 16, 32 and 64 seconds and then always 64. */
  ghost predicate Backoff(s: Sys, r: Sys, k: nat, n: nat)
  {
    && r.client.state == s.client.state && r.client.nextTimeout == Rung(k + n)
    && |r.sent| == |s.sent| + n && r.sent[..|s.sent|] == s.sent
    && |r.waits| == |s.waits| + n && r.waits[..|s.waits|] == s.waits
    && (forall i :: |s.sent| <= i < |r.sent| ==> r.sent[i].from == s.client.state)
    && (forall i :: |s.waits| <= i < |r.waits| ==>
          r.waits[i].state == s.client.state && r.waits[i].base == Rung(k + i - |s.waits| + 1))
  }

  lemma RungUp(k: nat)
    ensures IncreasedTimeout(Rung(k)) == Rung(k + 1) && Rung(k + 1) != 0
  {
  }

  lemma PollOfStay(s: Sys, p: Poll, k: nat)
    requires s.client.nextTimeout == Rung(k) && Feasible(s, Polled(p))
    requires Step(s, Polled(p)).client.state == s.client.state
    ensures Backoff(s, Step(s, Polled(p)), k, 0)
  {
    PollIsOk(s.client, s.phase.timeout, p);
  }

  /** A turn that stays in a sending state sends from there and climbs the ladder. */
  lemma TurnSends(c: Client, now1: nat, now2: nat)
    requires Sending(c.state) && Evaluate(c, now1, now2).client.state == c.state
    ensures var t := Evaluate(c, now1, now2);
            t.sent && t.client.nextTimeout == IncreasedTimeout(c.nextTimeout)
  {
  }

  lemma SendingBacksOff(s: Sys, t: Turned, now: nat, adjustment: int, k: nat)
    requires t.sent && t.client.state == s.client.state && t.client.nextTimeout == Rung(k + 1)
    ensures Backoff(s, AfterTurn(s, t, now, adjustment), k, 1)
  {
    RungUp(k);
  }

  lemma StepOfStay(s: Sys, e: Event, k: nat)
    requires Sending(s.client.state) && s.client.nextTimeout == Rung(k) && Feasible(s, e)
    requires Step(s, e).client.state == s.client.state
    ensures Backoff(s, Step(s, e), k, if e.Turn? then 1 else 0)
  {
    match e
    case Polled(p) => PollOfStay(s, p, k);
    case Turn(now1, now2, adjustment) =>
      TurnSends(s.client, now1, now2);
      RungUp(k);
      SendingBacksOff(s, Evaluate(s.client, now1, now2), now2, adjustment, k);
  }

  lemma BackoffTwice(s: Sys, t: Sys, r: Sys, k: nat, m: nat, n: nat)
    requires Backoff(s, t, k, m) && Backoff(t, r, k + m, n)
    ensures Backoff(s, r, k, m + n)
  {
    assert r.sent[..|s.sent|] == r.sent[..|t.sent|][..|s.sent|];
    assert r.waits[..|s.waits|] == r.waits[..|t.waits|][..|s.waits|];
    assert forall i :: |s.sent| <= i < |t.sent| ==> r.sent[i] == r.sent[..|t.sent|][i] == t.sent[i];
    assert forall i :: |s.waits| <= i < |t.waits| ==> r.waits[i] == r.waits[..|t.waits|][i] == t.waits[i];
  }

  lemma {:induction false} StayBacksOff(s: Sys, es: seq<Event>, k: nat)
    requires Sending(s.client.state) && s.client.nextTimeout == Rung(k)
    requires FeasibleFrom(s, es) && StaysIn(s, es, s.client.state)
    ensures Backoff(s, RunFrom(s, es), k, Turns(es))
    decreases |es|
  {
    if es != [] {
      var t, m := Step(s, es[0]), if es[0].Turn? then 1 else 0;
      StepOfStay(s, es[0], k);
      StayBacksOff(t, es[1..], k + m);
      BackoffTwice(s, t, RunFrom(s, es), k, m, Turns(es[1..]));
    }
  }

  /** Section 4.1 of RFC 2131: in every run and every stay in Selecting, Requesting, Renewing or Rebinding, from
      the event that enters the state on, every turn sends one message from that state, and the waits
      that follow the messages are of 4, 8, 16, 32, 64, 64, ... seconds before fuzzing. */
  lemma EveryStayBacksOff(s0: Sys, es: seq<Event>, enter: Event, stay: seq<Event>)
    requires Initial(s0) && FeasibleFrom(s0, es) && Feasible(RunFrom(s0, es), enter)
    requires var s := Step(RunFrom(s0, es), enter);
             && Sending(s.client.state) && s.client.state != RunFrom(s0, es).client.state
             && FeasibleFrom(s, stay) && StaysIn(s, stay, s.client.state)
    ensures var s := Step(RunFrom(s0, es), enter);
            Backoff(s, RunFrom(s, stay), 0, Turns(stay))
  {
    InitialInv(s0);
    RunKeepsInv(s0, es);
    StatesAreEnteredFresh(RunFrom(s0, es), enter);
    StayBacksOff(Step(RunFrom(s0, es), enter), stay, 0);
  }
}

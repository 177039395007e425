/**
 The client object of dhcp/client/dhcpclient.cpp.  Its methods update the fields as the code does, and
 each is proved to do what the state machine of ClientMachine says, so that the theorems of
 ClientRuns hold of it.  Ghost fields record the history of the run.

 What the environment does is read from a list of events; the loops, which never end in the code, end
 here when the list does, so that `Run` stands for every finite part of an execution.
 */
module DhcpClientObject {
  import opened Bytes
  import opened Wrappers
  import opened DhcpOptions
  import opened DhcpMessage
  import opened Lease
  import opened Timers
  import opened ClientMachine
  import MO = MessageObject

  class DhcpClient {
    const macAddress: Mac
    const noGateway: bool
    const ids: MO.TransactionIds
    const mT1: Timer
    const mT2: Timer
    var mState: State
    var mNextTimeout: word32
    var mFuzzNextTimeout: bool
    var mLastMsg: Msg
    var mDhcpInfo: DhcpInfo
    var mRequestAddress: address
    var mServerAddress: address

    ghost var phase: Phase
    ghost var clock: nat
    ghost var sent: seq<Sent>
    ghost var offer: Option<Msg>
    ghost var waits: seq<Wait>

    ghost predicate Valid()
    {
      mT1 != mT2
    }

    /** The state of the object as a value of the state machine. */
    ghost function View(): Client
      reads this, mT1, mT2, ids
    {
      Client(macAddress, noGateway, mState, mNextTimeout, mFuzzNextTimeout, mLastMsg,
             mT1.mExpires, mT2.mExpires, mDhcpInfo, mRequestAddress, mServerAddress, ids.next)
    }

    /** The same together with the history. */
    ghost function History(): Sys
      reads this, mT1, mT2, ids
    {
      Sys(View(), phase, clock, sent, offer, waits)
    }

    /** The client of a process that has built no message before.  The addresses are not initialized in
        the code and may be anything. */
    constructor (mac: Mac, noGateway: bool, startedAt: nat, requestAddress: address, serverAddress: address)
      ensures Valid() && Initial(History()) && fresh({mT1, mT2, ids})
      ensures clock == startedAt
    {
      macAddress, this.noGateway := mac, noGateway;
      mState, mNextTimeout, mFuzzNextTimeout := Init, INITIAL_TIMEOUT, true;
      var empty := new MO.Message.Empty();
      mLastMsg := empty.Value();
      mDhcpInfo := NO_INFO;
      mRequestAddress, mServerAddress := requestAddress, serverAddress;
      ids := new MO.TransactionIds();
      mT1 := new Timer();
      mT2 := new Timer();
      phase, clock, sent, offer, waits := Ready, startedAt, [], None, [];
    }

    method SetNextState(state: State)
      modifies this
      ensures History() == old(History()).(client := ClientMachine.SetNextState(old(View()), state))
    {
      mState := state;
      mNextTimeout := NO_TIMEOUT;
      mFuzzNextTimeout := true;
    }

    method IncreaseTimeout()
      modifies this
      ensures History() == old(History()).(client := ClientMachine.IncreaseTimeout(old(View())))
    {
      if mNextTimeout == NO_TIMEOUT {
        mNextTimeout := INITIAL_TIMEOUT;
      } else {
        if mNextTimeout < MAX_TIMEOUT {
          mNextTimeout := mNextTimeout * 2;
        }
        if mNextTimeout > MAX_TIMEOUT {
          mNextTimeout := MAX_TIMEOUT;
        }
      }
    }

    /** Keep and transmit a message that has just been built. */
    method SendMessage(m: Msg)
      modifies this
      ensures History() == old(History()).(client := old(View()).(lastMsg := m),
                                           sent := old(sent) + [Sent(m, old(mState), old(offer))])
    {
      mLastMsg := m;
      sent := sent + [Sent(m, mState, offer)];
    }

    method SendDhcpDiscover()
      modifies this, ids
      ensures History() == Transmitted(old(History()), ClientMachine.SendDhcpDiscover(old(View())))
    {
      var message := MO.Message.Discover(macAddress, ids);
      SendMessage(message.Value());
    }

    method SendDhcpRequest(destination: address)
      modifies this, ids
      ensures History() == Transmitted(old(History()), ClientMachine.SendDhcpRequest(old(View()), destination))
    {
      var message := MO.Message.Request(macAddress, mRequestAddress, destination, ids);
      SendMessage(message.Value());
    }

    /** The option loop of `configureDhcp`. */
    method CollectOptions(msg: Msg) returns (ok: bool)
      requires OptionsSize(msg) >= 4
      modifies this
      ensures var r := Collect(OptionField(msg), OptionsSize(msg), 4, NO_INFO);
              ok == r.ok && History() == old(History()).(client := old(View()).(info := r.info))
    {
      var options, optsSize := OptionField(msg), OptionsSize(msg);
      mDhcpInfo := NO_INFO;
      var i: int := 4;
      while i + 1 < optsSize
        invariant 4 <= i
        invariant Collect(options, optsSize, i, mDhcpInfo) == Collect(options, optsSize, 4, NO_INFO)
        invariant History() == old(History()).(client := old(View()).(info := mDhcpInfo))
        decreases optsSize - i
      {
        var optCode: byte := options[i];
        var optLength: int := options[i + 1];
        if optCode == OPT_END {
          break;
        }
        if i + optLength >= optsSize {
          return false;
        }
        mDhcpInfo := Absorb(mDhcpInfo, optCode, options[i + 2..i + 2 + optLength]);
        i := i + 2 + optLength;
      }
      ok := true;
    }

    method ConfigureDhcp(msg: Msg, system: System) returns (ok: bool)
      requires Valid()
      modifies this, mT1, mT2
      ensures var r := ClientMachine.ConfigureDhcp(old(View()), msg, system);
              ok == r.ok && History() == old(History()).(client := r.client)
    {
      if OptionsSize(msg) < 4 {
        return false;
      }
      ok := CollectOptions(msg);
      if !ok {
        return;
      }
      mDhcpInfo := mDhcpInfo.(offeredAddress := Yiaddr(msg));
      if mDhcpInfo.leaseTime == 0 {
        return false;
      }
      mT1.ExpireSeconds(system.now1, T1Seconds(mDhcpInfo));
      mT2.ExpireSeconds(system.now2, T2Seconds(mDhcpInfo));
      if !system.bringUp {
        return false;
      }
      if !system.setAddress {
        return false;
      }
      if !noGateway && !system.setGateway {
        return false;
      }
      ok := true;
    }

    /** The switch in the loop of `run`. */
    method Evaluate(now1: nat, now2: nat)
      modifies this, ids
      ensures var t := ClientMachine.Evaluate(old(View()), now1, now2);
              History() == if t.sent then Transmitted(old(History()), t.client) else old(History()).(client := t.client)
    {
      match mState
      case Init =>
        SetNextState(Selecting);
      case Selecting =>
        SendDhcpDiscover();
        IncreaseTimeout();
      case Requesting =>
        if mNextTimeout >= MAX_TIMEOUT {
          SetNextState(Init);
        } else {
          SendDhcpRequest(mServerAddress);
          IncreaseTimeout();
        }
      case Bound =>
        if Expired(mT1.mExpires, now1) {
          SetNextState(Renewing);
        } else {
          mNextTimeout := RemainingMillis(mT1.mExpires, now2) % TWO_TO_THE_32;
          mFuzzNextTimeout := false;
        }
      case Renewing =>
        if Expired(mT2.mExpires, now1) {
          SetNextState(Rebinding);
        } else {
          SendDhcpRequest(mServerAddress);
          IncreaseTimeout();
        }
      case Rebinding =>
        if mNextTimeout >= MAX_TIMEOUT {
          SetNextState(Init);
        } else {
          SendDhcpRequest(INADDR_BROADCAST);
          IncreaseTimeout();
        }
    }

    method AcceptOffer(msg: Msg)
      modifies this
      ensures History() == old(History()).(
                client := ClientMachine.SetNextState(
                  old(View()).(serverAddress := ServerId(msg), requestAddress := Yiaddr(msg)), Requesting),
                offer := Some(msg))
    {
      mServerAddress := ServerId(msg);
      mRequestAddress := Yiaddr(msg);
      SetNextState(Requesting);
      offer := Some(msg);
    }

    /** The switch in `waitAndReceive`; `changed` says that it returns from there. */
    method HandleMessage(msg: Msg, system: System) returns (changed: bool)
      requires Valid()
      modifies this, mT1, mT2
      ensures var h := ClientMachine.HandleMessage(old(View()), msg, system);
              && changed == h.changed
              && History() == old(History()).(client := h.client, offer :=
                   if old(mState) == Selecting && mState == Requesting then Some(msg) else old(offer))
    {
      match mState
      case Selecting =>
        if Type(msg) == DHCPOFFER {
          AcceptOffer(msg);
          return true;
        }
        changed := false;
      case Requesting | Renewing | Rebinding =>
        if Type(msg) == DHCPACK {
          var ok := ConfigureDhcp(msg, system);
          if ok {
            SetNextState(Bound);
            return true;
          }
        } else if Type(msg) == DHCPNAK {
          SetNextState(Init);
          return true;
        }
        changed := false;
      case Init | Bound =>
        changed := false;
    }

    /** `waitAndReceive` with the events from `i` on.  It returns the number of events consumed so far;
        when they run out before the wait is over, the client is still polling. */
    method WaitAndReceive(events: seq<Event>, i: nat, adjustment: int) returns (j: nat)
      requires Valid() && i <= |events| && phase == Ready
      requires FeasibleFrom(Begin(History(), adjustment), events[i..])
      modifies this, mT1, mT2
      ensures i <= j <= |events| && FeasibleFrom(History(), events[j..])
      ensures RunFrom(History(), events[j..]) == RunFrom(Begin(old(History()), adjustment), events[i..])
      ensures phase.Polling? ==> j == |events|
    {
      j := i;
      if mNextTimeout == NO_TIMEOUT {
        return;
      }
      var timeout := CalculateTimeoutMillis(adjustment);
      waits := waits + [Wait(mState, mNextTimeout, timeout)];
      phase := Polling(timeout);
      while j < |events|
        invariant i <= j <= |events|
        invariant phase == Polling(timeout) && FeasibleFrom(History(), events[j..])
        invariant RunFrom(History(), events[j..]) == RunFrom(Begin(old(History()), adjustment), events[i..])
      {
        assert events[j..][0] == events[j] && events[j..][1..] == events[j + 1..];
        var returned;
        returned, timeout := PollOnce(events[j].poll, timeout);
        j := j + 1;
        if returned {
          return;
        }
      }
    }

    /** One round of the loop: poll, handle what has been received, and see what time remains. */
    method PollOnce(p: Poll, timeout: word32) returns (returned: bool, remaining: word32)
      requires Valid() && phase == Polling(timeout) && Feasible(History(), Polled(p))
      modifies this, mT1, mT2
      ensures History() == Step(old(History()), Polled(p))
      ensures phase == if returned then Ready else Polling(remaining)
    {
      remaining := 0;
      var changed := false;
      if p.outcome.TimedOut? {
        clock, phase := p.doneAt, Ready;
        return true, 0;
      } else if p.outcome.Readable? {
        if ReceiveDhcpMessage(p.outcome.read) {
          changed := HandleMessage(p.outcome.read.message, p.outcome.read.system);
        }
      }
      clock := p.doneAt;
      var end := p.startedAt + timeout;
      if changed || p.doneAt >= end {
        phase := Ready;
        return true, 0;
      }
      remaining := end - p.doneAt;
      phase := Polling(remaining);
      returned := false;
    }

    function CalculateTimeoutMillis(adjustment: int): (r: word32)
      reads this
    {
      if !mFuzzNextTimeout then mNextTimeout
      else if adjustment < 0 && -adjustment > mNextTimeout then 0
      else (mNextTimeout + adjustment) as int % TWO_TO_THE_32
    }

    predicate ReceiveDhcpMessage(read: Read)
      reads this
    {
      && read.Datagram? && read.udpValid
      && IsValidDhcpMessage(read.message, OP_BOOTREPLY)
      && Xid(read.message) == Xid(mLastMsg)
    }

    /** The loop of `run`: the client takes a turn and then waits, again and again.  It arrives where
        the state machine arrives. */
    method Run(events: seq<Event>)
      requires Valid() && phase == Ready && FeasibleFrom(History(), events)
      modifies this, mT1, mT2, ids
      ensures History() == RunFrom(old(History()), events)
    {
      var i := 0;
      assert events[0..] == events;
      while i < |events|
        invariant i <= |events| && FeasibleFrom(History(), events[i..])
        invariant RunFrom(History(), events[i..]) == RunFrom(old(History()), events)
        invariant phase.Polling? ==> i == |events|
      {
        ghost var before := History();
        var e := events[i];
        assert events[i..][0] == e && events[i..][1..] == events[i + 1..];
        Evaluate(e.now1, e.now2);
        clock := e.now2;
        assert Begin(History(), e.adjustment) == Step(before, e);
        i := WaitAndReceive(events, i + 1, e.adjustment);
      }
      assert events[i..] == [];
    }
  }

  /** The history after the client has become `c` by sending its new last message. */
  ghost function Transmitted(s: Sys, c: Client): Sys
  {
    s.(client := c, sent := s.sent + [Sent(c.lastMsg, c.state, s.offer)])
  }
}

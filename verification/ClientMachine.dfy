/**
 The DHCP client as a state machine (section 4.4 of RFC 2131): what one turn of the loop in
 `DhcpClient::run` and one poll in `waitAndReceive` do.  The environment is arbitrary: clock readings
 never go back, a poll that times out has taken its time, and everything else (errors, messages, the
 outcome of configuring the interface, the random adjustment) may happen at any point.
 */
module ClientMachine {
  import opened Bytes
  import opened Wrappers
  import opened DhcpMessage
  import opened Lease
  import opened Timers

  const INITIAL_TIMEOUT: word32 := 4000
  const MAX_TIMEOUT: word32 := 64000
  const NO_TIMEOUT: word32 := 0
  const TIMEOUT_SPAN: int := 1000

  datatype State = Init | Selecting | Requesting | Bound | Renewing | Rebinding

  datatype Client = Client(
    mac: Mac, noGateway: bool,
    state: State, nextTimeout: word32, fuzzNextTimeout: bool,
    lastMsg: Msg, t1: nat, t2: nat, info: DhcpInfo,
    requestAddress: address, serverAddress: address,
    nextXid: word32)

  // ----- The helpers of dhcpclient.cpp -----------------------------------------------------------

  function SetNextState(c: Client, state: State): Client
  {
    c.(state := state, nextTimeout := NO_TIMEOUT, fuzzNextTimeout := true)
  }

  function IncreasedTimeout(timeout: word32): word32
  {
    if timeout == NO_TIMEOUT then INITIAL_TIMEOUT
    else if timeout < MAX_TIMEOUT then
      (if 2 * timeout as int > MAX_TIMEOUT then MAX_TIMEOUT else 2 * timeout as int)
    else MAX_TIMEOUT
  }

  function IncreaseTimeout(c: Client): Client
  {
    c.(nextTimeout := IncreasedTimeout(c.nextTimeout))
  }

  function CalculateTimeoutMillis(c: Client, adjustment: int): word32
  {
    if !c.fuzzNextTimeout then c.nextTimeout
    else if adjustment < 0 && -adjustment > c.nextTimeout then 0
    else (c.nextTimeout + adjustment) as int % TWO_TO_THE_32
  }

  /** The client after it has built and sent `m`, which took the next transaction id. */
  function SendMessage(c: Client, m: Msg): Client
  {
    c.(lastMsg := m, nextXid := (c.nextXid + 1) as int % TWO_TO_THE_32)
  }

  function SendDhcpDiscover(c: Client): Client
  {
    SendMessage(c, DiscoverMsg(c.mac, c.nextXid))
  }

  function SendDhcpRequest(c: Client, destination: address): Client
  {
    SendMessage(c, RequestMsg(c.mac, c.requestAddress, destination, c.nextXid))
  }

  /** What the operating system does while `configureDhcp` runs. */
  datatype System = System(now1: nat, now2: nat, bringUp: bool, setAddress: bool, setGateway: bool)

  datatype Configured = Configured(client: Client, ok: bool)

  function ConfigureDhcp(c: Client, m: Msg, system: System): Configured
  {
    if OptionsSize(m) < 4 then Configured(c, false)
    else
      var read := Collect(OptionField(m), OptionsSize(m), 4, NO_INFO);
      if !read.ok then Configured(c.(info := read.info), false)
      else
        var info := read.info.(offeredAddress := Yiaddr(m));
        if info.leaseTime == 0 then Configured(c.(info := info), false)
        else
          var c' := c.(info := info,
                       t1 := ExpiryAfter(system.now1, T1Seconds(info)),
                       t2 := ExpiryAfter(system.now2, T2Seconds(info)));
          Configured(c', system.bringUp && system.setAddress && (c.noGateway || system.setGateway))
  }

  // ----- One turn of run() -----------------------------------------------------------------------

  datatype Turned = Turned(client: Client, sent: bool)

  /** The switch over the state.  `now1` is the reading of `expired`, `now2` that of
      `remainingMillis`; `sent` says that the client has transmitted its new `lastMsg`. */
  function Evaluate(c: Client, now1: nat, now2: nat): Turned
  {
    match c.state
    case Init => Turned(SetNextState(c, Selecting), false)
    case Selecting => Turned(IncreaseTimeout(SendDhcpDiscover(c)), true)
    case Requesting =>
      if c.nextTimeout >= MAX_TIMEOUT then Turned(SetNextState(c, Init), false)
      else Turned(IncreaseTimeout(SendDhcpRequest(c, c.serverAddress)), true)
    case Bound =>
      if Expired(c.t1, now1) then Turned(SetNextState(c, Renewing), false)
      else Turned(c.(nextTimeout := RemainingMillis(c.t1, now2) % TWO_TO_THE_32, fuzzNextTimeout := false), false)
    case Renewing =>
      if Expired(c.t2, now1) then Turned(SetNextState(c, Rebinding), false)
      else Turned(IncreaseTimeout(SendDhcpRequest(c, c.serverAddress)), true)
    case Rebinding =>
      if c.nextTimeout >= MAX_TIMEOUT then Turned(SetNextState(c, Init), false)
      else Turned(IncreaseTimeout(SendDhcpRequest(c, INADDR_BROADCAST)), true)
  }

  // ----- One poll of waitAndReceive() ------------------------------------------------------------

  /** What `receiveRawUdp` finds on the socket. */
  datatype Read = ReadFailed | Datagram(udpValid: bool, message: Msg, system: System)

  datatype Outcome = TimedOut | PollFailed | Readable(read: Read)

  /** One round of the loop: the clock before, what `ppoll` brought, the clock after. */
  datatype Poll = Poll(startedAt: nat, outcome: Outcome, doneAt: nat)

  /** Either the loop of `run` takes its next turn, or it is inside `waitAndReceive` with the given
      time left. */
  datatype Phase = Ready | Polling(timeout: word32)

  predicate ReceiveDhcpMessage(c: Client, read: Read)
  {
    && read.Datagram?
    && read.udpValid
    && IsValidDhcpMessage(read.message, OP_BOOTREPLY)
    && Xid(read.message) == Xid(c.lastMsg)
  }

  datatype Handled = Handled(client: Client, changed: bool)

  /** The switch over the state for a message that `receiveDhcpMessage` has accepted. */
  function HandleMessage(c: Client, m: Msg, system: System): Handled
  {
    match c.state
    case Selecting =>
      if Type(m) == DHCPOFFER then
        Handled(SetNextState(c.(serverAddress := ServerId(m), requestAddress := Yiaddr(m)), Requesting), true)
      else Handled(c, false)
    case Requesting | Renewing | Rebinding =>
      if Type(m) == DHCPACK then
        var configured := ConfigureDhcp(c, m, system);
        if configured.ok then Handled(SetNextState(configured.client, Bound), true)
        else Handled(configured.client, false)
      else if Type(m) == DHCPNAK then Handled(SetNextState(c, Init), true)
      else Handled(c, false)
    case Init | Bound => Handled(c, false)
  }

  datatype Waited = Waited(client: Client, phase: Phase)

  function PollOnce(c: Client, timeout: word32, p: Poll): (r: Waited)
    requires p.startedAt <= p.doneAt
  {
    if p.outcome.TimedOut? then Waited(c, Ready)
    else
      var h := if p.outcome.Readable? && ReceiveDhcpMessage(c, p.outcome.read)
               then HandleMessage(c, p.outcome.read.message, p.outcome.read.system)
               else Handled(c, false);
      var end := p.startedAt + timeout;
      if h.changed || p.doneAt >= end then Waited(h.client, Ready)
      else Waited(h.client, Polling(end - p.doneAt))
  }

  // ----- Runs ------------------------------------------------------------------------------------

  /** A transmission: the message, the state it was sent in, and the last offer accepted before. */
  datatype Sent = Sent(message: Msg, from: State, offer: Option<Msg>)

  /** A wait that was really started, with its base timeout and the timeout after fuzzing. */
  datatype Wait = Wait(state: State, base: word32, chosen: word32)

  /** The client in its environment: `clock` is the latest reading, the rest is history. */
  datatype Sys = Sys(client: Client, phase: Phase, clock: nat,
                     sent: seq<Sent>, offer: Option<Msg>, waits: seq<Wait>)

  datatype Event = Turn(now1: nat, now2: nat, adjustment: int) | Polled(poll: Poll)

  predicate Feasible(s: Sys, e: Event)
  {
    match e
    case Turn(now1, now2, adjustment) =>
      s.phase.Ready? && s.clock <= now1 <= now2 && -TIMEOUT_SPAN <= adjustment <= TIMEOUT_SPAN
    case Polled(p) =>
      && s.phase.Polling?
      && s.clock <= p.startedAt <= p.doneAt
      && (p.outcome.TimedOut? ==> p.startedAt + s.phase.timeout <= p.doneAt)
      && (p.outcome.Readable? && p.outcome.read.Datagram? ==>
            p.startedAt <= p.outcome.read.system.now1 <= p.outcome.read.system.now2 <= p.doneAt)
  }

  /** The start of `waitAndReceive`: it returns at once when there is no timeout, and otherwise starts
      to wait. */
  function Begin(s: Sys, adjustment: int): Sys
  {
    if s.client.nextTimeout == NO_TIMEOUT then s
    else
      var chosen := CalculateTimeoutMillis(s.client, adjustment);
      s.(phase := Polling(chosen), waits := s.waits + [Wait(s.client.state, s.client.nextTimeout, chosen)])
  }

  /** The rest of a turn after the switch. */
  function AfterTurn(s: Sys, t: Turned, now: nat, adjustment: int): Sys
  {
    Begin(s.(client := t.client, clock := now,
             sent := if t.sent then s.sent + [Sent(t.client.lastMsg, t.client.state, s.offer)] else s.sent),
          adjustment)
  }

  function Step(s: Sys, e: Event): Sys
    requires Feasible(s, e)
  {
    match e
    case Turn(now1, now2, adjustment) => AfterTurn(s, Evaluate(s.client, now1, now2), now2, adjustment)
    case Polled(p) =>
      var w := PollOnce(s.client, s.phase.timeout, p);
      s.(client := w.client, phase := w.phase, clock := p.doneAt,
         offer := if s.client.state == Selecting && w.client.state == Requesting
                  then Some(p.outcome.read.message) else s.offer)
  }

  predicate FeasibleFrom(s: Sys, es: seq<Event>)
    decreases |es|
  {
    es == [] || (Feasible(s, es[0]) && FeasibleFrom(Step(s, es[0]), es[1..]))
  }

  function RunFrom(s: Sys, es: seq<Event>): Sys
    requires FeasibleFrom(s, es)
    decreases |es|
  {
    if es == [] then s else RunFrom(Step(s, es[0]), es[1..])
  }

  /** The constructed client before its first turn.  The two addresses and the previous message are
      whatever they are, and nothing is ever derived from them. */
  predicate Initial(s: Sys)
  {
    && s.client.state == Init
    && s.client.nextTimeout == INITIAL_TIMEOUT
    && s.client.fuzzNextTimeout
    && s.client.nextXid == 1
    && s.phase == Ready
    && s.sent == [] && s.offer == None && s.waits == []
  }
}

# A verified model of the DHCP client and of the audio output path

The project models two subsystems of the repository in Dafny and proves properties of every run and
every input.

**The DHCP client** (`dhcp/`). `DhcpClientObject.DhcpClient` is the client object with the fields and the
methods of the original. Its `Run` is proved to arrive where the state machine of `ClientMachine` arrives,
and `ClientRuns` proves what holds in every run of that machine against an arbitrary environment: any
message, any error, any outcome of configuring the interface, any clock that does not go back. Underneath
lie the message object with its option codec (`MessageObject`, `DhcpMessage`, `DhcpOptions`), the option
loop of `configureDhcp` (`Lease`), the Internet checksum (`Checksum`) and the raw UDP packets (`RawUdp`).
`ClientTiming` is about the client's waits, `Transmissions` about what it sends to the byte, `WireFormat` about
the bytes of every message that is built, and `LeaseTimes` about the timers that the options of an
acknowledgement set. `Handshake` runs the client against the server messages that the repository itself
builds, and `Renewal` is about the address it asks for when it extends a lease.

**The audio output path** (`hals/audio/driver/`). `AudioVbuffer.Vbuffer` is the ring buffer, proved to be a
bounded queue of frames. `StreamOutObject.StreamOut` is the output stream, whose methods are the critical
sections under the stream lock; `OutStream` is the machine they refine and `StreamRuns` holds the theorems
over all interleavings, while `OutWrite` tells `out_write` by its calls: gain, sleep, frames and counters.
`ExtPcmObject.ExtPcm` is the shared mixer with its pipelines, refining
`MixerMachine`; `Mixing` is the saturating arithmetic. `Playback` composes the stream and the mixer.

Code that changes things in place is modelled by classes, arrays and loops whose contracts tie the new
state to a function of the old one; the theorems are lemmas about these functions. A critical section is
one step; interleavings are sequences of steps, and a run is any finite sequence of feasible steps.

## Findings

Each of these is a theorem about the code as it is.

- `do_out_standby` holds the backlog in an `int`. A call ends at the number of frames written if the backlog
  when it is made and the frames that writes count until it ends are together fewer than 2^32
  (`StandbyExitsAtTheEnd`). For sample rates up to one frame per microsecond there are two exact conditions.
  All calls made from some moment on, at whatever time, are safe if and only if the backlog at that moment
  and a bound on the frames counted afterwards are together below 2^32 (`StandbyIsSafeExactly`). One call
  made at a given time is safe if and only if its first round finds no backlog, or finds one that is not a
  multiple of 2^32 and leaves one that together with the bound is below 2^32; since that round counts the
  time played once more, it may leave less than it finds (`CallIsSafeExactly`). Muted writes that fit the
  ring do not sleep and can bring about an early exit from the start (`StandbyCanExitEarly`).
- Because `do_out_standby` passes the field it computes from as its own output, the elapsed time is counted
  again at every round of its loop (`StandbyCountsTimeTwice`). Positions still never decrease and never
  exceed the frames written (`PositionsNeverDecrease`).
- The estimate of T2 is computed in 32 bits. When the server gives neither timer, it is not before T1 exactly
  when the lease is at most 613566756 seconds (`EstimatedTimersOrdered`), so not for an infinite lease.
- `offer` and `ack` store the lease time in host order and the client reads it in network order: ten minutes
  are read as 0x58020000 seconds, for which T2 falls before T1 (`DiscoverOfferRequestAck`).
- The size of the name server option is passed in a byte, so that `|dns| % 64` servers are stored
  (`AckRoundTrip`).
- `getOption` reports the first option with a code, and the loop of `configureDhcp` keeps for every value the
  last option that is of a size to fill it (`LoopKeepsLast`). They agree when the code occurs at most once
  (`ParsersAgree`), and when it is repeated exactly if every value gets the same from that last option and
  from the first (`ParsersAgreeExactly`); `ServerIdsAgreeExactly` compares the server ids
  that the two read from one message, and `RepeatedServerIdsDisagree` is a message for which they differ.
- The comments of the client promise that renewing and rebinding ask for the address it is bound to. The
  client asks for the address of the offer it accepted. So the promise holds if and only if the
  acknowledgement gave the offered address (`RenewalAsksForBoundExactly`), and for any two addresses there
  is a run in which the client is bound to one and asks for the other (`OfferedIsAskedForAgain`).
- The order in which the mixer visits the pipelines does not matter for a sample exactly if its positive
  values add up to at most 32767 and its negative ones to at least -32768, or it has no values of one of
  the two signs (`SampleIgnoresOrder`, `MixIgnoresOrder`). `OrderMatters` is an instance where it does.

## Model

| member | source | states |
|---|---|---|
| `Checksum.AddChecksum` | dhcp/common/socket.cpp:34-51 | The loop over words and the fold loop terminate; the result is the fold of the sum modulo 2^32, which is the exact sum for a folded accumulator and up to 131070 bytes |
| `Checksum.FoldIsCanonical` | dhcp/common/socket.cpp:47-50 | The folded sum is congruent to the sum modulo 65535 and 0 only for the zero sum (RFC 1071) |
| `Checksum.FoldIsUnique` | dhcp/common/socket.cpp:47-50 | It is the only 16-bit value with these two properties |
| `Checksum.AccumulatorSuffices` | dhcp/common/socket.cpp:38-46 | No 32-bit overflow up to 131070 bytes, far above the capacity of a message |
| `Checksum.ChainingIsOneSum` | dhcp/common/socket.cpp:193-199 | Calls over parts that are all even-sized except possibly the last are one call over the concatenation |
| `Checksum.ByteOrderIndependence` | dhcp/common/socket.cpp:34-62 | Section 2 of RFC 1071: for every byte sequence the big-endian folded sum is the byte swap of the little-endian one, so both machines store the same check bytes |
| `Checksum.StoredChecksumVerifies` | dhcp/common/socket.cpp:60-62 | Section 1 of RFC 1071: with the complement stored at an even offset everything sums to all ones |
| `RawUdp.SendRawUdp` | dhcp/common/socket.cpp:166-200 | For every message up to capacity: the IP header sums to all ones, and so do the pseudo-header as a receiver finds it in the packet, the UDP header and the payload together; the headers hold the given bytes in network order |
| `RawUdp.FillIpHeader` | dhcp/common/socket.cpp:175-186 | The header filled in place verifies and carries the given fields |
| `RawUdp.UdpChecksum` | dhcp/common/socket.cpp:193-199 | The six calls part by part compute one sum over pseudo-header, header and payload, also for odd payloads |
| `RawUdp.ReceivedIsValidExactly` | dhcp/common/socket.cpp:267-297 | A packet is accepted if and only if it holds both headers, has version 4 with five words, protocol UDP and the expected port; the message is then the payload, cut off at the capacity |
| `RawUdp.WireRoundTrip` | dhcp/common/socket.cpp:267-297 | A packet sent to a port is received there as valid and as the same message, whatever the receiving object held |
| `DhcpOptions.FindsFirst` | dhcp/common/message.cpp:285-303 | On a well-formed END-terminated list `getOption` gives length and bytes of the first option with the code, or nothing if there is none |
| `DhcpOptions.FindPassesOver` | dhcp/common/message.cpp:285-303 | Options with other codes are passed over whatever follows them, and nothing is found when fewer than three bytes follow |
| `DhcpMessage.BuildParseRoundTrip` | dhcp/common/message.cpp:266-303 | Adding any options that fit and closing the list makes `getOption` return the first option with the code, or nothing; the header is untouched |
| `WireFormat.DiscoverOnTheWire` | dhcp/common/message.cpp:54-63 | Every byte of `discover`, in the numbers of RFC 2131 and RFC 2132 |
| `WireFormat.RequestOnTheWire` | dhcp/common/message.cpp:65-79 | Every byte of `request` |
| `WireFormat.LeaseOnTheWire` | dhcp/common/message.cpp:81-138 | Every byte of `offer` and `ack`: the echoed fields of the message answered and the options of the lease |
| `WireFormat.NackOnTheWire` | dhcp/common/message.cpp:140-153 | Every byte of `nack` |
| `WireFormat.ValidExactly` | dhcp/common/message.cpp:167-198 | A message is accepted if and only if it has 240 bytes, starts with the operation, hardware type 1 and length 6, and has the cookie before the options |
| `WireFormat.FieldsAreRead` | dhcp/common/message.cpp:155-165 | Where transaction id, offered address, hardware address and flags are read |
| `WireFormat.TypeIsFirst` | dhcp/common/message.cpp:209-216 | The type is that of the first message type option if it has one byte, else 0 |
| `WireFormat.AddressesAreFirst` | dhcp/common/message.cpp:218-234 | Server id and requested address are those of the first such option if it has four bytes, else zeros |
| `DhcpMessage.DiscoverParses` | dhcp/common/message.cpp:54-63 | `discover` is a valid request of type DISCOVER with the given id, hardware address and the broadcast flag |
| `DhcpMessage.RequestParses` | dhcp/common/message.cpp:65-79 | `request` is valid, of type REQUEST, and its requested address, server id and transaction id are read back |
| `DhcpMessage.LeaseParses` | dhcp/common/message.cpp:81-138 | `offer` and `ack` are valid replies that echo id, flags and hardware address of the message they answer, with the given type, address and server id |
| `DhcpMessage.NackParses` | dhcp/common/message.cpp:140-153 | The same for `nack` |
| `DhcpMessage.AckRoundTrip` | dhcp/common/message.cpp:111-138 | `ack` fed to the option loop gives back server id, netmask, gateway and the first four of the `n % 64` stored name servers, zeros in the other slots, no T1, T2 or MTU |
| `DhcpMessage.ClosedCollects` | dhcp/client/dhcpclient.cpp:317-394 | In a well-formed message the loop reads an option whose code occurs once as if it were alone |
| `DhcpMessage.ServerIdsAgreeExactly` | dhcp/common/message.cpp:218-225 | In a well-formed message `serverId` and the loop agree if and only if there is no server id or the last one of four bytes equals the first one |
| `DhcpMessage.NetworkOrderIsRead` | dhcp/client/dhcpclient.cpp:331-368 | Times and the MTU are read in network order whatever else the message holds |
| `MessageObject.Message.Empty` | dhcp/common/message.cpp:39-42 | The empty message |
| `MessageObject.Message.Typed` | dhcp/common/message.cpp:236-264 | The buffer it fills in place is `Header`; it takes one transaction id |
| `MessageObject.Message.AddOption` | dhcp/common/message.cpp:266-275 | In place, the option is appended and the size grows by it |
| `MessageObject.Message.EndOptions` | dhcp/common/message.cpp:277-283 | In place, END is appended |
| `MessageObject.Message.GetOption` | dhcp/common/message.cpp:285-303 | The loop over the buffer finds what `Find` finds, for every buffer, well-formed or not |
| `MessageObject.Message.Discover` | dhcp/common/message.cpp:54-63 | The object built is the message of `DiscoverParses`; the id counter advances modulo 2^32 |
| `MessageObject.Message.Request` | dhcp/common/message.cpp:65-79 | The object built is the message of `RequestParses`; the id counter advances modulo 2^32 |
| `MessageObject.Message.Lease` | dhcp/common/message.cpp:81-138 | The object built by `offer` and `ack` is the message of `LeaseParses` and `AckRoundTrip` |
| `MessageObject.Message.Nack` | dhcp/common/message.cpp:140-153 | The object built is the message of `NackParses` |
| `Lease.CollectAbsorbsAll` | dhcp/client/dhcpclient.cpp:317-394 | On a well-formed list the option loop succeeds and folds its switch over all options in order |
| `Lease.CutOffExactly` | dhcp/client/dhcpclient.cpp:317-329 | When a message ends within an option, the loop drops it if and only if the length reaches the end from the start of that option; what was read before stays |
| `Lease.PartsAreIndependent` | dhcp/client/dhcpclient.cpp:330-393 | Every code determines its own part of the information from the options with that code alone |
| `Lease.ParsersAgree` | dhcp/client/dhcpclient.cpp:310-396 | For a code used at most once the loop stores what the body located by `getOption` says, and zeros when there is none |
| `Lease.LoopKeepsLast` | dhcp/client/dhcpclient.cpp:317-394 | Whatever codes a well-formed message repeats, every value is left with what the last option of a size to fill it gives |
| `Lease.ParsersAgreeExactly` | dhcp/client/dhcpclient.cpp:310-396 | For a code that occurs, with any number of repetitions, the loop agrees with the option at `getOption` if and only if every value gets the same from the last option that fills it and from the first |
| `Lease.RepeatedServerIdsDisagree` | dhcp/client/dhcpclient.cpp:310-396 | The bytes of an option field with two server ids: `getOption` locates the first, the loop keeps the second |
| `Lease.EstimatedTimersOrdered` | dhcp/client/dhcpclient.cpp:402-406 | The estimated T2 is not before T1 if and only if the lease is at most 613566756 seconds |
| `Timers.RemainingIsExact` | dhcp/client/timer.cpp:31-45 | At any later reading a timer has expired exactly when its seconds have passed since it was set; what remains is exactly the wait until then, and it never grows between two readings |
| `DhcpClientObject.DhcpClient.SetNextState` | dhcp/client/dhcpclient.cpp:513-519 | Sets the state, no timeout, fuzzing on; nothing else changes |
| `DhcpClientObject.DhcpClient.IncreaseTimeout` | dhcp/client/dhcpclient.cpp:500-511 | One rung up the backoff ladder; nothing else changes |
| `DhcpClientObject.DhcpClient.SendDhcpDiscover` | dhcp/client/dhcpclient.cpp:529-533 | The new last message is a DISCOVER with the next transaction id |
| `DhcpClientObject.DhcpClient.SendDhcpRequest` | dhcp/client/dhcpclient.cpp:521-527 | The new last message is a REQUEST for the stored address to the given server |
| `DhcpClientObject.DhcpClient.CollectOptions` | dhcp/client/dhcpclient.cpp:312-394 | The loop over the option field fills the information as `Collect` does, with its early exit |
| `DhcpClientObject.DhcpClient.ConfigureDhcp` | dhcp/client/dhcpclient.cpp:302-463 | Information, both timers and the result in every branch |
| `DhcpClientObject.DhcpClient.Evaluate` | dhcp/client/dhcpclient.cpp:103-182 | One turn of `run` is the step of the state machine |
| `DhcpClientObject.DhcpClient.HandleMessage` | dhcp/client/dhcpclient.cpp:234-281 | An accepted message has the effect the state machine gives it |
| `DhcpClientObject.DhcpClient.PollOnce` | dhcp/client/dhcpclient.cpp:222-299 | One round of `waitAndReceive` is the step of the state machine, with the remaining time it computes |
| `DhcpClientObject.DhcpClient.WaitAndReceive` | dhcp/client/dhcpclient.cpp:210-300 | A whole call is a sequence of steps of the state machine |
| `DhcpClientObject.DhcpClient.Run` | dhcp/client/dhcpclient.cpp:103-187 | The client object arrives where the state machine arrives, for every feasible list of events |
| `DhcpClientObject.DhcpClient.constructor` | dhcp/client/dhcpclient.cpp:53-60 | A new client is an initial state of the machine |
| `Transmissions.EveryTransmissionOnTheWire` | dhcp/client/dhcpclient.cpp:521-533 | Every run: every byte of every transmission, from the client's hardware address, with transaction id k + 1 modulo 2^32, for the address and server of the accepted offer or to everybody |
| `ClientRuns.Coherence` | dhcp/client/dhcpclient.cpp:103-187 | Every run: all transmissions are a valid DISCOVER while selecting and otherwise a valid REQUEST that parses back to the address and server of the last accepted OFFER, or broadcast while rebinding; so is the last message whenever the client polls; base waits lie on the backoff ladder and fuzzed waits in 3000..65000 ms |
| `ClientRuns.RunKeepsInv` | dhcp/client/dhcpclient.cpp:103-300 | Every step keeps the invariant that ties state, last message, offer, timeout, transaction ids and history |
| `ClientRuns.XidsRepeatExactly` | dhcp/common/message.cpp:248 | Two messages of a run have the same transaction id if and only if their distance is a multiple of 2^32 |
| `ClientRuns.OnlyTheLastTransmissionIsAnswered` | dhcp/client/dhcpclient.cpp:238-281 | In every run a message that changes anything in the client, its state or only what a failed configuration leaves, is a valid OFFER, ACK or NAK with the id of the last transmission and of none of the 2^32 - 1 before it |
| `ClientRuns.MessagesActExactly` | dhcp/client/dhcpclient.cpp:231-281 | Which messages act: in a valid packet for the client's port, a valid reply with the id of the last message, type 2 while selecting, 5 and 6 while waiting; anything else changes nothing |
| `ClientRuns.FiveRequestsThenInit` | dhcp/client/dhcpclient.cpp:122-133 | In every run a stay in Requesting or Rebinding that ends without an accepted answer sends exactly five REQUESTs with base waits 4, 8, 16, 32, 64 s and ends in Init |
| `ClientRuns.StatesAreEnteredFresh` | dhcp/client/dhcpclient.cpp:513-519 | Every state is entered without a timeout, so that its first turn follows at once |
| `ClientRuns.DeadlineNeverMovesEarlier` | dhcp/client/dhcpclient.cpp:289-298 | The effective deadline never moves earlier from one poll to the next |
| `ClientRuns.WaitsOutTheTimeout` | dhcp/client/dhcpclient.cpp:210-300 | Under any number of errors, irrelevant messages and failed configurations a return without a change of state comes after the full timeout |
| `ClientTiming.PollSpendsTime` | dhcp/client/dhcpclient.cpp:289-298 | A poll that goes on leaves exactly the time it has not taken; a poll ends the wait if and only if it times out, changes the state or has taken all the time |
| `ClientTiming.WaitSpendsItsTimeout` | dhcp/client/dhcpclient.cpp:210-300 | Over one whole wait, whatever interrupts it, the last poll is given exactly what the others have left of the chosen timeout |
| `ClientTiming.WaitIsBasePlusAdjustment` | dhcp/client/dhcpclient.cpp:488-498 | Every run: a wait in a sending state is the base timeout plus the random adjustment of its turn, in Bound the timeout itself |
| `ClientTiming.EveryStayBacksOff` | dhcp/client/dhcpclient.cpp:500-511 | Every run and every stay in a sending state: each turn sends one message from it and starts a wait of 4, 8, 16, 32, 64, 64, ... seconds |
| `ClientRuns.BoundIsLeftAtT1` | dhcp/client/dhcpclient.cpp:134-151 | Bound is left for Renewing only, exactly at a turn that finds T1 expired; its wait is not fuzzed and never ends after T1, although the remainder is cut to 32 bits |
| `ClientRuns.RenewingIsLeftAtT2` | dhcp/client/dhcpclient.cpp:152-164 | Without an answer Renewing is left exactly at a turn that finds T2 expired, for Rebinding |
| `ClientRuns.SilentUntilT1` | dhcp/client/dhcpclient.cpp:134-151 | Until T1 a bound client sends nothing and keeps its lease, whatever arrives |
| `Handshake.LeaseAnswers` | dhcp/common/message.cpp:81-138 | An offer or acknowledgement built for the client's last message answers it |
| `Handshake.NackAnswers` | dhcp/common/message.cpp:140-153 | So does a refusal |
| `Handshake.AckIsAccepted` | dhcp/client/dhcpclient.cpp:257-268 | An acknowledgement binds a waiting client to the lease it conveys and starts both timers |
| `Handshake.RefusalStartsOver` | dhcp/client/dhcpclient.cpp:270-275 | A refusal built by `nack` for the last request takes a waiting client back to Init |
| `Handshake.Exchange` | dhcp/client/dhcpclient.cpp:210-300 | The exchange for any offer and acknowledgement that answer the client |
| `Handshake.DiscoverOfferRequestAck` | dhcp/client/dhcpclient.cpp:210-300 | In every run, with messages that `offer` and `ack` build for the client's last messages and any events in between that leave it in Requesting: the request asks the offering server for the offered address and the client ends bound to exactly the lease acknowledged, with T2 before T1 because of the lease time |
| `Handshake.LeaseIsRenewedOnTime` | dhcp/client/dhcpclient.cpp:134-151 | From the acknowledgement on the client is bound and silent before T1, and its next turn starts to renew exactly if T1 seconds have passed since the lease was configured |
| `LeaseTimes.BoundExactly` | dhcp/client/dhcpclient.cpp:398-461 | An acknowledgement binds a waiting client if and only if its lease time is not zero and the interface is brought up and gets address and, when wanted, gateway; else the wait goes on for what is left |
| `LeaseTimes.RenewsByTheMessage` | dhcp/client/dhcpclient.cpp:402-406 | From the options of the acknowledgement: renewing starts exactly when its T1, or half its lease time without one, has passed since it was configured |
| `LeaseTimes.RebindsByTheMessage` | dhcp/client/dhcpclient.cpp:402-406 | The same for rebinding and T2, or seven eighths of the lease time in 32 bits |
| `Renewal.RenewalAsksForBoundExactly` | dhcp/client/dhcpclient.cpp:152-180 | In every run, every request that extends a lease asks for the address the client is bound to if and only if the acknowledgement gave the address of the accepted offer |
| `Renewal.LeaseIsExtended` | dhcp/client/dhcpclient.cpp:152-180 | While a lease is kept, only requests of Renewing and Rebinding are sent, all for the same offer |
| `Renewal.OfferedIsAskedForAgain` | dhcp/client/dhcpclient.cpp:246-248 | From every start and for any two addresses there is a run in which the client is bound to the second and asks for the first |
| `AudioVbuffer.StoreAppends` | hals/audio/driver/audio_vbuffer.c:94-102 | A copy to the wrapped head appends to the window that starts at the tail |
| `AudioVbuffer.LoadDrops` | hals/audio/driver/audio_vbuffer.c:125-133 | A copy from the tail is the start of the window, and what remains is the rest |
| `AudioVbuffer.StoreFrames` | hals/audio/driver/audio_vbuffer.c:94-102 | The same for frames of any size; the range copied to lies inside the data |
| `AudioVbuffer.LoadFrames` | hals/audio/driver/audio_vbuffer.c:125-133 | The same for reading |
| `AudioVbuffer.Vbuffer.constructor` | hals/audio/driver/audio_vbuffer.c:30-47 | An empty queue with the given frame count and size |
| `AudioVbuffer.Vbuffer.Write` | hals/audio/driver/audio_vbuffer.c:78-107 | Appends exactly the first min(n, free) frames, byte for byte, in at most two copies |
| `AudioVbuffer.Vbuffer.WriteChunk` | hals/audio/driver/audio_vbuffer.c:84-102 | One chunk appends what fits in one piece, and nothing only when the ring is full |
| `AudioVbuffer.Vbuffer.Read` | hals/audio/driver/audio_vbuffer.c:109-138 | Removes exactly the oldest min(n, live) frames, copies them to the start of the buffer and leaves the rest of it, in at most two copies |
| `AudioVbuffer.Vbuffer.ReadChunk` | hals/audio/driver/audio_vbuffer.c:115-133 | One chunk removes what lies in one piece, and nothing only when the ring is empty |
| `StreamOutObject.StreamOut.constructor` | hals/audio/driver/audio_hw.c:1225-1241 | A new stream is an initial state of the machine |
| `StreamOutObject.StreamOut.GetCurrentOutputPosition` | hals/audio/driver/audio_hw.c:484-519 | Position and new clock fields, with negative elapsed time cut to 0 and the position cut to the frames written |
| `StreamOutObject.StreamOut.StoreCurrentOutputPosition` | hals/audio/driver/audio_hw.c:653 | The same when the output is the underrun position itself |
| `StreamOutObject.StreamOut.BeginWrite` | hals/audio/driver/audio_hw.c:543-574 | The first critical section of `out_write` is a step of the machine, and it sleeps for the frames that the ring has no room for, as an `int` |
| `StreamOutObject.StreamOut.Enqueue` | hals/audio/driver/audio_hw.c:582-607 | The section after the sleep: gain in place, first round, or the end of a muted write |
| `StreamOutObject.StreamOut.Resume` | hals/audio/driver/audio_hw.c:590-607 | The section after a wait: another round, and the counters when nothing is left |
| `StreamOutObject.StreamOut.WorkerRead` | hals/audio/driver/audio_hw.c:429-462 | The worker waits exactly while the ring is empty; else it takes the oldest frames and holds them in its buffer |
| `StreamOutObject.StreamOut.GetPresentationPosition` | hals/audio/driver/audio_hw.c:619-632 | Reports the position now and is a step of the machine |
| `StreamOutObject.StreamOut.StandbyRound` | hals/audio/driver/audio_hw.c:646-669 | One round of `do_out_standby` is a step of the machine, with the backlog cut to 32 bits |
| `StreamOutObject.ApplyGain` | hals/audio/driver/audio_hw.c:522-541 | In place, every whole sample becomes the gained sample of its channel and an odd last byte stays |
| `OutWrite.LeftSample` | hals/audio/driver/audio_hw.c:522-541 | The left sample of every frame is amplified from its own two bytes when the left channel is enabled, else zero |
| `OutWrite.RightSample` | hals/audio/driver/audio_hw.c:522-541 | The same for the right sample |
| `OutWrite.UnityGainIsInaudible` | hals/audio/driver/audio_hw.c:522-541 | With both channels enabled a gain that leaves samples alone leaves the buffer alone |
| `OutWrite.SleepsForWhatDoesNotFit` | hals/audio/driver/audio_hw.c:569-574 | A write sleeps for exactly the frames that the ring has no room for |
| `OutWrite.RoundsGoAsFarAsTheyCan` | hals/audio/driver/audio_hw.c:586-601 | A write that still waits after a round has filled the ring, and the worker takes all frames it asks for that there are |
| `OutWrite.CallsAreCounted` | hals/audio/driver/audio_hw.c:604-606 | Every run, from its events alone: the frames written are the whole frames of all calls that have returned, muted or not, and the bytes enqueued by calls that have returned are those of the unmuted ones |
| `OutWrite.StepOfCounters` | hals/audio/driver/audio_hw.c:560-566 | A start of playing clears both other counters, an underrun the frames buffered, and otherwise each grows with the frames written |
| `OutWrite.CountersRunTogether` | hals/audio/driver/audio_hw.c:604-606 | Every run: frames rendered grow with frames written until the next start, frames buffered until the next start or underrun |
| `OutWrite.WorkerStandsByWithStream` | hals/audio/driver/audio_hw.c:553-566 | Every run: the worker is in standby exactly when the stream is |
| `StreamRuns.FramesAreConserved` | hals/audio/driver/audio_hw.c:582-601 | Every run: frames taken by the worker followed by the ring are the frames enqueued, which are all frames of the unmuted writes that have returned, in order, and the done part of the current one |
| `StreamRuns.RunSubmits` | hals/audio/driver/audio_hw.c:582-601 | Every unmuted write of a run has returned or is the current one, in order |
| `StreamRuns.PositionsNeverDecrease` | hals/audio/driver/audio_hw.c:619-632 | Every run of writes, queries, underruns and standby cycles: reported positions never decrease and never exceed the frames written |
| `StreamRuns.StepAdvancesPosition` | hals/audio/driver/audio_hw.c:484-519 | No step makes a later position smaller |
| `StreamRuns.PositionFollowsTheClock` | hals/audio/driver/audio_hw.c:496-507 | While a stream plays the position starts where the last start or underrun left it and advances between any two instants by the time between them at the sample rate, rounded to a neighbouring frame, and exactly so for whole frames, until the frames written are reached |
| `StreamRuns.UnderrunStartsAgain` | hals/audio/driver/audio_hw.c:509-518 | A look that finds more played than written starts again from the frames written at that time; any other changes nothing |
| `StreamRuns.WriteStartsPlaying` | hals/audio/driver/audio_hw.c:560-566 | The write that leaves standby plays on from the position held, at that time |
| `StreamRuns.StandbyExitsAtTheEnd` | hals/audio/driver/audio_hw.c:646-669 | A whole call with everything that may happen before it ends: the exit is at the frames written if the backlog at the call and the frames counted meanwhile are together below 2^32 |
| `StreamRuns.StandbyIsSafeExactly` | hals/audio/driver/audio_hw.c:646-669 | For a backlog at some moment and a bound on the frames counted afterwards: all exits of all calls made from then on, at any time and in all interleavings, are at the frames written if and only if the two are together below 2^32 |
| `StreamRuns.CallIsSafeExactly` | hals/audio/driver/audio_hw.c:646-669 | For one call made at a given time: it never ends early, in whatever interleaving, if and only if its first round finds no backlog, or finds one that is not a multiple of 2^32 and leaves one that together with the bound is below 2^32 |
| `StreamRuns.BacklogExitsEarly` | hals/audio/driver/audio_hw.c:653-668 | With a backlog of 2^32 or more there is a time at which a call ends in its first round, 2^32 frames too early |
| `StreamRuns.StandbyCanExitEarly` | hals/audio/driver/audio_hw.c:567-608 | Runs from the start in which muted writes that fit the ring never sleep and a call of `do_out_standby` ends 2^32 frames too early |
| `StreamRuns.MutedWritesCount` | hals/audio/driver/audio_hw.c:567-608 | Muted writes that are not slower than playback count their frames, change nothing else and do not sleep while one of them fits the ring |
| `StreamRuns.StandbyHoldsPosition` | hals/audio/driver/audio_hw.c:484-500 | In every run without a new write a stream in standby keeps reporting the same position, and the next write resumes from it |
| `Mixing.MixAllIsFold` | hals/audio/driver/ext_pcm.c:62-94 | A tick emits as many samples as the longest pipeline, each the left fold of saturating addition over the zero-padded pipelines |
| `Mixing.SaturatedIsNearest` | hals/audio/driver/ext_pcm.c:67-71 | The saturated sum is the 16-bit value nearest to the sum |
| `Mixing.TwoPipelinesClamp` | hals/audio/driver/ext_pcm.c:62-74 | With two pipelines the result is the clamped exact sum |
| `Mixing.ModerateSumsAreExact` | hals/audio/driver/ext_pcm.c:66-71 | Nothing is clamped where the positive samples add up to at most 32767 and the negative ones to at least -32768 |
| `Mixing.SmallSumsAreExact` | hals/audio/driver/ext_pcm.c:66-71 | Where absolute values add up to at most 32767 the result is the exact sum |
| `Mixing.SmallMixesIgnoreOrder` | hals/audio/driver/ext_pcm.c:83-85 | Then the order of the visits does not matter |
| `Mixing.SampleIgnoresOrder` | hals/audio/driver/ext_pcm.c:62-94 | Every order of the pipelines gives the same sample if and only if the positive ones add up to at most 32767 and the negative ones to at least -32768, or there are none of one sign |
| `Mixing.MixIgnoresOrder` | hals/audio/driver/ext_pcm.c:83-85 | Every order gives the same output of a tick if and only if that holds at every index |
| `Mixing.OrderMatters` | hals/audio/driver/ext_pcm.c:66-71 | An instance where it does not: three pipelines and two orders with different outputs |
| `MixerMachine.SamplesAreConserved` | hals/audio/driver/ext_pcm.c:76-136 | Every interleaving of writes and ticks, every bus: samples submitted are those drained by ticks, those in the pipeline and those waiting, in order; no pipeline exceeds its size |
| `MixerMachine.StepsGoAsFarAsTheyCan` | hals/audio/driver/ext_pcm.c:108-136 | A writer waits only when its pipeline is full, a tick leaves every pipeline empty, and a write touches no other bus |
| `MixerMachine.TicksMixWhatIsWritten` | hals/audio/driver/ext_pcm.c:62-136 | Every run: each tick visits every pipeline once and takes from each bus the next piece of what was written to it; its output is as long as the longest piece, and each sample is the left fold of saturating addition over the pieces |
| `MixerMachine.DevicePlaysTheMixes` | hals/audio/driver/ext_pcm.c:76-106 | Every run: the device gets exactly the nonempty outputs of the ticks, in order, and every block is the mix of the pieces of what was written that one tick took |
| `MixerMachine.RunKeepsOk` | hals/audio/driver/ext_pcm.c:76-136 | Every step keeps conservation for every bus and the bound of every pipeline |
| `ExtPcmObject.MixInto` | hals/audio/driver/ext_pcm.c:62-74 | In place, the output becomes the saturated sum at the longer length and the pipeline is emptied and zeroed |
| `ExtPcmObject.Pipeline.Accept` | hals/audio/driver/ext_pcm.c:120-126 | Copies exactly what fits behind the position; the buffer stays zero from the position on |
| `ExtPcmObject.ExtPcm.constructor` | hals/audio/driver/ext_pcm.c:138-155 | A new mixer without pipelines |
| `ExtPcmObject.ExtPcm.Write` | hals/audio/driver/ext_pcm.c:108-136 | Creates the pipeline when there is none; the first round is a step of the machine and says what is left to write |
| `ExtPcmObject.ExtPcm.Resume` | hals/audio/driver/ext_pcm.c:119-133 | A round after a wait is a step of the machine |
| `ExtPcmObject.ExtPcm.MixTick` | hals/audio/driver/ext_pcm.c:80-95 | A tick in any order of visits is a step of the machine |
| `Playback.EnqueuedSamplesReachTheMixer` | hals/audio/driver/audio_hw.c:460-476 | Every run of stream and mixer together: samples enqueued by `out_write` are, in order, those mixed, in the pipeline, waiting, in the worker's hands and in the ring |
| `Playback.SamplesKeepBytes` | hals/audio/driver/audio_hw.c:466-467 | The samples handed to the mixer are the bytes of the frames, which can be had back from them |

## Left out

- Sockets, netlink, ioctl, signals, system properties, tinyalsa and the logging: their results are inputs of
  the model (`Read`, `System`, `Event`). `haltNetwork`, `setMtu` and the properties have no effect on the
  state of the client.
- `dhcp/client/interface.cpp`, `dhcp/client/router.cpp`, `receiveFromInterface`
  and `sendOnInterface`: input and output.
- `Message(const uint8_t*, size_t)`: a copy with a size check, used by no modelled code.
- Loops that never end are modelled by all their finite parts, the lists of events; liveness (that a waiting
  thread is woken, that the network answers) is not stated.
- `DhcpClientObject.DhcpClient.WaitAndReceive`: the clock readings of `ConfigureDhcp` lie between the start
  and the end of the poll; the random adjustment is any number in the range of its distribution.
- `Timers.Timer.ExpireSeconds`: 64-bit overflow of the clock is not modelled; times are unbounded.
- `Lease.ParsersAgree`: well-formed END-terminated lists only. The length test of the option loop leaves out
  the two header bytes, so it accepts some malformed lists, which `CutOffExactly` tells apart. Code 0 has a length
  byte in both parsers, unlike section 3.1 of RFC 2132, and nothing is claimed about padding.
- `DhcpMessage.AckRoundTrip`: the lease time is read as 0x58020000 and not as the ten minutes meant.
- `RawUdp.SendRawUdp`: the rule of RFC 768 that a zero checksum is sent as all ones is not in the code; only
  that the sum verifies is stated.
- Big-endian machines, except in `ByteOrderIndependence`. The message object is laid out as on a 64-bit
  machine, with four bytes of padding behind the buffer.
- Floating point: the gain is an arbitrary function on samples, and the mixer adds integers, which the float
  represents exactly.
- `AudioVbuffer.Vbuffer.constructor`: the frame count is in 1..INT_MAX because chunks are counted in an `int`;
  overflow of the allocation size and the `-EINVAL` and `-ENOMEM` paths are not modelled. `Size` is the
  recursive form of the product of frames and frame size (`SizeIsProduct`).
- `StreamOutObject.StreamOut.Enqueue`: how long a sleep takes is not modelled, only that other threads run
  meanwhile, since `usleep` may return early and its result is not looked at. `BeginWrite` says for how many
  frames a write sleeps. Mute is read once per write.
- `StreamRuns.StandbyIsSafeExactly`: for sample rates of at most one frame per microsecond; at higher ones
  the clock may step over the early exit, and only the direction of `StandbyExitsAtTheEnd` is stated.
- `StreamOutObject.StreamOut.GetCurrentOutputPosition`: the clock is in whole microseconds and counters are
  unbounded; the product of time and rate does not overflow.
- One writer per stream and per bus. Start, restart and end of the worker thread, the closing of the mixer,
  `out_get_render_position`, the input stream and the effects.
- `ExtPcmObject.ExtPcm.MixTick`: the hash map is a map, and its iteration order is a parameter; errors of the
  device are only logged in the code and do not appear.
- `ExtPcmObject.ExtPcm.Write`: whole samples; odd byte counts are not modelled.
- `Playback.EnqueuedSamplesReachTheMixer`: for a stream whose zone is selected to play; otherwise the worker
  drops what it has taken.

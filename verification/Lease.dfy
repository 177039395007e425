/**
 What `configureDhcp` reads out of an acknowledgement: the option loop that fills `DhcpInfo`, and
 the estimates for the T1 and T2 timers.
 */
module Lease {
  import opened Bytes
  import opened Wrappers
  import opened DhcpOptions

  type FourAddresses = s: seq<address> | |s| == 4 witness [NO_ADDRESS, NO_ADDRESS, NO_ADDRESS, NO_ADDRESS]

  datatype DhcpInfo = DhcpInfo(
    t1: word32, t2: word32, leaseTime: word32, mtu: word16, dns: FourAddresses,
    gateway: address, subnetMask: address, serverId: address, offeredAddress: address)

  const NO_SERVERS: FourAddresses := [NO_ADDRESS, NO_ADDRESS, NO_ADDRESS, NO_ADDRESS]
  const NO_INFO := DhcpInfo(0, 0, 0, 0, NO_SERVERS, NO_ADDRESS, NO_ADDRESS, NO_ADDRESS, NO_ADDRESS)

  /** The switch of the option loop.  Times and the MTU are in network order; addresses stay as they
      are stored. */
  function Absorb(info: DhcpInfo, code: byte, body: seq<byte>): DhcpInfo
    requires |body| <= 0xFF
  {
    if code == OPT_LEASE_TIME then (if |body| == 4 then info.(leaseTime := Be32(body)) else info)
    else if code == OPT_T1 then (if |body| == 4 then info.(t1 := Be32(body)) else info)
    else if code == OPT_T2 then (if |body| == 4 then info.(t2 := Be32(body)) else info)
    else if code == OPT_SUBNET_MASK then (if |body| == 4 then info.(subnetMask := body) else info)
    else if code == OPT_GATEWAY then (if |body| >= 4 then info.(gateway := body[..4]) else info)
    else if code == OPT_MTU then (if |body| == 2 then info.(mtu := Word(body[1], body[0])) else info)
    else if code == OPT_DNS then info.(dns := AbsorbServers(info.dns, body))
    else if code == OPT_SERVER_ID then (if |body| == 4 then info.(serverId := body) else info)
    else info
  }

  function AbsorbServers(dns: FourAddresses, body: seq<byte>): FourAddresses
  {
    var d0 := if |body| >= 4 then dns[0 := body[..4]] else dns;
    var d1 := if |body| >= 8 then d0[1 := body[4..8]] else d0;
    var d2 := if |body| >= 12 then d1[2 := body[8..12]] else d1;
    if |body| >= 16 then d2[3 := body[12..16]] else d2
  }

  datatype Collected = Collected(info: DhcpInfo, ok: bool)

  /** The option loop of `configureDhcp` from offset `i`.  `ok` is false when it drops the message
      because of an invalid length; what it has read so far stays in `info`. */
  function Collect(options: seq<byte>, size: nat, i: nat, info: DhcpInfo): Collected
    requires size < |options|
    decreases size - i
  {
    if i + 1 >= size || options[i] == OPT_END then Collected(info, true)
    else if i + options[i + 1] >= size then Collected(info, false)
    else
      var next := i + 2 + options[i + 1];
      Collect(options, size, next, Absorb(info, options[i], options[i + 2..next]))
  }

  function AbsorbAll(info: DhcpInfo, opts: seq<Opt>): DhcpInfo
    requires Encodable(opts)
    decreases |opts|
  {
    if opts == [] then info else AbsorbAll(Absorb(info, opts[0].code, opts[0].body), opts[1..])
  }

  lemma {:induction false} CollectAbsorbsAll(options: seq<byte>, size: nat, at: nat, info: DhcpInfo, opts: seq<Opt>)
    requires EndTerminated(options, size, at, opts) && size < |options|
    ensures Collect(options, size, at, info) == Collected(AbsorbAll(info, opts), true)
    decreases |opts|
  {
    if opts != [] {
      StepOver(options, size, at, opts);
      CollectAbsorbsAll(options, size, at + 2 + |opts[0].body|, Absorb(info, opts[0].code, opts[0].body), opts[1..]);
    } else {
      assert options[at] == options[at..at + 1][0];
    }
  }

  /** The options that are complete are absorbed one after the other, whatever follows them. */
  lemma {:induction false} CollectReaches(options: seq<byte>, size: nat, at: nat, info: DhcpInfo, opts: seq<Opt>)
    requires Stored(options, at, opts) && at + |Encode(opts)| <= size < |options|
    ensures Collect(options, size, at, info) == Collect(options, size, at + |Encode(opts)|, AbsorbAll(info, opts))
    decreases |opts|
  {
    if opts != [] {
      StoredHead(options, at, opts);
      CollectReaches(options, size, at + 2 + |opts[0].body|, Absorb(info, opts[0].code, opts[0].body), opts[1..]);
    }
  }

  /** When the message ends within the option after them, it is dropped exactly if the length reaches the end
      of the message from the start of that option: the test leaves out the two bytes before the body.  What has
      been absorbed before stays. */
  lemma CutOffExactly(options: seq<byte>, size: nat, at: nat, info: DhcpInfo, opts: seq<Opt>)
    requires Stored(options, at, opts) && size < |options|
    requires var next := at + |Encode(opts)|;
             next + 1 < size && options[next] != OPT_END && next + 2 + options[next + 1] > size
    ensures var next, r := at + |Encode(opts)|, Collect(options, size, at, info);
            && (r.ok <==> next + options[next + 1] < size)
            && (!r.ok ==> r.info == AbsorbAll(info, opts))
  {
    CollectReaches(options, size, at, info, opts);
  }

  /** The part of the information that options with the given code determine. */
  function Part(info: DhcpInfo, code: byte): DhcpInfo
  {
    if code == OPT_LEASE_TIME then NO_INFO.(leaseTime := info.leaseTime)
    else if code == OPT_T1 then NO_INFO.(t1 := info.t1)
    else if code == OPT_T2 then NO_INFO.(t2 := info.t2)
    else if code == OPT_SUBNET_MASK then NO_INFO.(subnetMask := info.subnetMask)
    else if code == OPT_GATEWAY then NO_INFO.(gateway := info.gateway)
    else if code == OPT_MTU then NO_INFO.(mtu := info.mtu)
    else if code == OPT_DNS then NO_INFO.(dns := info.dns)
    else if code == OPT_SERVER_ID then NO_INFO.(serverId := info.serverId)
    else NO_INFO
  }

  function Bodied(info: DhcpInfo, code: byte, bodies: seq<seq<byte>>): DhcpInfo
    requires forall k :: 0 <= k < |bodies| ==> |bodies[k]| <= 0xFF
    decreases |bodies|
  {
    if bodies == [] then info else Bodied(Absorb(info, code, bodies[0]), code, bodies[1..])
  }

  lemma AbsorbIsLocal(a: DhcpInfo, b: DhcpInfo, code: byte, other: byte, body: seq<byte>)
    requires |body| <= 0xFF
    ensures other != code ==> Part(Absorb(a, other, body), code) == Part(a, code)
    ensures Part(a, code) == Part(b, code) ==> Part(Absorb(a, code, body), code) == Part(Absorb(b, code, body), code)
  {
  }

  lemma BodiesFit(opts: seq<Opt>, code: byte)
    requires Encodable(opts)
    ensures forall k :: 0 <= k < |Bodies(opts, code)| ==> |Bodies(opts, code)[k]| <= 0xFF
  {
  }

  /** The loop gives every code the value of the options with that code alone, in their order: other
      options and other parts of the information do not interfere. */
  lemma {:induction false} PartsAreIndependent(a: DhcpInfo, b: DhcpInfo, opts: seq<Opt>, code: byte)
    requires Encodable(opts) && Part(a, code) == Part(b, code)
    ensures forall k :: 0 <= k < |Bodies(opts, code)| ==> |Bodies(opts, code)[k]| <= 0xFF
    ensures Part(AbsorbAll(a, opts), code) == Part(Bodied(b, code, Bodies(opts, code)), code)
    decreases |opts|
  {
    BodiesFit(opts, code);
    if opts != [] {
      var o := opts[0];
      BodiesFit(opts[1..], code);
      AbsorbIsLocal(a, b, code, o.code, o.body);
      if o.code == code {
        assert Bodies(opts, code)[1..] == Bodies(opts[1..], code);
        PartsAreIndependent(Absorb(a, code, o.body), Absorb(b, code, o.body), opts[1..], code);
      } else {
        assert Bodies(opts, code) == Bodies(opts[1..], code);
        PartsAreIndependent(Absorb(a, o.code, o.body), b, opts[1..], code);
      }
    }
  }

  /** The two parsers agree on every code that a well-formed message uses at most once: the loop
      stores what the body located by `getOption` says, and leaves zeros when there is none. */
  lemma ParsersAgree(options: seq<byte>, size: nat, at: nat, opts: seq<Opt>, code: byte)
    requires EndTerminated(options, size, at, opts) && size < |options|
    requires |Bodies(opts, code)| <= 1
    ensures var all, one := Collect(options, size, at, NO_INFO), Find(options, size, code, at);
            && all.ok
            && (one.None? ==> Part(all.info, code) == Part(NO_INFO, code))
            && (one.Some? ==>
                  && one.value.at + one.value.len < size
                  && Part(all.info, code) ==
                       Part(Absorb(NO_INFO, code, options[one.value.at..one.value.at + one.value.len]), code))
  {
    CollectAbsorbsAll(options, size, at, NO_INFO, opts);
    FindsFirst(options, size, code, at, opts);
    PartsAreIndependent(NO_INFO, NO_INFO, opts, code);
    if |Bodies(opts, code)| == 1 {
      assert Bodies(opts, code)[1..] == [];
    }
  }

  // ----- Repeated codes --------------------------------------------------------------------------

  /** The number of values that options with the given code fill: four name servers, one value for the
      other codes that the loop knows. */
  function Slots(code: byte): nat
  {
    if code == OPT_DNS then 4
    else if code == OPT_LEASE_TIME || code == OPT_T1 || code == OPT_T2 || code == OPT_SUBNET_MASK then 1
    else if code == OPT_GATEWAY || code == OPT_MTU || code == OPT_SERVER_ID then 1
    else 0
  }

  datatype Value = Number(n: nat) | Place(a: address)

  predicate IsTime(code: byte) { code == OPT_LEASE_TIME || code == OPT_T1 || code == OPT_T2 }

  /** What a body gives to slot `j` of its code, if it is of a size that gives anything. */
  function Given(code: byte, j: nat, body: seq<byte>): Option<Value>
  {
    if code == OPT_DNS then (if |body| >= 4 * j + 4 then Some(Place(body[4 * j..4 * j + 4])) else None)
    else if code == OPT_GATEWAY then (if |body| >= 4 then Some(Place(body[..4])) else None)
    else if code == OPT_MTU then (if |body| == 2 then Some(Number(Word(body[1], body[0]))) else None)
    else if |body| != 4 then None
    else if IsTime(code) then Some(Number(Be32(body)))
    else Some(Place(body))
  }

  function Nothing(code: byte): Value
  {
    if code == OPT_MTU || IsTime(code) then Number(0) else Place(NO_ADDRESS)
  }

  function Slot(info: DhcpInfo, code: byte, j: nat): Value
    requires j < Slots(code)
  {
    if code == OPT_LEASE_TIME then Number(info.leaseTime)
    else if code == OPT_T1 then Number(info.t1)
    else if code == OPT_T2 then Number(info.t2)
    else if code == OPT_SUBNET_MASK then Place(info.subnetMask)
    else if code == OPT_GATEWAY then Place(info.gateway)
    else if code == OPT_MTU then Number(info.mtu)
    else if code == OPT_DNS then Place(info.dns[j])
    else Place(info.serverId)
  }

  /** What the last body that gives slot `j` anything gives it; zero if there is none. */
  function LastGiven(code: byte, j: nat, bodies: seq<seq<byte>>): Value
  {
    if bodies == [] then Nothing(code)
    else
      var last := Given(code, j, bodies[|bodies| - 1]);
      if last.Some? then last.value else LastGiven(code, j, bodies[..|bodies| - 1])
  }

  lemma AbsorbFills(info: DhcpInfo, code: byte, j: nat, body: seq<byte>)
    requires j < Slots(code) && |body| <= 0xFF
    ensures Slot(Absorb(info, code, body), code, j)
            == match Given(code, j, body) case Some(v) => v case None => Slot(info, code, j)
  {
  }

  lemma PartIsSlots(a: DhcpInfo, b: DhcpInfo, code: byte)
    ensures Part(a, code) == Part(b, code)
            <==> forall j :: 0 <= j < Slots(code) ==> Slot(a, code, j) == Slot(b, code, j)
  {
    if forall j :: 0 <= j < Slots(code) ==> Slot(a, code, j) == Slot(b, code, j) {
      if Slots(code) == 1 {
        assert Slot(a, code, 0) == Slot(b, code, 0);
      } else if code == OPT_DNS {
        assert forall j :: 0 <= j < 4 ==> Slot(a, code, j) == Slot(b, code, j) && a.dns[j] == b.dns[j];
        assert a.dns == b.dns;
      }
    }
  }

  lemma {:induction false} BodiedOneMore(info: DhcpInfo, code: byte, bodies: seq<seq<byte>>, last: seq<byte>)
    requires |last| <= 0xFF && forall k :: 0 <= k < |bodies| ==> |bodies[k]| <= 0xFF
    ensures Bodied(info, code, bodies + [last]) == Absorb(Bodied(info, code, bodies), code, last)
    decreases |bodies|
  {
    if bodies == [] {
      assert [last][1..] == [];
    } else {
      assert (bodies + [last])[1..] == bodies[1..] + [last];
      BodiedOneMore(Absorb(info, code, bodies[0]), code, bodies[1..], last);
    }
  }

  lemma SlotsStartAsZeros(code: byte, j: nat)
    requires j < Slots(code)
    ensures Slot(NO_INFO, code, j) == LastGiven(code, j, [])
  {
  }

  lemma LastGivenOneMore(code: byte, j: nat, bodies: seq<seq<byte>>, last: seq<byte>)
    ensures LastGiven(code, j, bodies + [last])
            == match Given(code, j, last) case Some(v) => v case None => LastGiven(code, j, bodies)
  {
    assert (bodies + [last])[..|bodies|] == bodies;
  }

  lemma OneMoreFills(code: byte, j: nat, bodies: seq<seq<byte>>, last: seq<byte>)
    requires j < Slots(code) && |last| <= 0xFF && forall k :: 0 <= k < |bodies| ==> |bodies[k]| <= 0xFF
    requires Slot(Bodied(NO_INFO, code, bodies), code, j) == LastGiven(code, j, bodies)
    ensures Slot(Bodied(NO_INFO, code, bodies + [last]), code, j) == LastGiven(code, j, bodies + [last])
  {
    BodiedOneMore(NO_INFO, code, bodies, last);
    AbsorbFills(Bodied(NO_INFO, code, bodies), code, j, last);
    LastGivenOneMore(code, j, bodies, last);
  }

  lemma {:induction false} BodiedLeavesLast(code: byte, j: nat, bodies: seq<seq<byte>>)
    requires j < Slots(code) && forall k :: 0 <= k < |bodies| ==> |bodies[k]| <= 0xFF
    ensures Slot(Bodied(NO_INFO, code, bodies), code, j) == LastGiven(code, j, bodies)
    decreases |bodies|
  {
    if bodies == [] {
      SlotsStartAsZeros(code, j);
    } else {
      var most, last := bodies[..|bodies| - 1], bodies[|bodies| - 1];
      assert bodies == most + [last];
      BodiedLeavesLast(code, j, most);
      OneMoreFills(code, j, most, last);
    }
  }

  /** Whatever codes a well-formed message repeats, the loop leaves in every slot what the last option
      that fills it gives. */
  lemma LoopKeepsLast(options: seq<byte>, size: nat, at: nat, opts: seq<Opt>, code: byte, j: nat)
    requires EndTerminated(options, size, at, opts) && size < |options| && j < Slots(code)
    ensures Slot(Collect(options, size, at, NO_INFO).info, code, j) == LastGiven(code, j, Bodies(opts, code))
  {
    CollectAbsorbsAll(options, size, at, NO_INFO, opts);
    PartsAreIndependent(NO_INFO, NO_INFO, opts, code);
    PartIsSlots(AbsorbAll(NO_INFO, opts), Bodied(NO_INFO, code, Bodies(opts, code)), code);
    BodiedLeavesLast(code, j, Bodies(opts, code));
  }

  /** Every slot gets the same bytes from the last of the bodies that fills it and from the first body,
      where a body of a size that fills nothing counts as zero. */
  predicate LastIsFirst(code: byte, bodies: seq<seq<byte>>)
    requires bodies != []
  {
    forall j :: 0 <= j < Slots(code) ==> LastGiven(code, j, bodies) == LastGiven(code, j, [bodies[0]])
  }

  lemma OneBodyGives(code: byte, j: nat, body: seq<byte>)
    requires j < Slots(code) && |body| <= 0xFF
    ensures Slot(Absorb(NO_INFO, code, body), code, j) == LastGiven(code, j, [body])
  {
    SlotsStartAsZeros(code, j);
    AbsorbFills(NO_INFO, code, j, body);
    LastGivenOneMore(code, j, [], body);
    assert [] + [body] == [body];
  }

  lemma AgreeIfLastIsFirst(info: DhcpInfo, code: byte, bodies: seq<seq<byte>>)
    requires bodies != [] && |bodies[0]| <= 0xFF
    requires forall j :: 0 <= j < Slots(code) ==> Slot(info, code, j) == LastGiven(code, j, bodies)
    ensures Part(info, code) == Part(Absorb(NO_INFO, code, bodies[0]), code) <==> LastIsFirst(code, bodies)
  {
    var one := Absorb(NO_INFO, code, bodies[0]);
    PartIsSlots(info, one, code);
    forall j | 0 <= j < Slots(code)
      ensures Slot(one, code, j) == LastGiven(code, j, [bodies[0]])
    {
      OneBodyGives(code, j, bodies[0]);
    }
  }

  /** So for a code that does occur the two parsers agree exactly if every slot gets from the last option
      that fills it what it gets from the first option with the code. */
  lemma ParsersAgreeExactly(options: seq<byte>, size: nat, at: nat, opts: seq<Opt>, code: byte)
    requires EndTerminated(options, size, at, opts) && size < |options| && Bodies(opts, code) != []
    ensures var all, one := Collect(options, size, at, NO_INFO), Find(options, size, code, at);
            && one.Some? && one.value.at + one.value.len < size
            && (Part(all.info, code) ==
                  Part(Absorb(NO_INFO, code, options[one.value.at..one.value.at + one.value.len]), code)
                <==> LastIsFirst(code, Bodies(opts, code)))
  {
    FindsFirst(options, size, code, at, opts);
    BodiesFit(opts, code);
    forall j | 0 <= j < Slots(code)
      ensures Slot(Collect(options, size, at, NO_INFO).info, code, j) == LastGiven(code, j, Bodies(opts, code))
    {
      LoopKeepsLast(options, size, at, opts, code, j);
    }
    AgreeIfLastIsFirst(Collect(options, size, at, NO_INFO).info, code, Bodies(opts, code));
  }

  /** The option field of a message with two server ids: `getOption` reports the first one, the loop
      keeps the second. */
  lemma RepeatedServerIdsDisagree()
    ensures var options: seq<byte> := COOKIE + [OPT_SERVER_ID, 4, 1, 0, 0, 0, OPT_SERVER_ID, 4, 2, 0, 0, 0, OPT_END, 0];
            && Find(options, 17, OPT_SERVER_ID, 4) == Some(Located(6, 4)) && options[6..10] == [1, 0, 0, 0]
            && Collect(options, 17, 4, NO_INFO) == Collected(NO_INFO.(serverId := [2, 0, 0, 0]), true)
  {
    var options: seq<byte> := COOKIE + [OPT_SERVER_ID, 4, 1, 0, 0, 0, OPT_SERVER_ID, 4, 2, 0, 0, 0, OPT_END, 0];
    assert options[6..10] == [1, 0, 0, 0] && options[12..16] == [2, 0, 0, 0];
    var one, two := NO_INFO.(serverId := [1, 0, 0, 0]), NO_INFO.(serverId := [2, 0, 0, 0]);
    assert Collect(options, 17, 16, two) == Collected(two, true);
    assert Collect(options, 17, 10, one) == Collect(options, 17, 16, two);
  }

  /** Seconds until T1 and T2: the server's values, or the estimates of section 4.4.5 of RFC 2131,
      computed in 32-bit arithmetic. */
  function T1Seconds(info: DhcpInfo): word32
  {
    if info.t1 > 0 then info.t1 else info.leaseTime / 2
  }

  function T2Seconds(info: DhcpInfo): word32
  {
    if info.t2 > 0 then info.t2 else (info.leaseTime * 7) as int % TWO_TO_THE_32 / 8
  }

  /** Rebinding should not come before renewing.  When the server gives neither timer this holds
      exactly for the lease times whose product with 7 fits 32 bits, at most 613566756 seconds; for
      any longer lease, in particular the infinite one, the estimate of T2 falls before that of T1. */
  lemma EstimatedTimersOrdered(info: DhcpInfo)
    requires info.t1 == 0 && info.t2 == 0
    ensures T1Seconds(info) <= T2Seconds(info) <==> info.leaseTime <= 613566756
  {
    var l: int := info.leaseTime;
    var k := 7 * l / TWO_TO_THE_32;
    assert 0 <= k <= 6 && 7 * l - k * TWO_TO_THE_32 == 7 * l % TWO_TO_THE_32;
  }
}

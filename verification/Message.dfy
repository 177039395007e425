/**
 DHCP messages (section 2 of RFC 2131) as dhcp/common/message.cpp builds and reads them.  `Msg` is
 the value of a message; MessageObject has the mutable object with its builders, which are proved to
 produce these values.

 A message object occupies 1264 bytes before its size field: the 1260 bytes of `Message::Dhcp` and
 four bytes of alignment.  Four byte loads at the end of the option field may reach the latter.
 */
module DhcpMessage {
  import opened Bytes
  import opened Wrappers
  import opened DhcpOptions
  import opened Lease

  const OP_BOOTREQUEST: byte := 1
  const OP_BOOTREPLY: byte := 2
  const FLAGS_BROADCAST: word16 := 0x8000
  const HTYPE_ETHER: byte := 1
  const ETH_ALEN: byte := 6

  const DHCPDISCOVER: byte := 1
  const DHCPOFFER: byte := 2
  const DHCPREQUEST: byte := 3
  const DHCPACK: byte := 5
  const DHCPNAK: byte := 6

  // Ten minutes, stored in host order
  const DEFAULT_LEASE_TIME: seq<byte> := [0x58, 0x02, 0, 0]
  const REQUEST_PARAMETERS: seq<byte> :=
    [OPT_SUBNET_MASK, OPT_GATEWAY, OPT_DNS, OPT_BROADCAST_ADDR, OPT_LEASE_TIME, OPT_T1, OPT_T2, OPT_MTU]

  // Offsets of the fields of Message::Dhcp, its size and that of the object around it
  const XID: nat := 4
  const FLAGS: nat := 10
  const YIADDR: nat := 16
  const GIADDR: nat := 24
  const CHADDR: nat := 28
  const OPTIONS: nat := 236
  const CAPACITY: nat := 1260
  const OBJECT: nat := 1264

  type Mac = s: seq<byte> | |s| == 6 witness [0, 0, 0, 0, 0, 0]

  datatype Raw = Raw(mem: seq<byte>, size: nat)

  type Msg = m: Raw | |m.mem| == OBJECT && m.size <= CAPACITY witness Raw(seq(OBJECT, _ => 0), 0)

  // ----- Reading ---------------------------------------------------------------------------------

  /** The transaction id, in host order; the code compares the stored words. */
  function Xid(m: Msg): word32 { Be32(m.mem[XID..XID + 4]) }

  function HardwareAddress(m: Msg): Mac { m.mem[CHADDR..CHADDR + ETH_ALEN] }

  function Flags(m: Msg): seq<byte> { m.mem[FLAGS..FLAGS + 2] }

  function Yiaddr(m: Msg): address { m.mem[YIADDR..YIADDR + 4] }

  function OptionField(m: Msg): (s: seq<byte>)
    ensures |s| == OBJECT - OPTIONS
  {
    m.mem[OPTIONS..]
  }

  function OptionsSize(m: Msg): (n: nat)
    ensures n <= CAPACITY - OPTIONS
  {
    if m.size <= OPTIONS then 0 else m.size - OPTIONS
  }

  predicate IsValidDhcpMessage(m: Msg, expectedOp: byte)
  {
    && OPTIONS + 4 <= m.size
    && m.mem[0] == expectedOp
    && m.mem[1] == HTYPE_ETHER
    && m.mem[2] == ETH_ALEN
    && m.mem[OPTIONS] == COOKIE[0]
    && m.mem[OPTIONS + 1] == COOKIE[1]
    && m.mem[OPTIONS + 2] == COOKIE[2]
    && m.mem[OPTIONS + 3] == COOKIE[3]
  }

  function GetOption(m: Msg, code: byte): (r: Option<Located>)
    ensures r.Some? ==> r.value.at < CAPACITY - OPTIONS
  {
    Find(OptionField(m), OptionsSize(m), code, 4)
  }

  function Type(m: Msg): byte
  {
    var r := GetOption(m, OPT_MESSAGE_TYPE);
    if r.Some? && r.value.len == 1 then OptionField(m)[r.value.at] else 0
  }

  function Address(m: Msg, code: byte): address
  {
    var r := GetOption(m, code);
    if r.Some? && r.value.len == 4 then OptionField(m)[r.value.at..r.value.at + 4] else NO_ADDRESS
  }

  function ServerId(m: Msg): address { Address(m, OPT_SERVER_ID) }

  function RequestedIp(m: Msg): address { Address(m, OPT_REQUESTED_IP) }

  // ----- Building --------------------------------------------------------------------------------

  function Zeros(n: nat): (s: seq<byte>) { seq(n, _ => 0) }

  /** The private constructor. */
  function Header(operation: byte, mac: Mac, kind: byte, xid: word32): (m: Msg)
    ensures m.size == OPTIONS + 7
  {
    var m0 := Splice(Zeros(OBJECT), 0, [operation, HTYPE_ETHER, ETH_ALEN, 0]);
    var m1 := Splice(m0, FLAGS, Be16Bytes(FLAGS_BROADCAST));
    var m2 := Splice(m1, XID, Be32Bytes(xid));
    var m3 := Splice(m2, CHADDR, mac);
    Raw(Splice(m3, OPTIONS, COOKIE + [OPT_MESSAGE_TYPE, 1, kind]), OPTIONS + 7)
  }

  predicate HasRoom(m: Msg, o: Opt)
  {
    |o.body| <= 0xFF && m.size + 2 + |o.body| <= CAPACITY
  }

  function AddOption(m: Msg, o: Opt): (r: Msg)
    requires HasRoom(m, o)
    ensures r.size == m.size + 2 + |o.body|
  {
    Raw(Splice(m.mem, m.size, [o.code, |o.body|] + o.body), m.size + 2 + |o.body|)
  }

  function EndOptions(m: Msg): (r: Msg)
    requires m.size < CAPACITY
    ensures r.size == m.size + 1
  {
    Raw(Splice(m.mem, m.size, [OPT_END]), m.size + 1)
  }

  /** `addOption` for each option of the list, in order. */
  function AddOptions(m: Msg, opts: seq<Opt>): (r: Msg)
    requires Encodable(opts) && m.size + |Encode(opts)| <= CAPACITY
    ensures r.size == m.size + |Encode(opts)|
    decreases |opts|
  {
    if opts == [] then m else AddOptions(AddOption(m, opts[0]), opts[1..])
  }

  function Store(m: Msg, at: nat, bytes: seq<byte>): (r: Msg)
    requires at + |bytes| <= OPTIONS
    ensures r.size == m.size
  {
    Raw(Splice(m.mem, at, bytes), m.size)
  }

  function DiscoverMsg(mac: Mac, xid: word32): Msg
  {
    var m0 := Header(OP_BOOTREQUEST, mac, DHCPDISCOVER, xid);
    var m1 := AddOption(m0, Opt(OPT_PARAMETER_LIST, REQUEST_PARAMETERS));
    EndOptions(m1)
  }

  function RequestMsg(mac: Mac, requestAddress: address, serverAddress: address, xid: word32): Msg
  {
    var m0 := Header(OP_BOOTREQUEST, mac, DHCPREQUEST, xid);
    var m1 := AddOption(m0, Opt(OPT_PARAMETER_LIST, REQUEST_PARAMETERS));
    var m2 := AddOption(m1, Opt(OPT_REQUESTED_IP, requestAddress));
    var m3 := AddOption(m2, Opt(OPT_SERVER_ID, serverAddress));
    EndOptions(m3)
  }

  /** The header of a reply: transaction id, flags, relay and hardware address come from the message
      that is answered.  `nextXid` is what the constructor puts first. */
  function ReplyHeader(source: Msg, kind: byte, nextXid: word32): (m: Msg)
    ensures m.size == OPTIONS + 7
  {
    var m0 := Header(OP_BOOTREPLY, source.mem[CHADDR..CHADDR + 6], kind, nextXid);
    var m1 := Store(m0, XID, source.mem[XID..XID + 4]);
    var m2 := Store(m1, FLAGS, source.mem[FLAGS..FLAGS + 2]);
    Store(m2, GIADDR, source.mem[GIADDR..GIADDR + 4])
  }

  function AddressBytes(addresses: seq<address>): (s: seq<byte>)
    ensures |s| == 4 * |addresses|
  {
    if addresses == [] then [] else addresses[0] + AddressBytes(addresses[1..])
  }

  lemma FourTimesModulo(n: nat)
    ensures 4 * n % 0x100 == 4 * (n % 64) <= 4 * n
  {
    var q, r := n / 64, n % 64;
    assert 4 * n == 0x100 * q + 4 * r;
  }

  /** The option with the server addresses.  Their size in bytes is passed in a byte, so that only the
      first `|dns| % 64` of them are stored. */
  function DnsOption(dns: seq<address>): (o: Opt)
    ensures |o.body| == 4 * (|dns| % 64)
  {
    FourTimesModulo(|dns|);
    Opt(OPT_DNS, AddressBytes(dns)[..4 * |dns| % 0x100])
  }

  function AddLeaseOptions(m: Msg, server: address, netmask: address, gateway: address, dns: seq<address>): (r: Msg)
    requires m.size == OPTIONS + 7
    ensures r.size < CAPACITY
  {
    var m1 := AddOption(m, Opt(OPT_SERVER_ID, server));
    var m2 := AddOption(m1, Opt(OPT_LEASE_TIME, DEFAULT_LEASE_TIME));
    var m3 := AddOption(m2, Opt(OPT_SUBNET_MASK, netmask));
    var m4 := AddOption(m3, Opt(OPT_GATEWAY, gateway));
    AddOption(m4, DnsOption(dns))
  }

  /** `offer` and `ack`, which differ in `kind` only. */
  function LeaseMsg(kind: byte, source: Msg, server: address, offered: address, netmask: address, gateway: address,
                    dns: seq<address>, nextXid: word32): Msg
  {
    var m := Store(ReplyHeader(source, kind, nextXid), YIADDR, offered);
    EndOptions(AddLeaseOptions(m, server, netmask, gateway, dns))
  }

  function NackMsg(source: Msg, server: address, nextXid: word32): Msg
  {
    EndOptions(AddOption(ReplyHeader(source, DHCPNAK, nextXid), Opt(OPT_SERVER_ID, server)))
  }

  // ----- What is built is what is read -----------------------------------------------------------

  /** The part of the object that belongs to the message. */
  function Used(m: Msg): (s: seq<byte>)
    ensures |s| == m.size
  {
    m.mem[..m.size]
  }

  /** `m` carries the cookie and exactly the options `opts`, not yet closed by END. */
  ghost predicate Carries(m: Msg, opts: seq<Opt>)
  {
    && Encodable(opts)
    && OPTIONS <= m.size
    && Used(m)[OPTIONS..] == COOKIE + Encode(opts)
  }

  /** The same, closed by END. */
  ghost predicate Closed(m: Msg, opts: seq<Opt>)
  {
    && EndTerminated(OptionField(m), OptionsSize(m), 4, opts)
    && OptionField(m)[..4] == COOKIE
  }

  /** `m` is `base` with more options: nothing of `base` has changed. */
  ghost predicate Grown(base: Msg, m: Msg)
  {
    OPTIONS <= base.size && Used(base) <= Used(m)
  }

  lemma GrownKeepsHeader(base: Msg, m: Msg)
    requires Grown(base, m)
    ensures Xid(m) == Xid(base) && Yiaddr(m) == Yiaddr(base)
    ensures HardwareAddress(m) == HardwareAddress(base) && Flags(m) == Flags(base)
    ensures m.mem[0] == base.mem[0] && m.mem[1] == base.mem[1] && m.mem[2] == base.mem[2]
  {
    assert forall k :: 0 <= k < base.size ==> m.mem[k] == Used(m)[k] == Used(base)[k] == base.mem[k];
    assert m.mem[XID..XID + 4] == base.mem[XID..XID + 4];
    assert m.mem[YIADDR..YIADDR + 4] == base.mem[YIADDR..YIADDR + 4];
    assert HardwareAddress(m) == HardwareAddress(base) && Flags(m) == Flags(base);
  }

  lemma HeaderCarries(operation: byte, mac: Mac, kind: byte, xid: word32)
    ensures var m := Header(operation, mac, kind, xid);
            && Carries(m, [Opt(OPT_MESSAGE_TYPE, [kind])])
            && m.mem[0] == operation && m.mem[1] == HTYPE_ETHER && m.mem[2] == ETH_ALEN
            && Xid(m) == xid && HardwareAddress(m) == mac && Flags(m) == [0x80, 0]
  {
    var m := Header(operation, mac, kind, xid);
    var o := Opt(OPT_MESSAGE_TYPE, [kind]);
    assert [o][1..] == [];
    assert Encode([o]) == [OPT_MESSAGE_TYPE, 1, kind];
    assert Used(m)[OPTIONS..] == COOKIE + [OPT_MESSAGE_TYPE, 1, kind];
    assert m.mem[XID..XID + 4] == Be32Bytes(xid);
    assert HardwareAddress(m) == mac && Flags(m) == [0x80, 0];
  }

  lemma AddedCarries(base: Msg, m: Msg, opts: seq<Opt>, o: Opt)
    requires Grown(base, m) && Carries(m, opts) && HasRoom(m, o) && o.code != OPT_END
    ensures Grown(base, AddOption(m, o)) && Carries(AddOption(m, o), opts + [o])
  {
    var r, bytes := AddOption(m, o), [o.code, |o.body|] + o.body;
    EncodeAppend(opts, o);
    SpliceAppends(m.mem, m.size, bytes);
    assert Used(r) == Used(m) + bytes;
    assert Used(r)[OPTIONS..] == Used(m)[OPTIONS..] + bytes;
  }

  lemma EndedField(m: Msg, opts: seq<Opt>)
    requires Carries(m, opts) && m.size < CAPACITY
    ensures Used(EndOptions(m)) == Used(m) + [OPT_END]
    ensures Used(EndOptions(m))[OPTIONS..] == COOKIE + Encode(opts) + [OPT_END]
  {
    SpliceAppends(m.mem, m.size, [OPT_END]);
    assert Used(EndOptions(m)) == Used(m) + [OPT_END];
    assert (Used(m) + [OPT_END])[OPTIONS..] == Used(m)[OPTIONS..] + [OPT_END];
  }

  lemma FieldIsClosed(m: Msg, opts: seq<Opt>)
    requires Encodable(opts) && OPTIONS <= m.size
    requires Used(m)[OPTIONS..] == COOKIE + Encode(opts) + [OPT_END]
    ensures Closed(m, opts)
  {
    var field := COOKIE + Encode(opts) + [OPT_END];
    SliceOfSlice(m.mem, 0, m.size, OPTIONS, m.size);
    SliceOfSlice(m.mem, OPTIONS, OBJECT, 0, |field|);
    assert OptionField(m)[..|field|] == field;
    assert field[4..] == Encode(opts) + [OPT_END] && field[..4] == COOKIE;
    SliceOfSlice(OptionField(m), 0, |field|, 4, |field|);
    SliceOfSlice(OptionField(m), 0, |field|, 0, 4);
  }

  lemma EndedIsClosed(base: Msg, m: Msg, opts: seq<Opt>)
    requires Grown(base, m) && Carries(m, opts) && m.size < CAPACITY
    ensures Grown(base, EndOptions(m)) && Closed(EndOptions(m), opts)
  {
    EndedField(m, opts);
    FieldIsClosed(EndOptions(m), opts);
  }

  /** Build/parse round trip: adding any options with codes other than END that fit the buffer and
      closing the list makes `getOption(code)` return the length and the bytes of the first option
      with that code, counting those that the message carried before, or nothing if there is none. */
  lemma {:induction false} BuildParseRoundTrip(m: Msg, before: seq<Opt>, opts: seq<Opt>, code: byte)
    requires Carries(m, before) && Encodable(opts) && m.size + |Encode(opts)| < CAPACITY
    ensures var r := EndOptions(AddOptions(m, opts));
            && Grown(m, r)
            && Locates(OptionField(r), OptionsSize(r), GetOption(r, code), Bodies(before + opts, code))
    decreases |opts|
  {
    if opts == [] {
      assert before + opts == before;
      EndedIsClosed(m, m, before);
      var r := EndOptions(m);
      FindsFirst(OptionField(r), OptionsSize(r), code, 4, before);
    } else {
      AddedCarries(m, m, before, opts[0]);
      var n := AddOption(m, opts[0]);
      assert before + opts == before + [opts[0]] + opts[1..];
      BuildParseRoundTrip(n, before + [opts[0]], opts[1..], code);
    }
  }

  /** No other option has the code of the k-th. */
  predicate Once(opts: seq<Opt>, k: nat)
  {
    k < |opts| && forall j :: 0 <= j < |opts| && j != k ==> opts[j].code != opts[k].code
  }

  lemma ClosedReads(m: Msg, opts: seq<Opt>, k: nat)
    requires Closed(m, opts) && Once(opts, k)
    ensures opts[k].code == OPT_MESSAGE_TYPE && |opts[k].body| == 1 ==> Type(m) == opts[k].body[0]
    ensures |opts[k].body| == 4 ==> Address(m, opts[k].code) == opts[k].body
  {
    UniqueBody(opts, k, opts[k].code);
    var f := OptionField(m);
    FindsFirst(f, OptionsSize(m), opts[k].code, 4, opts);
    var at := GetOption(m, opts[k].code).value.at;
    if |opts[k].body| == 1 {
      assert f[at] == f[at..at + 1][0];
    }
  }

  /** A closed message that has grown from a header keeps that header and its message type. */
  lemma ClosedKeepsHeader(base: Msg, m: Msg, opts: seq<Opt>, kind: byte)
    requires Grown(base, m) && Closed(m, opts) && base.mem[1] == HTYPE_ETHER && base.mem[2] == ETH_ALEN
    requires opts != [] && opts[0] == Opt(OPT_MESSAGE_TYPE, [kind])
    requires forall j :: 0 < j < |opts| ==> opts[j].code != OPT_MESSAGE_TYPE
    ensures IsValidDhcpMessage(m, base.mem[0])
    ensures Type(m) == kind
    ensures Xid(m) == Xid(base) && Yiaddr(m) == Yiaddr(base)
    ensures HardwareAddress(m) == HardwareAddress(base) && Flags(m) == Flags(base)
  {
    GrownKeepsHeader(base, m);
    var f := OptionField(m);
    assert forall k :: 0 <= k < 4 ==> f[..4][k] == f[k] == m.mem[OPTIONS + k];
    ClosedReads(m, opts, 0);
  }

  function DiscoverOptions(): seq<Opt>
  {
    [Opt(OPT_MESSAGE_TYPE, [DHCPDISCOVER]), Opt(OPT_PARAMETER_LIST, REQUEST_PARAMETERS)]
  }

  function RequestOptions(requestAddress: address, serverAddress: address): seq<Opt>
  {
    [Opt(OPT_MESSAGE_TYPE, [DHCPREQUEST]),
     Opt(OPT_PARAMETER_LIST, REQUEST_PARAMETERS),
     Opt(OPT_REQUESTED_IP, requestAddress),
     Opt(OPT_SERVER_ID, serverAddress)]
  }

  function LeaseOptions(kind: byte, server: address, netmask: address, gateway: address, dns: seq<address>): seq<Opt>
  {
    [Opt(OPT_MESSAGE_TYPE, [kind]),
     Opt(OPT_SERVER_ID, server),
     Opt(OPT_LEASE_TIME, DEFAULT_LEASE_TIME),
     Opt(OPT_SUBNET_MASK, netmask),
     Opt(OPT_GATEWAY, gateway),
     DnsOption(dns)]
  }

  lemma DiscoverIsClosed(mac: Mac, xid: word32)
    ensures var m := DiscoverMsg(mac, xid);
            Closed(m, DiscoverOptions()) && Grown(Header(OP_BOOTREQUEST, mac, DHCPDISCOVER, xid), m)
  {
    var opts := DiscoverOptions();
    var m0 := Header(OP_BOOTREQUEST, mac, DHCPDISCOVER, xid);
    HeaderCarries(OP_BOOTREQUEST, mac, DHCPDISCOVER, xid);
    AddedCarries(m0, m0, [opts[0]], opts[1]);
    assert opts == [opts[0]] + [opts[1]];
    EndedIsClosed(m0, AddOption(m0, opts[1]), opts);
  }

  lemma RequestIsClosed(mac: Mac, requestAddress: address, serverAddress: address, xid: word32)
    ensures var m := RequestMsg(mac, requestAddress, serverAddress, xid);
            && Closed(m, RequestOptions(requestAddress, serverAddress))
            && Grown(Header(OP_BOOTREQUEST, mac, DHCPREQUEST, xid), m)
  {
    var opts := RequestOptions(requestAddress, serverAddress);
    var m0 := Header(OP_BOOTREQUEST, mac, DHCPREQUEST, xid);
    HeaderCarries(OP_BOOTREQUEST, mac, DHCPREQUEST, xid);
    AddedCarries(m0, m0, [opts[0]], opts[1]);
    var m1 := AddOption(m0, opts[1]);
    AddedCarries(m0, m1, [opts[0]] + [opts[1]], opts[2]);
    var m2 := AddOption(m1, opts[2]);
    AddedCarries(m0, m2, [opts[0]] + [opts[1]] + [opts[2]], opts[3]);
    assert opts == [opts[0]] + [opts[1]] + [opts[2]] + [opts[3]];
    EndedIsClosed(m0, AddOption(m2, opts[3]), opts);
  }

  /** `discover` is a valid request of type DISCOVER with the given transaction id. */
  lemma DiscoverParses(mac: Mac, xid: word32)
    ensures var m := DiscoverMsg(mac, xid);
            && IsValidDhcpMessage(m, OP_BOOTREQUEST)
            && Type(m) == DHCPDISCOVER
            && Xid(m) == xid && HardwareAddress(m) == mac && Flags(m) == Be16Bytes(FLAGS_BROADCAST)
  {
    var m := DiscoverMsg(mac, xid);
    DiscoverIsClosed(mac, xid);
    HeaderCarries(OP_BOOTREQUEST, mac, DHCPDISCOVER, xid);
    ClosedKeepsHeader(Header(OP_BOOTREQUEST, mac, DHCPDISCOVER, xid), m, DiscoverOptions(), DHCPDISCOVER);
  }

  lemma RequestReads(m: Msg, requestAddress: address, serverAddress: address)
    requires Closed(m, RequestOptions(requestAddress, serverAddress))
    ensures RequestedIp(m) == requestAddress && ServerId(m) == serverAddress
  {
    ClosedReads(m, RequestOptions(requestAddress, serverAddress), 2);
    ClosedReads(m, RequestOptions(requestAddress, serverAddress), 3);
  }

  /** `request` is a valid message of type REQUEST from which the requested address, the server id and
      the transaction id are read back. */
  lemma RequestParses(mac: Mac, requestAddress: address, serverAddress: address, xid: word32)
    ensures var m := RequestMsg(mac, requestAddress, serverAddress, xid);
            && IsValidDhcpMessage(m, OP_BOOTREQUEST)
            && Type(m) == DHCPREQUEST
            && RequestedIp(m) == requestAddress
            && ServerId(m) == serverAddress
            && Xid(m) == xid && HardwareAddress(m) == mac && Flags(m) == Be16Bytes(FLAGS_BROADCAST)
  {
    var m, opts := RequestMsg(mac, requestAddress, serverAddress, xid), RequestOptions(requestAddress, serverAddress);
    RequestIsClosed(mac, requestAddress, serverAddress, xid);
    HeaderCarries(OP_BOOTREQUEST, mac, DHCPREQUEST, xid);
    ClosedKeepsHeader(Header(OP_BOOTREQUEST, mac, DHCPREQUEST, xid), m, opts, DHCPREQUEST);
    RequestReads(m, requestAddress, serverAddress);
  }

  /** Transaction id, flags and hardware address are those of `source`. */
  predicate Echoes(m: Msg, source: Msg)
  {
    Xid(m) == Xid(source) && Flags(m) == Flags(source) && HardwareAddress(m) == HardwareAddress(source)
  }

  /** The header of a reply: its transaction id is that of the message it answers. */
  lemma ReplyHeaderCarries(source: Msg, kind: byte, nextXid: word32)
    ensures var m := ReplyHeader(source, kind, nextXid);
            && Carries(m, [Opt(OPT_MESSAGE_TYPE, [kind])])
            && m.mem[0] == OP_BOOTREPLY && m.mem[1] == HTYPE_ETHER && m.mem[2] == ETH_ALEN
            && Echoes(m, source)
  {
    var mac := source.mem[CHADDR..CHADDR + 6];
    var h, m := Header(OP_BOOTREPLY, mac, kind, nextXid), ReplyHeader(source, kind, nextXid);
    HeaderCarries(OP_BOOTREPLY, mac, kind, nextXid);
    assert Used(m)[OPTIONS..] == Used(h)[OPTIONS..];
    assert m.mem[XID..XID + 4] == source.mem[XID..XID + 4];
    assert HardwareAddress(m) == HardwareAddress(h) == HardwareAddress(source) && Flags(m) == Flags(source);
  }

  lemma LeaseHeaderCarries(kind: byte, source: Msg, offered: address, nextXid: word32)
    ensures var m := Store(ReplyHeader(source, kind, nextXid), YIADDR, offered);
            && Carries(m, [Opt(OPT_MESSAGE_TYPE, [kind])])
            && m.mem[0] == OP_BOOTREPLY && m.mem[1] == HTYPE_ETHER && m.mem[2] == ETH_ALEN
            && Echoes(m, source) && Yiaddr(m) == offered
  {
    ReplyHeaderCarries(source, kind, nextXid);
    var h := ReplyHeader(source, kind, nextXid);
    var m := Store(h, YIADDR, offered);
    assert Used(m)[OPTIONS..] == Used(h)[OPTIONS..];
    assert m.mem[XID..XID + 4] == h.mem[XID..XID + 4];
    assert HardwareAddress(m) == HardwareAddress(h) && Flags(m) == Flags(h);
    assert m.mem[YIADDR..YIADDR + 4] == offered;
  }

  lemma LeaseIsClosed(kind: byte, source: Msg, server: address, offered: address, netmask: address, gateway: address,
                      dns: seq<address>, nextXid: word32)
    ensures var m := LeaseMsg(kind, source, server, offered, netmask, gateway, dns, nextXid);
            && Closed(m, LeaseOptions(kind, server, netmask, gateway, dns))
            && Grown(Store(ReplyHeader(source, kind, nextXid), YIADDR, offered), m)
  {
    var opts := LeaseOptions(kind, server, netmask, gateway, dns);
    var m0 := Store(ReplyHeader(source, kind, nextXid), YIADDR, offered);
    LeaseHeaderCarries(kind, source, offered, nextXid);
    AddedCarries(m0, m0, [opts[0]], opts[1]);
    var m1 := AddOption(m0, opts[1]);
    AddedCarries(m0, m1, [opts[0]] + [opts[1]], opts[2]);
    var m2 := AddOption(m1, opts[2]);
    AddedCarries(m0, m2, [opts[0]] + [opts[1]] + [opts[2]], opts[3]);
    var m3 := AddOption(m2, opts[3]);
    AddedCarries(m0, m3, [opts[0]] + [opts[1]] + [opts[2]] + [opts[3]], opts[4]);
    var m4 := AddOption(m3, opts[4]);
    AddedCarries(m0, m4, [opts[0]] + [opts[1]] + [opts[2]] + [opts[3]] + [opts[4]], opts[5]);
    assert opts == [opts[0]] + [opts[1]] + [opts[2]] + [opts[3]] + [opts[4]] + [opts[5]];
    EndedIsClosed(m0, AddOption(m4, opts[5]), opts);
  }

  /** A closed message that has grown from the header of a reply, with the server id as its second
      option. */
  lemma ReplyParses(base: Msg, m: Msg, source: Msg, opts: seq<Opt>, kind: byte, server: address)
    requires Grown(base, m) && Closed(m, opts)
    requires base.mem[0] == OP_BOOTREPLY && base.mem[1] == HTYPE_ETHER && base.mem[2] == ETH_ALEN
    requires Echoes(base, source)
    requires |opts| >= 2 && opts[0] == Opt(OPT_MESSAGE_TYPE, [kind]) && opts[1] == Opt(OPT_SERVER_ID, server)
    requires forall j :: 1 < j < |opts| ==> opts[j].code !in {OPT_MESSAGE_TYPE, OPT_SERVER_ID}
    ensures IsValidDhcpMessage(m, OP_BOOTREPLY)
    ensures Type(m) == kind
    ensures Echoes(m, source) && Yiaddr(m) == Yiaddr(base)
    ensures ServerId(m) == server
  {
    ClosedKeepsHeader(base, m, opts, kind);
    ClosedReads(m, opts, 1);
  }

  /** An offer or acknowledgement is a valid reply to the message it answers: same transaction, with
      the given type, address and server id.  `kind` is OFFER or ACK in the code. */
  lemma LeaseParses(kind: byte, source: Msg, server: address, offered: address, netmask: address, gateway: address,
                    dns: seq<address>, nextXid: word32)
    ensures var m := LeaseMsg(kind, source, server, offered, netmask, gateway, dns, nextXid);
            && IsValidDhcpMessage(m, OP_BOOTREPLY)
            && Type(m) == kind
            && Echoes(m, source)
            && Yiaddr(m) == offered
            && ServerId(m) == server
  {
    var m := LeaseMsg(kind, source, server, offered, netmask, gateway, dns, nextXid);
    var opts := LeaseOptions(kind, server, netmask, gateway, dns);
    LeaseIsClosed(kind, source, server, offered, netmask, gateway, dns, nextXid);
    LeaseHeaderCarries(kind, source, offered, nextXid);
    ReplyParses(Store(ReplyHeader(source, kind, nextXid), YIADDR, offered), m, source, opts, kind, server);
  }

  function NackOptions(server: address): seq<Opt>
  {
    [Opt(OPT_MESSAGE_TYPE, [DHCPNAK]), Opt(OPT_SERVER_ID, server)]
  }

  lemma NackIsClosed(source: Msg, server: address, nextXid: word32)
    ensures Closed(NackMsg(source, server, nextXid), NackOptions(server))
    ensures Grown(ReplyHeader(source, DHCPNAK, nextXid), NackMsg(source, server, nextXid))
  {
    var m0, opts := ReplyHeader(source, DHCPNAK, nextXid), NackOptions(server);
    ReplyHeaderCarries(source, DHCPNAK, nextXid);
    AddedCarries(m0, m0, [opts[0]], opts[1]);
    assert opts == [opts[0]] + [opts[1]];
    EndedIsClosed(m0, AddOption(m0, opts[1]), opts);
  }

  lemma NackParses(source: Msg, server: address, nextXid: word32)
    ensures var m := NackMsg(source, server, nextXid);
            && IsValidDhcpMessage(m, OP_BOOTREPLY)
            && Type(m) == DHCPNAK
            && Echoes(m, source)
            && ServerId(m) == server
  {
    var m, opts := NackMsg(source, server, nextXid), NackOptions(server);
    NackIsClosed(source, server, nextXid);
    ReplyHeaderCarries(source, DHCPNAK, nextXid);
    ReplyParses(ReplyHeader(source, DHCPNAK, nextXid), m, source, opts, DHCPNAK, server);
  }

  /** The option loop of `configureDhcp` reads each option whose code occurs once by itself, and
      leaves zeros for a code that does not occur. */
  lemma ClosedCollects(m: Msg, opts: seq<Opt>, k: nat)
    requires Closed(m, opts) && Once(opts, k)
    ensures |opts[k].body| <= 0xFF
    ensures Part(Collect(OptionField(m), OptionsSize(m), 4, NO_INFO).info, opts[k].code)
            == Part(Absorb(NO_INFO, opts[k].code, opts[k].body), opts[k].code)
  {
    UniqueBody(opts, k, opts[k].code);
    CollectAbsorbsAll(OptionField(m), OptionsSize(m), 4, NO_INFO, opts);
    PartsAreIndependent(NO_INFO, NO_INFO, opts, opts[k].code);
    assert [opts[k].body][1..] == [];
  }

  lemma FirstServerId(m: Msg, opts: seq<Opt>)
    requires Closed(m, opts)
    ensures var ids := Bodies(opts, OPT_SERVER_ID);
            ServerId(m) == if ids != [] && |ids[0]| == 4 then ids[0] else NO_ADDRESS
  {
    FindsFirst(OptionField(m), OptionsSize(m), OPT_SERVER_ID, 4, opts);
  }

  /** The server id that the option loop keeps. */
  function LoopServerId(m: Msg): address
  {
    Collect(OptionField(m), OptionsSize(m), 4, NO_INFO).info.serverId
  }

  lemma LastServerId(m: Msg, opts: seq<Opt>)
    requires Closed(m, opts)
    ensures Place(LoopServerId(m)) == LastGiven(OPT_SERVER_ID, 0, Bodies(opts, OPT_SERVER_ID))
  {
    LoopKeepsLast(OptionField(m), OptionsSize(m), 4, opts, OPT_SERVER_ID, 0);
  }

  /** The server ids that `serverId` and the option loop read from one message are the same exactly if the
      message has none, or the last one that is four bytes long equals the first one. */
  lemma ServerIdsAgreeExactly(m: Msg, opts: seq<Opt>)
    requires Closed(m, opts)
    ensures var ids := Bodies(opts, OPT_SERVER_ID);
            ServerId(m) == LoopServerId(m) <==> ids == [] || LastIsFirst(OPT_SERVER_ID, ids)
  {
    FirstServerId(m, opts);
    LastServerId(m, opts);
    var ids := Bodies(opts, OPT_SERVER_ID);
    if ids != [] {
      assert [] + [ids[0]] == [ids[0]];
      LastGivenOneMore(OPT_SERVER_ID, 0, [], ids[0]);
    }
  }

  lemma ClosedLacks(m: Msg, opts: seq<Opt>, code: byte)
    requires Closed(m, opts)
    requires forall j :: 0 <= j < |opts| ==> opts[j].code != code
    ensures Part(Collect(OptionField(m), OptionsSize(m), 4, NO_INFO).info, code) == Part(NO_INFO, code)
  {
    NoBody(opts, code);
    CollectAbsorbsAll(OptionField(m), OptionsSize(m), 4, NO_INFO, opts);
    PartsAreIndependent(NO_INFO, NO_INFO, opts, code);
  }

  lemma {:induction false} ServerFromBytes(dns: seq<address>, k: nat)
    requires k < |dns|
    ensures AddressBytes(dns)[4 * k..4 * k + 4] == dns[k]
  {
    var rest := AddressBytes(dns[1..]);
    var all := AddressBytes(dns);
    if k == 0 {
      assert all[0..4] == dns[0];
    } else {
      var p := 4 * (k - 1);
      ServerFromBytes(dns[1..], k - 1);
      SliceOfSlice(all, 4, |all|, p, p + 4);
      assert all[4..] == rest;
    }
  }

  /** T1, T2, the lease time and the MTU are read in network order, whatever else the message holds. */
  lemma NetworkOrderIsRead(m: Msg, opts: seq<Opt>, k: nat, w: word32, mtu: word16)
    requires Closed(m, opts) && Once(opts, k)
    ensures var info := Collect(OptionField(m), OptionsSize(m), 4, NO_INFO).info;
            && (opts[k] == Opt(OPT_T1, Be32Bytes(w)) ==> info.t1 == w)
            && (opts[k] == Opt(OPT_T2, Be32Bytes(w)) ==> info.t2 == w)
            && (opts[k] == Opt(OPT_LEASE_TIME, Be32Bytes(w)) ==> info.leaseTime == w)
            && (opts[k] == Opt(OPT_MTU, Be16Bytes(mtu)) ==> info.mtu == mtu)
  {
    ClosedCollects(m, opts, k);
  }

  lemma ServersFromOption(dns: seq<address>)
    ensures var servers := AbsorbServers(NO_SERVERS, DnsOption(dns).body);
            forall k :: 0 <= k < 4 ==> servers[k] == if k < |dns| % 64 then dns[k] else NO_ADDRESS
  {
    var body, all := DnsOption(dns).body, AddressBytes(dns);
    forall k | 0 <= k < |dns| % 64
      ensures body[4 * k..4 * k + 4] == dns[k]
    {
      ServerFromBytes(dns, k);
      SliceOfSlice(all, 0, |body|, 4 * k, 4 * k + 4);
    }
    assert |dns| % 64 > 0 ==> body[4 * 0..4 * 0 + 4] == dns[0];
    assert |dns| % 64 > 1 ==> body[4 * 1..4 * 1 + 4] == dns[1];
    assert |dns| % 64 > 2 ==> body[4 * 2..4 * 2 + 4] == dns[2];
    assert |dns| % 64 > 3 ==> body[4 * 3..4 * 3 + 4] == dns[3];
  }

  lemma ClosedIsAccepted(m: Msg, opts: seq<Opt>)
    requires Closed(m, opts)
    ensures Collect(OptionField(m), OptionsSize(m), 4, NO_INFO).ok
  {
    CollectAbsorbsAll(OptionField(m), OptionsSize(m), 4, NO_INFO, opts);
  }

  lemma ClosedCollectsServers(m: Msg, opts: seq<Opt>, k: nat, dns: seq<address>)
    requires Closed(m, opts) && Once(opts, k)
    requires opts[k] == DnsOption(dns)
    ensures var info := Collect(OptionField(m), OptionsSize(m), 4, NO_INFO).info;
            forall j :: 0 <= j < 4 ==> info.dns[j] == if j < |dns| % 64 then dns[j] else NO_ADDRESS
  {
    ClosedCollects(m, opts, k);
    ServersFromOption(dns);
  }

  /** The ten minutes that the builder stores in host order, read in network order. */
  const LEASE_TIME_READ: word32 := 0x5802_0000

  /** The option loop accepts `m` and reads the given lease from it: the addresses, the first four
      name servers with zeros in the other slots, and no T1, T2 or MTU. */
  ghost predicate Conveys(m: Msg, server: address, netmask: address, gateway: address, dns: seq<address>)
  {
    var r := Collect(OptionField(m), OptionsSize(m), 4, NO_INFO);
    && r.ok
    && r.info.serverId == server
    && r.info.subnetMask == netmask
    && r.info.gateway == gateway
    && (forall k :: 0 <= k < 4 ==> r.info.dns[k] == if k < |dns| then dns[k] else NO_ADDRESS)
    && r.info.t1 == 0 && r.info.t2 == 0 && r.info.mtu == 0
    && r.info.leaseTime == LEASE_TIME_READ
  }

  ghost predicate IsLeaseList(opts: seq<Opt>, server: address, netmask: address, gateway: address, dns: seq<address>)
  {
    && |opts| == 6
    && opts[0].code == OPT_MESSAGE_TYPE
    && opts[1] == Opt(OPT_SERVER_ID, server)
    && opts[2] == Opt(OPT_LEASE_TIME, DEFAULT_LEASE_TIME)
    && opts[3] == Opt(OPT_SUBNET_MASK, netmask)
    && opts[4] == Opt(OPT_GATEWAY, gateway)
    && opts[5] == DnsOption(dns)
    && Once(opts, 1) && Once(opts, 2) && Once(opts, 3) && Once(opts, 4) && Once(opts, 5)
  }

  lemma LeaseOptionsAreLeaseList(kind: byte, server: address, netmask: address, gateway: address, dns: seq<address>)
    ensures IsLeaseList(LeaseOptions(kind, server, netmask, gateway, dns), server, netmask, gateway, dns)
  {
  }

  lemma LeaseListLacks(m: Msg, opts: seq<Opt>, server: address, netmask: address, gateway: address, dns: seq<address>)
    requires Closed(m, opts) && IsLeaseList(opts, server, netmask, gateway, dns)
    ensures var info := Collect(OptionField(m), OptionsSize(m), 4, NO_INFO).info;
            info.t1 == 0 && info.t2 == 0 && info.mtu == 0
  {
    assert forall j :: 0 <= j < |opts| ==> opts[j].code !in {OPT_T1, OPT_T2, OPT_MTU};
    ClosedLacks(m, opts, OPT_T1);
    ClosedLacks(m, opts, OPT_T2);
    ClosedLacks(m, opts, OPT_MTU);
  }

  lemma ClosedCollectsLeaseTime(m: Msg, opts: seq<Opt>, k: nat)
    requires Closed(m, opts) && Once(opts, k) && opts[k] == Opt(OPT_LEASE_TIME, DEFAULT_LEASE_TIME)
    ensures Collect(OptionField(m), OptionsSize(m), 4, NO_INFO).info.leaseTime == LEASE_TIME_READ
  {
    ClosedCollects(m, opts, k);
    assert Be32(DEFAULT_LEASE_TIME) == LEASE_TIME_READ;
  }

  /** The name servers whose addresses the option with their size in a byte can hold. */
  function StoredServers(dns: seq<address>): seq<address>
  {
    dns[..|dns| % 64]
  }

  lemma LeaseConveys(m: Msg, opts: seq<Opt>, server: address, netmask: address, gateway: address, dns: seq<address>)
    requires Closed(m, opts) && IsLeaseList(opts, server, netmask, gateway, dns)
    ensures Conveys(m, server, netmask, gateway, StoredServers(dns))
  {
    ClosedIsAccepted(m, opts);
    ClosedCollects(m, opts, 1);
    ClosedCollectsLeaseTime(m, opts, 2);
    ClosedCollects(m, opts, 3);
    ClosedCollects(m, opts, 4);
    ClosedCollectsServers(m, opts, 5, dns);
    LeaseListLacks(m, opts, server, netmask, gateway, dns);
    var sent := StoredServers(dns);
    assert forall k :: 0 <= k < |sent| ==> sent[k] == dns[k];
  }

  /** `ack` fed to the option loop of `configureDhcp` gives the lease back.  The number of name
      servers is taken modulo 64, so that all of it comes back for up to 63 of them. */
  lemma AckRoundTrip(source: Msg, server: address, offered: address, netmask: address, gateway: address,
                     dns: seq<address>, nextXid: word32)
    ensures var m := LeaseMsg(DHCPACK, source, server, offered, netmask, gateway, dns, nextXid);
            Conveys(m, server, netmask, gateway, StoredServers(dns))
  {
    LeaseIsClosed(DHCPACK, source, server, offered, netmask, gateway, dns, nextXid);
    LeaseOptionsAreLeaseList(DHCPACK, server, netmask, gateway, dns);
    LeaseConveys(LeaseMsg(DHCPACK, source, server, offered, netmask, gateway, dns, nextXid),
                 LeaseOptions(DHCPACK, server, netmask, gateway, dns), server, netmask, gateway, dns);
  }
}

/**
 The messages of dhcp/common/message.cpp byte by byte, in the numbers of section 2 of RFC 2131 and of RFC 2132,
 and which messages are rejected.
 */
module WireFormat {
  import opened Bytes
  import opened Wrappers
  import opened DhcpOptions
  import opened Lease
  import opened DhcpMessage

  /** Network order: the most significant byte comes first. */
  lemma NetworkOrder(w: word32, v: word16)
    ensures var s, t := Be32Bytes(w), Be16Bytes(v);
            && w == 0x100_0000 * s[0] as int + 0x1_0000 * s[1] as int + 0x100 * s[2] as int + s[3]
            && v == 0x100 * t[0] as int + t[1]
  {
  }

  // ----- The fixed part ----------------------------------------------------------------------------

  /** The 236 bytes before the options. */
  function FixedPart(operation: byte, xid: seq<byte>, flags: seq<byte>, yiaddr: address, giaddr: address, mac: Mac)
    : seq<byte>
  {
    [operation, 1, 6, 0] + xid + [0, 0] + flags + [0, 0, 0, 0] + yiaddr + [0, 0, 0, 0] + giaddr + mac + Zeros(202)
  }

  /** A buffer whose fields are these starts with them, and the rest of the fixed part is zero. */
  ghost predicate HasFields(mem: seq<byte>, operation: byte, xid: seq<byte>, flags: seq<byte>,
                            yiaddr: address, giaddr: address, mac: Mac)
  {
    && |mem| >= 236
    && mem[0..4] == [operation, 1, 6, 0] && mem[4..8] == xid && mem[8..10] == [0, 0]
    && mem[10..12] == flags && mem[12..16] == NO_ADDRESS && mem[16..20] == yiaddr
    && mem[20..24] == NO_ADDRESS && mem[24..28] == giaddr && mem[28..34] == mac && mem[34..236] == Zeros(202)
  }

  lemma SplitAt(mem: seq<byte>, i: nat, j: nat, k: nat)
    requires i <= j <= k <= |mem|
    ensures mem[i..j] + mem[j..k] == mem[i..k]
  {
  }

  lemma FieldsAreFixedPart(mem: seq<byte>, operation: byte, xid: seq<byte>, flags: seq<byte>,
                           yiaddr: address, giaddr: address, mac: Mac)
    requires HasFields(mem, operation, xid, flags, yiaddr, giaddr, mac)
    ensures mem[..236] == FixedPart(operation, xid, flags, yiaddr, giaddr, mac)
  {
    SplitAt(mem, 0, 4, 8);
    SplitAt(mem, 0, 8, 10);
    SplitAt(mem, 0, 10, 12);
    SplitAt(mem, 0, 12, 16);
    SplitAt(mem, 0, 16, 20);
    SplitAt(mem, 0, 20, 24);
    SplitAt(mem, 0, 24, 28);
    SplitAt(mem, 0, 28, 34);
    SplitAt(mem, 0, 34, 236);
    assert mem[0..236] == mem[..236];
  }

  lemma HeaderHasFields(operation: byte, mac: Mac, kind: byte, xid: word32)
    ensures HasFields(Header(operation, mac, kind, xid).mem, operation, Be32Bytes(xid), [0x80, 0],
                      NO_ADDRESS, NO_ADDRESS, mac)
  {
    var mem := Header(operation, mac, kind, xid).mem;
    assert mem[34..236] == Zeros(202);
    assert mem[0..4] == [operation, 1, 6, 0] && mem[4..8] == Be32Bytes(xid) && mem[8..10] == [0, 0];
    assert mem[10..12] == [0x80, 0] && mem[12..16] == NO_ADDRESS && mem[16..20] == NO_ADDRESS;
    assert mem[20..24] == NO_ADDRESS && mem[24..28] == NO_ADDRESS && mem[28..34] == mac;
  }

  lemma HeaderEnd(operation: byte, mac: Mac, kind: byte, xid: word32)
    ensures Used(Header(operation, mac, kind, xid))[236..] == [0x63, 0x82, 0x53, 0x63, 53, 1, kind]
  {
  }

  lemma UsedIsBoth(m: Msg, tail: seq<byte>)
    requires m.size >= 236 && Used(m)[236..] == tail
    ensures Used(m) == m.mem[..236] + tail
  {
    assert Used(m)[..236] == m.mem[..236];
    assert Used(m) == Used(m)[..236] + Used(m)[236..];
  }

  lemma HeaderOnTheWire(operation: byte, mac: Mac, kind: byte, xid: word32)
    ensures Used(Header(operation, mac, kind, xid))
            == FixedPart(operation, Be32Bytes(xid), [0x80, 0], NO_ADDRESS, NO_ADDRESS, mac)
               + [0x63, 0x82, 0x53, 0x63, 53, 1, kind]
  {
    var m := Header(operation, mac, kind, xid);
    HeaderHasFields(operation, mac, kind, xid);
    FieldsAreFixedPart(m.mem, operation, Be32Bytes(xid), [0x80, 0], NO_ADDRESS, NO_ADDRESS, mac);
    HeaderEnd(operation, mac, kind, xid);
    UsedIsBoth(m, [0x63, 0x82, 0x53, 0x63, 53, 1, kind]);
  }

  /** A store into one field of the fixed part. */
  lemma StoreKeepsOthers(m: Msg, at: nat, bytes: seq<byte>, i: nat, j: nat)
    requires at + |bytes| <= OPTIONS && i <= j <= |m.mem| && (j <= at || at + |bytes| <= i)
    ensures Store(m, at, bytes).mem[i..j] == m.mem[i..j]
    ensures Store(m, at, bytes).mem[at..at + |bytes|] == bytes
  {
  }

  lemma StoreXid(m: Msg, operation: byte, xid: seq<byte>, flags: seq<byte>, yiaddr: address, giaddr: address, mac: Mac,
                 bytes: seq<byte>)
    requires HasFields(m.mem, operation, xid, flags, yiaddr, giaddr, mac) && |bytes| == 4
    ensures HasFields(Store(m, 4, bytes).mem, operation, bytes, flags, yiaddr, giaddr, mac)
  {
    StoreKeepsOthers(m, 4, bytes, 0, 4);
    StoreKeepsOthers(m, 4, bytes, 8, 10);
    StoreKeepsOthers(m, 4, bytes, 10, 12);
    StoreKeepsOthers(m, 4, bytes, 12, 16);
    StoreKeepsOthers(m, 4, bytes, 16, 20);
    StoreKeepsOthers(m, 4, bytes, 20, 24);
    StoreKeepsOthers(m, 4, bytes, 24, 28);
    StoreKeepsOthers(m, 4, bytes, 28, 34);
    StoreKeepsOthers(m, 4, bytes, 34, 236);
  }

  lemma StoreFlags(m: Msg, operation: byte, xid: seq<byte>, flags: seq<byte>, yiaddr: address, giaddr: address,
                   mac: Mac, bytes: seq<byte>)
    requires HasFields(m.mem, operation, xid, flags, yiaddr, giaddr, mac) && |bytes| == 2
    ensures HasFields(Store(m, 10, bytes).mem, operation, xid, bytes, yiaddr, giaddr, mac)
  {
    StoreKeepsOthers(m, 10, bytes, 0, 4);
    StoreKeepsOthers(m, 10, bytes, 4, 8);
    StoreKeepsOthers(m, 10, bytes, 8, 10);
    StoreKeepsOthers(m, 10, bytes, 12, 16);
    StoreKeepsOthers(m, 10, bytes, 16, 20);
    StoreKeepsOthers(m, 10, bytes, 20, 24);
    StoreKeepsOthers(m, 10, bytes, 24, 28);
    StoreKeepsOthers(m, 10, bytes, 28, 34);
    StoreKeepsOthers(m, 10, bytes, 34, 236);
  }

  lemma StoreGiaddr(m: Msg, operation: byte, xid: seq<byte>, flags: seq<byte>, yiaddr: address, giaddr: address,
                    mac: Mac, bytes: address)
    requires HasFields(m.mem, operation, xid, flags, yiaddr, giaddr, mac)
    ensures HasFields(Store(m, 24, bytes).mem, operation, xid, flags, yiaddr, bytes, mac)
  {
    StoreKeepsOthers(m, 24, bytes, 0, 4);
    StoreKeepsOthers(m, 24, bytes, 4, 8);
    StoreKeepsOthers(m, 24, bytes, 8, 10);
    StoreKeepsOthers(m, 24, bytes, 10, 12);
    StoreKeepsOthers(m, 24, bytes, 12, 16);
    StoreKeepsOthers(m, 24, bytes, 16, 20);
    StoreKeepsOthers(m, 24, bytes, 20, 24);
    StoreKeepsOthers(m, 24, bytes, 28, 34);
    StoreKeepsOthers(m, 24, bytes, 34, 236);
  }

  lemma StoreYiaddr(m: Msg, operation: byte, xid: seq<byte>, flags: seq<byte>, yiaddr: address, giaddr: address,
                    mac: Mac, bytes: address)
    requires HasFields(m.mem, operation, xid, flags, yiaddr, giaddr, mac)
    ensures HasFields(Store(m, 16, bytes).mem, operation, xid, flags, bytes, giaddr, mac)
  {
    StoreKeepsOthers(m, 16, bytes, 0, 4);
    StoreKeepsOthers(m, 16, bytes, 4, 8);
    StoreKeepsOthers(m, 16, bytes, 8, 10);
    StoreKeepsOthers(m, 16, bytes, 10, 12);
    StoreKeepsOthers(m, 16, bytes, 12, 16);
    StoreKeepsOthers(m, 16, bytes, 20, 24);
    StoreKeepsOthers(m, 16, bytes, 24, 28);
    StoreKeepsOthers(m, 16, bytes, 28, 34);
    StoreKeepsOthers(m, 16, bytes, 34, 236);
  }

  lemma ReplyHasFields(source: Msg, kind: byte, nextXid: word32)
    ensures var s := source.mem;
            HasFields(ReplyHeader(source, kind, nextXid).mem, 2, s[4..8], s[10..12], NO_ADDRESS, s[24..28], s[28..34])
    ensures Used(ReplyHeader(source, kind, nextXid))[236..] == [0x63, 0x82, 0x53, 0x63, 53, 1, kind]
  {
    var s, mac := source.mem, source.mem[28..34];
    var m0 := Header(OP_BOOTREPLY, mac, kind, nextXid);
    HeaderHasFields(OP_BOOTREPLY, mac, kind, nextXid);
    HeaderEnd(OP_BOOTREPLY, mac, kind, nextXid);
    StoreXid(m0, 2, Be32Bytes(nextXid), [0x80, 0], NO_ADDRESS, NO_ADDRESS, mac, s[4..8]);
    var m1 := Store(m0, 4, s[4..8]);
    StoreFlags(m1, 2, s[4..8], [0x80, 0], NO_ADDRESS, NO_ADDRESS, mac, s[10..12]);
    var m2 := Store(m1, 10, s[10..12]);
    StoreGiaddr(m2, 2, s[4..8], s[10..12], NO_ADDRESS, NO_ADDRESS, mac, s[24..28]);
    StoreKeepsTail(m0, 4, s[4..8]);
    StoreKeepsTail(m1, 10, s[10..12]);
    StoreKeepsTail(m2, 24, s[24..28]);
  }

  lemma StoreKeepsTail(m: Msg, at: nat, bytes: seq<byte>)
    requires at + |bytes| <= OPTIONS <= m.size
    ensures Used(Store(m, at, bytes))[236..] == Used(m)[236..]
  {
    StoreKeepsOthers(m, at, bytes, 236, m.size);
    assert Used(m)[236..] == m.mem[236..m.size];
    assert Used(Store(m, at, bytes))[236..] == Store(m, at, bytes).mem[236..m.size];
  }

  // ----- Whole messages ----------------------------------------------------------------------------

  lemma AddedOnTheWire(m: Msg, o: Opt)
    requires HasRoom(m, o)
    ensures Used(AddOption(m, o)) == Used(m) + [o.code, |o.body|] + o.body
  {
    SpliceAppends(m.mem, m.size, [o.code, |o.body|] + o.body);
  }

  lemma EndedOnTheWire(m: Msg)
    requires m.size < CAPACITY
    ensures Used(EndOptions(m)) == Used(m) + [255]
  {
    SpliceAppends(m.mem, m.size, [OPT_END]);
  }

  /** `discover` on the wire. */
  lemma DiscoverOnTheWire(mac: Mac, xid: word32)
    ensures Used(DiscoverMsg(mac, xid))
            == FixedPart(1, Be32Bytes(xid), [0x80, 0], NO_ADDRESS, NO_ADDRESS, mac)
               + [0x63, 0x82, 0x53, 0x63, 53, 1, 1]
               + [55, 8] + [1, 3, 6, 28, 51, 58, 59, 26]
               + [255]
  {
    var m0 := Header(OP_BOOTREQUEST, mac, DHCPDISCOVER, xid);
    HeaderOnTheWire(OP_BOOTREQUEST, mac, DHCPDISCOVER, xid);
    AddedOnTheWire(m0, Opt(OPT_PARAMETER_LIST, REQUEST_PARAMETERS));
    EndedOnTheWire(AddOption(m0, Opt(OPT_PARAMETER_LIST, REQUEST_PARAMETERS)));
  }

  /** `request` on the wire. */
  lemma RequestOnTheWire(mac: Mac, requestAddress: address, serverAddress: address, xid: word32)
    ensures Used(RequestMsg(mac, requestAddress, serverAddress, xid))
            == FixedPart(1, Be32Bytes(xid), [0x80, 0], NO_ADDRESS, NO_ADDRESS, mac)
               + [0x63, 0x82, 0x53, 0x63, 53, 1, 3]
               + [55, 8] + [1, 3, 6, 28, 51, 58, 59, 26]
               + [50, 4] + requestAddress
               + [54, 4] + serverAddress
               + [255]
  {
    var m0 := Header(OP_BOOTREQUEST, mac, DHCPREQUEST, xid);
    HeaderOnTheWire(OP_BOOTREQUEST, mac, DHCPREQUEST, xid);
    AddedOnTheWire(m0, Opt(OPT_PARAMETER_LIST, REQUEST_PARAMETERS));
    var m1 := AddOption(m0, Opt(OPT_PARAMETER_LIST, REQUEST_PARAMETERS));
    AddedOnTheWire(m1, Opt(OPT_REQUESTED_IP, requestAddress));
    var m2 := AddOption(m1, Opt(OPT_REQUESTED_IP, requestAddress));
    AddedOnTheWire(m2, Opt(OPT_SERVER_ID, serverAddress));
    EndedOnTheWire(AddOption(m2, Opt(OPT_SERVER_ID, serverAddress)));
  }

  lemma {:induction false} FirstServers(dns: seq<address>, n: nat)
    requires n <= |dns|
    ensures AddressBytes(dns)[..4 * n] == AddressBytes(dns[..n])
  {
    if n > 0 {
      FirstServers(dns[1..], n - 1);
      assert dns[..n][1..] == dns[1..][..n - 1];
      assert AddressBytes(dns)[..4 * n] == dns[0] + AddressBytes(dns[1..])[..4 * (n - 1)];
    }
  }

  lemma LeaseOptionsOnTheWire(m: Msg, server: address, netmask: address, gateway: address, dns: seq<address>)
    requires m.size == OPTIONS + 7
    ensures Used(AddLeaseOptions(m, server, netmask, gateway, dns))
            == Used(m)
               + [54, 4] + server
               + [51, 4] + [0x58, 2, 0, 0]
               + [1, 4] + netmask
               + [3, 4] + gateway
               + [6, 4 * (|dns| % 64)] + AddressBytes(StoredServers(dns))
  {
    AddedOnTheWire(m, Opt(OPT_SERVER_ID, server));
    var m1 := AddOption(m, Opt(OPT_SERVER_ID, server));
    AddedOnTheWire(m1, Opt(OPT_LEASE_TIME, DEFAULT_LEASE_TIME));
    var m2 := AddOption(m1, Opt(OPT_LEASE_TIME, DEFAULT_LEASE_TIME));
    AddedOnTheWire(m2, Opt(OPT_SUBNET_MASK, netmask));
    var m3 := AddOption(m2, Opt(OPT_SUBNET_MASK, netmask));
    AddedOnTheWire(m3, Opt(OPT_GATEWAY, gateway));
    AddedOnTheWire(AddOption(m3, Opt(OPT_GATEWAY, gateway)), DnsOption(dns));
    FourTimesModulo(|dns|);
    FirstServers(dns, |dns| % 64);
  }

  /** `offer` and `ack` on the wire: the fields of the message answered that are echoed, and the lease. */
  lemma LeaseOnTheWire(kind: byte, source: Msg, server: address, offered: address, netmask: address, gateway: address,
                       dns: seq<address>, nextXid: word32)
    ensures var s := source.mem;
            Used(LeaseMsg(kind, source, server, offered, netmask, gateway, dns, nextXid))
            == FixedPart(2, s[4..8], s[10..12], offered, s[24..28], s[28..34])
               + [0x63, 0x82, 0x53, 0x63, 53, 1, kind]
               + [54, 4] + server
               + [51, 4] + [0x58, 2, 0, 0]
               + [1, 4] + netmask
               + [3, 4] + gateway
               + [6, 4 * (|dns| % 64)] + AddressBytes(StoredServers(dns))
               + [255]
  {
    var s, m0 := source.mem, ReplyHeader(source, kind, nextXid);
    ReplyHasFields(source, kind, nextXid);
    StoreYiaddr(m0, 2, s[4..8], s[10..12], NO_ADDRESS, s[24..28], s[28..34], offered);
    StoreKeepsTail(m0, 16, offered);
    var m := Store(m0, 16, offered);
    FieldsAreFixedPart(m.mem, 2, s[4..8], s[10..12], offered, s[24..28], s[28..34]);
    UsedIsBoth(m, [0x63, 0x82, 0x53, 0x63, 53, 1, kind]);
    LeaseOptionsOnTheWire(m, server, netmask, gateway, dns);
    EndedOnTheWire(AddLeaseOptions(m, server, netmask, gateway, dns));
  }

  /** `nack` on the wire. */
  lemma NackOnTheWire(source: Msg, server: address, nextXid: word32)
    ensures var s := source.mem;
            Used(NackMsg(source, server, nextXid))
            == FixedPart(2, s[4..8], s[10..12], NO_ADDRESS, s[24..28], s[28..34])
               + [0x63, 0x82, 0x53, 0x63, 53, 1, 6]
               + [54, 4] + server
               + [255]
  {
    var s, m := source.mem, ReplyHeader(source, DHCPNAK, nextXid);
    ReplyHasFields(source, DHCPNAK, nextXid);
    FieldsAreFixedPart(m.mem, 2, s[4..8], s[10..12], NO_ADDRESS, s[24..28], s[28..34]);
    UsedIsBoth(m, [0x63, 0x82, 0x53, 0x63, 53, 1, 6]);
    AddedOnTheWire(m, Opt(OPT_SERVER_ID, server));
    EndedOnTheWire(AddOption(m, Opt(OPT_SERVER_ID, server)));
  }

  // ----- Reading -----------------------------------------------------------------------------------

  /** The messages that are accepted, and no others: at least 240 bytes that start with the operation, the
      hardware type Ethernet and the length of its addresses, and have the cookie before the options. */
  lemma ValidExactly(m: Msg, operation: byte)
    ensures IsValidDhcpMessage(m, operation)
            <==> m.size >= 240 && Used(m)[..3] == [operation, 1, 6] && Used(m)[236..240] == [0x63, 0x82, 0x53, 0x63]
  {
    if m.size >= 240 {
      var u := Used(m);
      assert u[..3] == [u[0], u[1], u[2]] && u[236..240] == [u[236], u[237], u[238], u[239]];
    }
  }

  /** A word is its lowest byte and the rest. */
  lemma WordParts(low: byte, high: nat)
    ensures Word(low, high) / 0x100 == high && Word(low, high) % 0x100 == low
  {
  }

  lemma Be32Restores(s: seq<byte>)
    requires |s| == 4
    ensures Be32Bytes(Be32(s)) == s
  {
    WordParts(s[1], s[0]);
    WordParts(s[2], Word(s[1], s[0]));
    WordParts(s[3], Word(s[2], Word(s[1], s[0])));
  }

  /** Where the fields are read. */
  lemma FieldsAreRead(m: Msg)
    ensures Be32Bytes(Xid(m)) == m.mem[4..8]
    ensures Yiaddr(m) == m.mem[16..20] && HardwareAddress(m) == m.mem[28..34] && Flags(m) == m.mem[10..12]
  {
    Be32Restores(m.mem[4..8]);
  }

  /** The message type of a well-formed message is that of its first message type option, if that has one
      byte; else it is 0. */
  lemma TypeIsFirst(m: Msg, opts: seq<Opt>)
    requires Closed(m, opts)
    ensures var types := Bodies(opts, 53);
            Type(m) == if types != [] && |types[0]| == 1 then types[0][0] else 0
  {
    var r, f := GetOption(m, OPT_MESSAGE_TYPE), OptionField(m);
    FindsFirst(f, OptionsSize(m), OPT_MESSAGE_TYPE, 4, opts);
    if r.Some? && r.value.len == 1 {
      assert f[r.value.at] == f[r.value.at..r.value.at + 1][0];
    }
  }

  /** The same for the addresses: server id and requested address. */
  lemma AddressesAreFirst(m: Msg, opts: seq<Opt>)
    requires Closed(m, opts)
    ensures var ids := Bodies(opts, 54);
            ServerId(m) == if ids != [] && |ids[0]| == 4 then ids[0] else [0, 0, 0, 0]
    ensures var ips := Bodies(opts, 50);
            RequestedIp(m) == if ips != [] && |ips[0]| == 4 then ips[0] else [0, 0, 0, 0]
  {
    FindsFirst(OptionField(m), OptionsSize(m), OPT_SERVER_ID, 4, opts);
    FindsFirst(OptionField(m), OptionsSize(m), OPT_REQUESTED_IP, 4, opts);
  }
}

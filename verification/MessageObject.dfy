/**
 The mutable message object: a buffer and a size that the constructor, `addOption` and `endOptions`
 update in place.  Every method is proved to produce the value that DhcpMessage reasons about.
 */
module MessageObject {
  import opened Bytes
  import opened Wrappers
  import opened DhcpOptions
  import D = DhcpMessage

  /** `sNextTransactionId`. */
  class TransactionIds {
    var next: word32

    constructor ()
      ensures next == 1
    {
      next := 1;
    }

    method Take() returns (id: word32)
      modifies this
      ensures id == old(next) && next == (old(next) + 1) as int % TWO_TO_THE_32
    {
      id := next;
      next := (next + 1) as int % TWO_TO_THE_32;
    }
  }

  class Message {
    const dhcpData: array<byte>
    var mSize: nat

    ghost predicate Valid()
      reads this
    {
      dhcpData.Length == D.OBJECT && mSize <= D.CAPACITY
    }

    function Value(): D.Msg
      reads this, dhcpData
      requires Valid()
    {
      D.Raw(dhcpData[..], mSize)
    }

    constructor Empty()
      ensures Valid() && fresh(dhcpData)
      ensures Value() == D.Raw(D.Zeros(D.OBJECT), 0)
    {
      dhcpData := new byte[D.OBJECT](_ => 0);
      mSize := 0;
    }

    constructor Typed(operation: byte, macAddress: D.Mac, kind: byte, ids: TransactionIds)
      modifies ids
      ensures Valid() && fresh(dhcpData)
      ensures Value() == D.Header(operation, macAddress, kind, old(ids.next))
      ensures ids.next == (old(ids.next) + 1) as int % TWO_TO_THE_32
    {
      dhcpData := new byte[D.OBJECT](_ => 0);
      mSize := 0;
      new;
      assert dhcpData[..] == D.Zeros(D.OBJECT);
      Memcpy(dhcpData, 0, [operation, D.HTYPE_ETHER, D.ETH_ALEN, 0]);
      Memcpy(dhcpData, D.FLAGS, Be16Bytes(D.FLAGS_BROADCAST));
      var xid := ids.Take();
      Memcpy(dhcpData, D.XID, Be32Bytes(xid));
      Memcpy(dhcpData, D.CHADDR, macAddress);
      Memcpy(dhcpData, D.OPTIONS, COOKIE + [OPT_MESSAGE_TYPE, 1, kind]);
      mSize := D.OPTIONS + 7;
    }

    method AddOption(code: byte, data: seq<byte>, size: byte)
      requires Valid() && size <= |data| && mSize + 2 + size <= D.CAPACITY
      modifies this, dhcpData
      ensures Valid() && Value() == D.AddOption(old(Value()), Opt(code, data[..size]))
    {
      Memcpy(dhcpData, mSize, [code, size] + data[..size]);
      mSize := mSize + 2 + size;
    }

    method EndOptions()
      requires Valid() && mSize < D.CAPACITY
      modifies this, dhcpData
      ensures Valid() && Value() == D.EndOptions(old(Value()))
    {
      Memcpy(dhcpData, mSize, [OPT_END]);
      mSize := mSize + 1;
    }

    method Store(at: nat, bytes: seq<byte>)
      requires Valid() && at + |bytes| <= D.OPTIONS
      modifies dhcpData
      ensures Valid() && Value() == D.Store(old(Value()), at, bytes)
    {
      Memcpy(dhcpData, at, bytes);
    }

    method GetOption(expectedOptCode: byte) returns (r: Option<Located>)
      requires Valid()
      ensures r == D.GetOption(Value(), expectedOptCode)
    {
      ghost var field := D.OptionField(Value());
      var optsSize := if mSize <= D.OPTIONS then 0 else mSize - D.OPTIONS;
      var i := 4;
      while i + 2 < optsSize
        invariant 0 <= i
        invariant Find(field, optsSize, expectedOptCode, i) == Find(field, optsSize, expectedOptCode, 4)
        decreases optsSize - i
      {
        assert field[i] == dhcpData[D.OPTIONS + i] && field[i + 1] == dhcpData[D.OPTIONS + i + 1];
        var optCode, optLen := dhcpData[D.OPTIONS + i], dhcpData[D.OPTIONS + i + 1];
        if optCode == OPT_END {
          return None;
        }
        if optCode == expectedOptCode {
          return Some(Located(i + 2, optLen));
        }
        i := i + 2 + optLen;
      }
      r := None;
    }

    static method Discover(sourceMac: D.Mac, ids: TransactionIds) returns (message: Message)
      modifies ids
      ensures fresh(message) && fresh(message.dhcpData) && message.Valid()
      ensures message.Value() == D.DiscoverMsg(sourceMac, old(ids.next))
      ensures ids.next == (old(ids.next) + 1) as int % TWO_TO_THE_32
    {
      message := new Message.Typed(D.OP_BOOTREQUEST, sourceMac, D.DHCPDISCOVER, ids);
      message.AddOption(OPT_PARAMETER_LIST, D.REQUEST_PARAMETERS, 8);
      assert D.REQUEST_PARAMETERS[..8] == D.REQUEST_PARAMETERS;
      message.EndOptions();
    }

    static method Request(sourceMac: D.Mac, requestAddress: address, serverAddress: address, ids: TransactionIds)
      returns (message: Message)
      modifies ids
      ensures fresh(message) && fresh(message.dhcpData) && message.Valid()
      ensures message.Value() == D.RequestMsg(sourceMac, requestAddress, serverAddress, old(ids.next))
      ensures ids.next == (old(ids.next) + 1) as int % TWO_TO_THE_32
    {
      message := new Message.Typed(D.OP_BOOTREQUEST, sourceMac, D.DHCPREQUEST, ids);
      assert D.REQUEST_PARAMETERS[..8] == D.REQUEST_PARAMETERS;
      assert requestAddress[..4] == requestAddress && serverAddress[..4] == serverAddress;
      message.AddOption(OPT_PARAMETER_LIST, D.REQUEST_PARAMETERS, 8);
      message.AddOption(OPT_REQUESTED_IP, requestAddress, 4);
      message.AddOption(OPT_SERVER_ID, serverAddress, 4);
      message.EndOptions();
    }

    /** The part that `offer`, `ack` and `nack` share: a reply whose header answers `source`. */
    static method Reply(source: Message, kind: byte, ids: TransactionIds) returns (message: Message)
      requires source.Valid()
      modifies ids
      ensures fresh(message) && fresh(message.dhcpData) && message.Valid()
      ensures message.Value() == D.ReplyHeader(old(source.Value()), kind, old(ids.next))
      ensures ids.next == (old(ids.next) + 1) as int % TWO_TO_THE_32
    {
      message := new Message.Typed(D.OP_BOOTREPLY, source.dhcpData[D.CHADDR..D.CHADDR + 6], kind, ids);
      message.Store(D.XID, source.dhcpData[D.XID..D.XID + 4]);
      message.Store(D.FLAGS, source.dhcpData[D.FLAGS..D.FLAGS + 2]);
      message.Store(D.GIADDR, source.dhcpData[D.GIADDR..D.GIADDR + 4]);
    }

    /** `offer` and `ack`. */
    static method Lease(kind: byte, source: Message, server: address, offered: address, netmask: address,
                        gateway: address, dns: seq<address>, ids: TransactionIds)
      returns (message: Message)
      requires source.Valid()
      modifies ids
      ensures fresh(message) && fresh(message.dhcpData) && message.Valid()
      ensures message.Value()
              == D.LeaseMsg(kind, old(source.Value()), server, offered, netmask, gateway, dns, old(ids.next))
      ensures ids.next == (old(ids.next) + 1) as int % TWO_TO_THE_32
    {
      message := Reply(source, kind, ids);
      message.Store(D.YIADDR, offered);
      message.AddLeaseOptions(server, netmask, gateway, dns);
      message.EndOptions();
    }

    /** The five options of an offer or acknowledgement. */
    method AddLeaseOptions(server: address, netmask: address, gateway: address, dns: seq<address>)
      requires Valid() && mSize == D.OPTIONS + 7
      modifies this, dhcpData
      ensures Valid() && Value() == D.AddLeaseOptions(old(Value()), server, netmask, gateway, dns)
    {
      assert server[..4] == server && netmask[..4] == netmask && gateway[..4] == gateway;
      assert D.DEFAULT_LEASE_TIME[..4] == D.DEFAULT_LEASE_TIME;
      AddOption(OPT_SERVER_ID, server, 4);
      AddOption(OPT_LEASE_TIME, D.DEFAULT_LEASE_TIME, 4);
      AddOption(OPT_SUBNET_MASK, netmask, 4);
      AddOption(OPT_GATEWAY, gateway, 4);
      D.FourTimesModulo(|dns|);
      AddOption(OPT_DNS, D.AddressBytes(dns), 4 * |dns| % 0x100);
    }

    static method Nack(source: Message, server: address, ids: TransactionIds) returns (message: Message)
      requires source.Valid()
      modifies ids
      ensures fresh(message) && fresh(message.dhcpData) && message.Valid()
      ensures message.Value() == D.NackMsg(old(source.Value()), server, old(ids.next))
      ensures ids.next == (old(ids.next) + 1) as int % TWO_TO_THE_32
    {
      message := Reply(source, D.DHCPNAK, ids);
      assert server[..4] == server;
      message.AddOption(OPT_SERVER_ID, server, 4);
      message.EndOptions();
    }
  }
}

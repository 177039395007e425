/**
 Sending and receiving a DHCP message as an IP/UDP packet (dhcp/common/socket.cpp).  `SendRawUdp`
 fills the two headers in place and stores the checksums; what a receiver checks about them is
 section 1 of RFC 1071.  The system calls are not part of the model: a packet is its bytes.
 */
module RawUdp {
  import opened Bytes
  import opened Checksum
  import D = DhcpMessage

  const IP_SIZE: nat := 20
  const UDP_SIZE: nat := 8
  const VERSION_AND_IHL: byte := 0x45
  const IPDEFTTL: byte := 64
  const IPPROTO_UDP: byte := 17

  // Offsets of the fields that are filled in
  const IP_TOT_LEN: nat := 2
  const IP_TTL: nat := 8
  const IP_PROTOCOL: nat := 9
  const IP_CHECK: nat := 10
  const IP_SADDR: nat := 12
  const IP_DADDR: nat := 16
  const UDP_DEST: nat := 2
  const UDP_LEN: nat := 4
  const UDP_CHECK: nat := 6

  /** The pseudo-header of section "Fields" of RFC 768 that the UDP checksum covers. */
  function PseudoHeader(source: address, destination: address, length: word16): (s: seq<byte>)
  {
    source + destination + [0, IPPROTO_UDP] + Be16Bytes(length)
  }

  /** The sum over `bytes`, check field included, is all ones. */
  predicate Verifies(bytes: seq<byte>)
  {
    Fold(WordSum(bytes)) == 0xFFFF
  }

  lemma CheckFieldVerifies(zeroed: seq<byte>, at: nat)
    requires at % 2 == 0 && at + 2 <= |zeroed| && zeroed[at..at + 2] == [0, 0]
    ensures Verifies(Splice(zeroed, at, Le16Bytes(FinishChecksum(Fold(WordSum(zeroed))))))
  {
    assert zeroed == zeroed[..at] + [0, 0] + zeroed[at + 2..];
    StoredChecksumVerifies(zeroed[..at], zeroed[at + 2..]);
  }

  lemma UdpCheckFieldVerifies(pseudo: seq<byte>, zeroed: seq<byte>, message: seq<byte>)
    requires |pseudo| % 2 == 0 && |zeroed| == UDP_SIZE && zeroed[UDP_CHECK..] == [0, 0]
    ensures var check := Le16Bytes(FinishChecksum(Fold(WordSum(pseudo + zeroed + message))));
            Verifies(pseudo + Splice(zeroed, UDP_CHECK, check) + message)
  {
    var check := Le16Bytes(FinishChecksum(Fold(WordSum(pseudo + zeroed + message))));
    var before := pseudo + zeroed[..UDP_CHECK];
    assert pseudo + zeroed + message == before + [0, 0] + message;
    assert pseudo + Splice(zeroed, UDP_CHECK, check) + message == before + check + message;
    StoredChecksumVerifies(before, message);
  }

  /** The header part of `sendRawUdp`.  The stored IP header sums to all ones, and so do the
      pseudo-header, the UDP header and the payload together; the other fields are as they should be. */
  method SendRawUdp(source: address, sourcePort: word16, destination: address, destinationPort: word16, message: D.Msg)
    returns (ip: array<byte>, udp: array<byte>)
    ensures fresh(ip) && ip.Length == IP_SIZE && fresh(udp) && udp.Length == UDP_SIZE
    ensures Verifies(ip[..])
    ensures Verifies(PseudoHeader(source, destination, UDP_SIZE + message.size) + udp[..] + D.Used(message))
    ensures Verifies(OnTheWire(ip[..], udp[..]) + udp[..] + D.Used(message))
    ensures ip[..10] == [0x45, 0] + Be16Bytes(28 + message.size) + [0, 0, 0, 0, 64, 17]
    ensures ip[12..16] == source && ip[16..20] == destination
    ensures udp[..UDP_DEST] == Be16Bytes(sourcePort) && udp[UDP_DEST..UDP_LEN] == Be16Bytes(destinationPort)
    ensures udp[UDP_LEN..UDP_CHECK] == Be16Bytes(UDP_SIZE + message.size)
  {
    ip := new byte[IP_SIZE](_ => 0);
    FillIpHeader(ip, source, destination, IP_SIZE + UDP_SIZE + message.size);
    udp := new byte[UDP_SIZE](_ => 0);
    FillUdpHeader(udp, sourcePort, destinationPort, UDP_SIZE + message.size);
    var sum := UdpChecksum(source, destination, UDP_SIZE + message.size, udp[..], D.Used(message));
    UdpCheckFieldVerifies(PseudoHeader(source, destination, UDP_SIZE + message.size), udp[..], D.Used(message));
    Memcpy(udp, UDP_CHECK, Le16Bytes(FinishChecksum(sum)));
    PseudoHeaderIsOnTheWire(ip[..], udp[..], source, destination, UDP_SIZE + message.size);
  }

  /** The pseudo-header as a receiver finds it in the packet: the addresses, a zero byte and the protocol of the
      IP header, and the length of the UDP header. */
  function OnTheWire(ip: seq<byte>, udp: seq<byte>): seq<byte>
    requires |ip| == 20 && |udp| == 8
  {
    ip[12..20] + [0, ip[9]] + udp[4..6]
  }

  lemma PseudoHeaderIsOnTheWire(ip: seq<byte>, udp: seq<byte>, source: address, destination: address, length: word16)
    requires |ip| == 20 && |udp| == 8 && ip[9] == 17
    requires ip[12..16] == source && ip[16..20] == destination && udp[4..6] == Be16Bytes(length)
    ensures PseudoHeader(source, destination, length) == OnTheWire(ip, udp)
  {
    assert ip[12..20] == ip[12..16] + ip[16..20];
  }

  method FillIpHeader(ip: array<byte>, source: address, destination: address, totalLength: word16)
    requires ip.Length == IP_SIZE && forall k :: 0 <= k < IP_SIZE ==> ip[k] == 0
    modifies ip
    ensures Verifies(ip[..])
    ensures ip[..10] == [0x45, 0] + Be16Bytes(totalLength) + [0, 0, 0, 0, 64, 17]
    ensures ip[12..16] == source && ip[16..20] == destination
  {
    ip[0] := VERSION_AND_IHL;
    Memcpy(ip, IP_TOT_LEN, Be16Bytes(totalLength));
    ip[IP_TTL] := IPDEFTTL;
    ip[IP_PROTOCOL] := IPPROTO_UDP;
    Memcpy(ip, IP_SADDR, source);
    Memcpy(ip, IP_DADDR, destination);
    var sum := AddChecksum(ip[..], 0);
    CheckFieldVerifies(ip[..], IP_CHECK);
    Memcpy(ip, IP_CHECK, Le16Bytes(FinishChecksum(sum)));
  }

  method FillUdpHeader(udp: array<byte>, sourcePort: word16, destinationPort: word16, length: word16)
    requires udp.Length == UDP_SIZE && forall k :: 0 <= k < UDP_SIZE ==> udp[k] == 0
    modifies udp
    ensures udp[..UDP_DEST] == Be16Bytes(sourcePort) && udp[UDP_DEST..UDP_LEN] == Be16Bytes(destinationPort)
    ensures udp[UDP_LEN..UDP_CHECK] == Be16Bytes(length) && udp[UDP_CHECK..] == [0, 0]
  {
    Memcpy(udp, 0, Be16Bytes(sourcePort));
    Memcpy(udp, UDP_DEST, Be16Bytes(destinationPort));
    Memcpy(udp, UDP_LEN, Be16Bytes(length));
  }

  /** The calls of `addChecksum` in `sendRawUdp`, part by part, compute one sum. */
  method UdpChecksum(source: address, destination: address, length: word16, udp: seq<byte>, message: seq<byte>)
    returns (sum: word16)
    requires |udp| == UDP_SIZE && |message| <= D.CAPACITY
    ensures sum == Fold(WordSum(PseudoHeader(source, destination, length) + udp + message))
  {
    sum := AddPart([], source, 0);
    assert [] + source == source;
    sum := AddPart(source, destination, sum);
    sum := AddPart(source + destination, [0, IPPROTO_UDP], sum);
    sum := AddPart(source + destination + [0, IPPROTO_UDP], Be16Bytes(length), sum);
    sum := AddPart(PseudoHeader(source, destination, length), udp, sum);
    sum := AddPart(PseudoHeader(source, destination, length) + udp, message, sum);
  }

  method AddPart(ghost before: seq<byte>, part: seq<byte>, sum: word16) returns (r: word16)
    requires |before| % 2 == 0 && |part| <= D.CAPACITY && sum == Fold(WordSum(before))
    ensures r == Fold(WordSum(before + part))
  {
    r := AddChecksum(part, sum);
    ExtendSum(before, part);
  }

  datatype Received = Received(isValid: bool, message: D.Msg)

  /** `receiveRawUdp` of a packet into a message object: the two headers go elsewhere, the payload goes
      over the start of the buffer, and what does not fit is cut off. */
  function ReceiveRawUdp(packet: seq<byte>, expectedPort: word16, message: D.Msg): Received
  {
    if |packet| < IP_SIZE + UDP_SIZE then Received(false, message)
    else
      var ip, udp := packet[..IP_SIZE], packet[IP_SIZE..IP_SIZE + UDP_SIZE];
      var size := Min(|packet| - IP_SIZE - UDP_SIZE, D.CAPACITY);
      var payload := packet[IP_SIZE + UDP_SIZE..IP_SIZE + UDP_SIZE + size];
      var isValid := && ip[0] == VERSION_AND_IHL
                     && ip[IP_PROTOCOL] == IPPROTO_UDP
                     && udp[UDP_DEST..UDP_LEN] == Be16Bytes(expectedPort);
      Received(isValid, D.Raw(Splice(message.mem, 0, payload), size))
  }

  /** Which packets are accepted, and no others: those that hold both headers, of version 4 with a header of
      five words, with protocol UDP, for the expected port.  An accepted message is the payload, cut off
      at the capacity of a message. */
  lemma ReceivedIsValidExactly(packet: seq<byte>, expectedPort: word16, target: D.Msg)
    ensures var r := ReceiveRawUdp(packet, expectedPort, target);
            && (r.isValid
                <==> && |packet| >= 28 && packet[0] == 0x45 && packet[9] == 17
                     && packet[22..24] == Be16Bytes(expectedPort))
            && (r.isValid ==> D.Used(r.message) == packet[28..Min(|packet|, 28 + 1260)])
            && (|packet| < 28 ==> r.message == target)
  {
    if |packet| >= 28 {
      SliceOfSlice(packet, 20, 28, 2, 4);
      var size := Min(|packet| - 28, 1260);
      SpliceAppends(target.mem, 0, packet[28..28 + size]);
    }
  }

  /** A message that is sent to a port is received there as it was sent, whatever the receiving object
      held before. */
  lemma WireRoundTrip(ip: seq<byte>, udp: seq<byte>, sent: D.Msg, port: word16, target: D.Msg)
    requires |ip| == IP_SIZE && |udp| == UDP_SIZE
    requires ip[0] == VERSION_AND_IHL && ip[IP_PROTOCOL] == IPPROTO_UDP
    requires udp[UDP_DEST..UDP_LEN] == Be16Bytes(port)
    ensures var r := ReceiveRawUdp(ip + udp + D.Used(sent), port, target);
            r.isValid && D.Used(r.message) == D.Used(sent)
  {
    var packet := ip + udp + D.Used(sent);
    assert packet[..IP_SIZE] == ip && packet[IP_SIZE..IP_SIZE + UDP_SIZE] == udp;
    assert packet[IP_SIZE + UDP_SIZE..] == D.Used(sent);
    assert packet[IP_SIZE + UDP_SIZE..IP_SIZE + UDP_SIZE + sent.size] == D.Used(sent);
    SpliceAppends(target.mem, 0, D.Used(sent));
  }
}

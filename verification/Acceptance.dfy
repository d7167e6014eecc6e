/** The parser accepts exactly the byte strings that are valid frames. */
module Acceptance {
  import opened NetTypes
  import opened Packets
  import opened Parser
  import opened Serializer

  // ----- A frame for accepted bytes -----

  function ArpOf(b: seq<byte>): ArpPacket
    requires |b| >= 28
  {
    ArpPacket(U16(b, 6), MacAt(b, 8), AddressAt(b, 14), MacAt(b, 18), AddressAt(b, 24))
  }

  predicate Odd(n: nat) {
    n % 2 == 1
  }

  function ControlOf(b: byte): Control {
    Control(Odd(b / 2 / 2 / 2 / 2 / 2 / 2 / 2), Odd(b / 2 / 2 / 2 / 2 / 2 / 2), Odd(b / 2 / 2 / 2 / 2 / 2),
            Odd(b / 2 / 2 / 2 / 2), Odd(b / 2 / 2 / 2), Odd(b / 2 / 2), Odd(b / 2), Odd(b))
  }

  lemma BitOfOdd(n: nat)
    ensures Bit(Odd(n)) == n % 2
  {
  }

  lemma WeighedHalves(h7: nat, h6: nat, h5: nat, h4: nat, h3: nat, h2: nat, h1: nat, b: nat)
    requires b < 256
    requires h1 == b / 2 && h2 == h1 / 2 && h3 == h2 / 2 && h4 == h3 / 2 && h5 == h4 / 2 && h6 == h5 / 2 && h7 == h6 / 2
    ensures Weighed(h7 % 2, h6 % 2, h5 % 2, h4 % 2, h3 % 2, h2 % 2, h1 % 2, b % 2) == b
  {
    assert h7 / 2 == 0;
  }

  lemma ControlWritesBack(b: byte)
    ensures ControlByte(ControlOf(b)) == b
  {
    var h1 := b / 2;
    var h2 := h1 / 2;
    var h3 := h2 / 2;
    var h4 := h3 / 2;
    var h5 := h4 / 2;
    var h6 := h5 / 2;
    var h7 := h6 / 2;
    WeighedHalves(h7, h6, h5, h4, h3, h2, h1, b);
    hide Weighed, Odd, Bit;
    BitOfOdd(h7);
    BitOfOdd(h6);
    BitOfOdd(h5);
    BitOfOdd(h4);
    BitOfOdd(h3);
    BitOfOdd(h2);
    BitOfOdd(h1);
    BitOfOdd(b);
  }

  function TcpOf(b: seq<byte>): TcpSegment
    requires |b| >= 20 && 20 <= TcpLength(b) <= |b|
  {
    TcpSegment(U16(b, 0), U16(b, 2), U32(b, 4), U32(b, 8), b[12] % 16, ControlOf(b[13]),
               U16(b, 14), U16(b, 16), U16(b, 18), b[20..TcpLength(b)], b[TcpLength(b)..])
  }

  function UdpOf(b: seq<byte>): UdpDatagram
    requires |b| >= 8
  {
    UdpDatagram(U16(b, 0), U16(b, 2), U16(b, 4), U16(b, 6), b[8..])
  }

  function IcmpOf(b: seq<byte>): IcmpMessage
    requires |b| >= 8
  {
    IcmpMessage(b[0], b[1], U16(b, 2), U32(b, 4), b[8..])
  }

  predicate ReservedBit(field: u16) {
    field / 0x8000 == 1
  }

  predicate DontFragment(field: u16) {
    field / 0x4000 % 2 == 1
  }

  function HeaderOf(b: seq<byte>): Ipv4Header
    requires |b| >= 20 && 20 <= HeaderLength(b) <= |b|
  {
    var field := U16(b, 6);
    Ipv4Header(b[1], U16(b, 2), U16(b, 4), ReservedBit(field), DontFragment(field), MoreFragments(field),
               FragmentOffset(field), b[8], U16(b, 10), AddressAt(b, 12), AddressAt(b, 16), b[20..HeaderLength(b)])
  }

  /** What the transport checks accept. */
  predicate TransportOk(b: seq<byte>, protocol: byte) {
    && (protocol == PROTO_ICMP ==> |b| >= 8)
    && (protocol == PROTO_TCP ==> |b| >= 20 && 20 <= TcpLength(b) <= |b|)
    && (protocol == PROTO_UDP ==> |b| >= 8 && U16(b, 4) >= 8)
  }

  function TransportOf(b: seq<byte>, protocol: byte): Transport
    requires TransportOk(b, protocol)
  {
    if protocol == PROTO_TCP then Tcp(TcpOf(b))
    else if protocol == PROTO_UDP then Udp(UdpOf(b))
    else if protocol == PROTO_ICMP then Icmp(IcmpOf(b))
    else OpaqueIp(protocol, b)
  }

  /** What the IPv4 checks accept. */
  predicate HeaderOk(b: seq<byte>) {
    |b| >= 20 && b[0] / 16 == 4 && 20 <= HeaderLength(b) <= |b| && HeaderLength(b) <= U16(b, 2)
  }

  predicate IpOk(b: seq<byte>) {
    HeaderOk(b) && (AtStart(U16(b, 6)) ==> TransportOk(b[HeaderLength(b)..], b[9]))
  }

  function IpOf(b: seq<byte>): Network
    requires IpOk(b)
  {
    var rest := b[HeaderLength(b)..];
    Ip(HeaderOf(b), if AtStart(U16(b, 6)) then TransportOf(rest, b[9]) else OpaqueIp(b[9], rest))
  }

  // ----- Writing it gives the bytes back -----

  lemma HalvesInvert(hi: byte, lo: byte)
    ensures 0 <= Join16(hi, lo) < 0x1_0000 && Hi(Join16(hi, lo)) == hi && Lo(Join16(hi, lo)) == lo
  {
  }

  lemma QuartersInvert(a: byte, b: byte, c: byte, d: byte)
    ensures 0 <= Join32(a, b, c, d) < U32_LIMIT
    ensures Upper(Join32(a, b, c, d)) == Join16(a, b) && Lower(Join32(a, b, c, d)) == Join16(c, d)
  {
  }

  lemma TcpWritesBack(b: seq<byte>)
    requires TransportOk(b, PROTO_TCP)
    ensures ValidTransport(Tcp(TcpOf(b))) && TransportBytes(Tcp(TcpOf(b))) == b
  {
    hide Join16, Join32, Hi, Lo, Upper, Lower, ControlByte, ControlOf;
    var t := TcpOf(b);
    ControlWritesBack(b[13]);
    HalvesInvert(b[0], b[1]);
    HalvesInvert(b[2], b[3]);
    QuartersInvert(b[4], b[5], b[6], b[7]);
    HalvesInvert(b[4], b[5]);
    HalvesInvert(b[6], b[7]);
    QuartersInvert(b[8], b[9], b[10], b[11]);
    HalvesInvert(b[8], b[9]);
    HalvesInvert(b[10], b[11]);
    HalvesInvert(b[14], b[15]);
    HalvesInvert(b[16], b[17]);
    HalvesInvert(b[18], b[19]);
    assert TcpBytes(t) == b[..20];
    assert b == b[..20] + (t.options + t.payload);
  }

  lemma UdpWritesBack(b: seq<byte>)
    requires TransportOk(b, PROTO_UDP)
    ensures ValidTransport(Udp(UdpOf(b))) && TransportBytes(Udp(UdpOf(b))) == b
  {
    hide Join16, Hi, Lo;
    HalvesInvert(b[0], b[1]);
    HalvesInvert(b[2], b[3]);
    HalvesInvert(b[4], b[5]);
    HalvesInvert(b[6], b[7]);
    assert UdpBytes(UdpOf(b)) == b[..8];
  }

  lemma IcmpWritesBack(b: seq<byte>)
    requires TransportOk(b, PROTO_ICMP)
    ensures TransportBytes(Icmp(IcmpOf(b))) == b
  {
    hide Join16, Join32, Hi, Lo, Upper, Lower;
    HalvesInvert(b[2], b[3]);
    QuartersInvert(b[4], b[5], b[6], b[7]);
    HalvesInvert(b[4], b[5]);
    HalvesInvert(b[6], b[7]);
    assert IcmpBytes(IcmpOf(b)) == b[..8];
  }

  lemma TransportWritesBack(b: seq<byte>, protocol: byte)
    requires TransportOk(b, protocol)
    ensures ValidTransport(TransportOf(b, protocol)) && TransportBytes(TransportOf(b, protocol)) == b
    ensures ProtocolOf(TransportOf(b, protocol)) == protocol
  {
    hide TransportBytes, Join16;
    if protocol == PROTO_TCP {
      TcpWritesBack(b);
    } else if protocol == PROTO_UDP {
      UdpWritesBack(b);
    } else if protocol == PROTO_ICMP {
      IcmpWritesBack(b);
    } else {
      OpaqueWritesBack(b, protocol);
    }
  }

  lemma OpaqueWritesBack(b: seq<byte>, protocol: byte)
    ensures ValidTransport(OpaqueIp(protocol, b)) && TransportBytes(OpaqueIp(protocol, b)) == b
  {
  }

  lemma FieldWritesBack(b: seq<byte>)
    requires HeaderOk(b)
    ensures FragmentField(HeaderOf(b)) == U16(b, 6)
  {
    hide Join16;
  }

  lemma OptionsWriteBack(b: seq<byte>)
    requires HeaderOk(b)
    ensures var h := HeaderOf(b);
            && Options(h.options) && h.offset < 0x2000 && 20 + |h.options| <= h.totalLength
            && h.options == b[20..HeaderLength(b)] && 0x45 + |h.options| / 4 == b[0]
            && (h.offset == 0 <==> AtStart(U16(b, 6)))
  {
    hide Join16, MoreFragments, ReservedBit, DontFragment;
  }

  lemma HeaderBytes(h: Ipv4Header, b: seq<byte>)
    requires Options(h.options) && h.offset < 0x2000 && |b| >= 20
    requires 0x45 + |h.options| / 4 == b[0] && h.tos == b[1] && h.ttl == b[8]
    requires Hi(h.totalLength) == b[2] && Lo(h.totalLength) == b[3] && Hi(h.id) == b[4] && Lo(h.id) == b[5]
    requires Hi(FragmentField(h)) == b[6] && Lo(FragmentField(h)) == b[7]
    requires Hi(h.checksum) == b[10] && Lo(h.checksum) == b[11]
    requires h.src == AddressAt(b, 12) && h.dst == AddressAt(b, 16)
    ensures Ipv4Bytes(h, b[9]) == b[..20]
  {
    hide Hi, Lo, FragmentField, Options;
    assert |Ipv4Bytes(h, b[9])| == 20;
  }

  lemma HeaderWritesBack(b: seq<byte>)
    requires HeaderOk(b)
    ensures Options(HeaderOf(b).options) && HeaderOf(b).offset < 0x2000
    ensures Ipv4Bytes(HeaderOf(b), b[9]) == b[..20]
  {
    FieldWritesBack(b);
    OptionsWriteBack(b);
    hide Join16, Hi, Lo, FragmentField, MoreFragments, ReservedBit, DontFragment, FragmentOffset, HeaderLength,
      Options, Ipv4Bytes;
    HalvesInvert(b[2], b[3]);
    HalvesInvert(b[4], b[5]);
    HalvesInvert(b[6], b[7]);
    HalvesInvert(b[10], b[11]);
    HeaderBytes(HeaderOf(b), b);
  }

  lemma IpWritesBack(b: seq<byte>)
    requires IpOk(b)
    ensures ValidIp(IpOf(b).header, IpOf(b).transport) && NetworkBytes(IpOf(b)) == b
  {
    hide HeaderOf, TransportOf, TransportBytes, Ipv4Bytes, TransportOk, Join16, ValidTransport, AtStart;
    var rest := b[HeaderLength(b)..];
    HeaderWritesBack(b);
    OptionsWriteBack(b);
    if AtStart(U16(b, 6)) {
      TransportWritesBack(rest, b[9]);
      TransportKinds(rest, b[9]);
    } else {
      OpaqueWritesBack(rest, b[9]);
    }
    assert b == b[..20] + (b[20..HeaderLength(b)] + rest);
  }

  lemma TransportKinds(b: seq<byte>, protocol: byte)
    requires TransportOk(b, protocol)
    ensures TransportOf(b, protocol).OpaqueIp? ==> protocol != 1 && protocol != 6 && protocol != 17
  {
  }

  lemma ArpWritesBack(b: seq<byte>)
    requires |b| >= 28 && ArpForIpv4(b)
    ensures ArpBytes(ArpOf(b)) + b[28..] == b
  {
    hide Hi, Lo;
    HalvesInvert(b[6], b[7]);
    assert b[0] == 0 && b[1] == 1 && b[2] == 8 && b[3] == 0;
    hide Join16;
    assert |ArpBytes(ArpOf(b))| == 28;
    assert ArpBytes(ArpOf(b)) == b[..28];
  }

  // ----- Accepted means written -----

  predicate Accepted(p: PacketInfo) {
    !p.malformed && !p.truncated
  }

  lemma ErrorsReject(info: PacketInfo)
    ensures !Accepted(Truncated(info)) && !Accepted(Malformed(info))
  {
  }

  lemma TransportAccepts(b: seq<byte>, info: PacketInfo)
    requires Accepted(WithTransport(b, info))
    ensures TransportOk(b, info.ipProtocol)
  {
    hide IcmpFields, TcpFields, UdpFields, Truncated, Malformed, Accepted, Join16;
    ErrorsReject(info);
  }

  lemma FieldsKept(b: seq<byte>, info: PacketInfo)
    requires |b| >= IPV4_HEADER
    ensures var filled := Ipv4Fields(b, info);
            && filled.ipProtocol == b[9] && filled.ipv4L4HeaderAvailable == AtStart(U16(b, 6))
  {
    hide Join16, Fragmented, AtStart;
  }

  lemma IpAccepts(b: seq<byte>, info: PacketInfo)
    requires Accepted(WithIpv4(b, info))
    ensures IpOk(b)
  {
    hide WithTransport, Ipv4Fields, Ipv4Lengths, Truncated, Malformed, Accepted, Join16, AtStart, TransportOk;
    ErrorsReject(info);
    if HeaderOk(b) {
      var lengths := Ipv4Lengths(b, info);
      FieldsKept(b, lengths);
      if AtStart(U16(b, 6)) {
        TransportAccepts(b[HeaderLength(b)..], Ipv4Fields(b, lengths));
      }
    } else if |b| >= IPV4_HEADER {
      ErrorsReject(Ipv4Lengths(b, info));
    }
  }

  lemma ArpAccepts(b: seq<byte>, info: PacketInfo)
    requires Accepted(WithArp(b, info))
    ensures |b| >= 28 && ArpForIpv4(b)
  {
    hide ArpFields, Truncated, Malformed, Accepted, ArpForIpv4;
    ErrorsReject(info);
  }

  /** The network layer of accepted bytes under an EtherType. */
  lemma NetworkAccepts(b: seq<byte>, info: PacketInfo) returns (n: Network)
    requires Accepted(WithNetwork(b, info))
    ensures Valid(Frame(NO_MAC, NO_MAC, n)) && EtherTypeOf(n) == info.etherType && NetworkBytes(n) == b
  {
    hide WithArp, WithIpv4, IpOk, IpOf, ArpForIpv4, ValidIp, NetworkBytes;
    if info.etherType == ETHERTYPE_ARP {
      ArpAccepts(b, info);
      ArpWritesBack(b);
      n := Arp(ArpOf(b), b[28..]);
      ArpLength(ArpOf(b), b[28..]);
    } else if info.etherType == ETHERTYPE_IP {
      IpAccepts(b, info);
      IpWritesBack(b);
      IpIsIp(b);
      n := IpOf(b);
    } else {
      n := OpaqueNetwork(info.etherType, b);
      assert NetworkBytes(n) == b by { OpaqueNetworkBytes(info.etherType, b); }
    }
  }

  lemma IpIsIp(b: seq<byte>)
    requires IpOk(b)
    ensures IpOf(b).Ip?
  {
  }

  lemma OpaqueNetworkBytes(etherType: u16, b: seq<byte>)
    ensures NetworkBytes(OpaqueNetwork(etherType, b)) == b
  {
  }

  lemma EthernetWritesBack(c: seq<byte>, n: Network)
    requires |c| >= 14 && EtherTypeOf(n) == U16(c, 12)
    ensures EthernetBytes(Frame(MacAt(c, 0), MacAt(c, 6), n)) == c[..14]
  {
    hide Join16, Hi, Lo, EtherTypeOf;
    HalvesInvert(c[12], c[13]);
  }

  predicate Writes(f: Frame, c: seq<byte>) {
    Valid(f) && Bytes(f) == c
  }

  lemma AcceptedIsWritten(c: seq<byte>, wire: nat) returns (f: Frame)
    requires Accepted(Parsed(c, wire))
    ensures Writes(f, c)
  {
    hide WithNetwork, EthernetFields, Truncated, Accepted, NetworkBytes, EthernetBytes, ValidIp, Reset;
    ErrorsReject(Reset(|c|, wire));
    var info := EthernetFields(c, Reset(|c|, wire));
    var n := NetworkAccepts(c[14..], info);
    EtherTypeRead(c, Reset(|c|, wire));
    f := Frame(MacAt(c, 0), MacAt(c, 6), n);
    EthernetWritesBack(c, n);
    assert c == c[..14] + c[14..];
  }

  lemma EtherTypeRead(c: seq<byte>, info: PacketInfo)
    requires |c| >= 14
    ensures EthernetFields(c, info).etherType == U16(c, 12)
  {
    hide Join16;
  }

  lemma WrittenIsAccepted(f: Frame, wire: nat)
    requires Valid(f)
    ensures Accepted(Seen(f, wire))
  {
    hide InPieces, ServiceOf, Bytes, EtherTypeOf;
  }

  /** The parser accepts exactly the captures that are valid frames, and its answer for such a
      capture is what the frame says. */
  lemma AcceptsExactlyFrames(c: seq<byte>, wire: nat)
    ensures Accepted(Parsed(c, wire)) <==> exists f: Frame :: Writes(f, c)
    ensures forall f: Frame :: Writes(f, c) ==> Parsed(c, wire) == Seen(f, wire)
  {
    hide Parsed, Accepted, Seen, Valid, Bytes;
    if Accepted(Parsed(c, wire)) {
      var f := AcceptedIsWritten(c, wire);
    }
    forall f: Frame | Writes(f, c)
      ensures Accepted(Parsed(c, wire)) && Parsed(c, wire) == Seen(f, wire)
    {
      ParsingInvertsWriting(f, wire);
      WrittenIsAccepted(f, wire);
    }
  }
}

/** Frames as the standards lay them out, and the parser as the inverse of writing them down.

    Ethernet II framing; ARP as in RFC 826; IPv4 as in section 3.1 of RFC 791; TCP as in section 3.1
    of RFC 9293; UDP as in RFC 768; ICMP as in RFC 792. */
module Serializer {
  import opened NetTypes
  import opened Packets
  import opened Parser

  datatype ArpPacket = ArpPacket(opcode: u16, senderMac: Mac, senderIpv4: Ipv4, targetMac: Mac, targetIpv4: Ipv4)

  /** Options are whole 32-bit words; they decide IHL and the TCP data offset. */
  datatype Ipv4Header = Ipv4Header(tos: byte, totalLength: u16, id: u16,
                                   reserved: bool, dontFragment: bool, moreFragments: bool, offset: nat,
                                   ttl: byte, checksum: u16, src: Ipv4, dst: Ipv4, options: seq<byte>)

  /** The eight control bits of a TCP header. */
  datatype Control = Control(cwr: bool, ece: bool, urg: bool, ack: bool, psh: bool, rst: bool, syn: bool, fin: bool)

  datatype TcpSegment = TcpSegment(srcPort: u16, dstPort: u16, sequence: u32, acknowledgment: u32,
                                   reserved: nat, control: Control, window: u16, checksum: u16, urgent: u16,
                                   options: seq<byte>, payload: seq<byte>)

  datatype UdpDatagram = UdpDatagram(srcPort: u16, dstPort: u16, length: u16, checksum: u16, payload: seq<byte>)

  datatype IcmpMessage = IcmpMessage(kind: byte, code: byte, checksum: u16, rest: u32, payload: seq<byte>)

  /** Opaque bytes are a later fragment or a protocol that is not decoded. */
  datatype Transport = Tcp(tcp: TcpSegment) | Udp(udp: UdpDatagram) | Icmp(icmp: IcmpMessage)
                     | OpaqueIp(protocol: byte, bytes: seq<byte>)

  datatype Network = Arp(arp: ArpPacket, padding: seq<byte>) | Ip(header: Ipv4Header, transport: Transport)
                   | OpaqueNetwork(etherType: u16, bytes: seq<byte>)

  datatype Frame = Frame(dst: Mac, src: Mac, network: Network)

  // ----- Which frames are valid -----

  predicate Options(options: seq<byte>) {
    |options| % 4 == 0 && |options| <= 40
  }

  predicate ValidTransport(t: Transport) {
    match t
    case Tcp(tcp) => Options(tcp.options) && tcp.reserved < 16
    case Udp(udp) => udp.length >= 8
    case Icmp(_) => true
    case OpaqueIp(_, _) => true
  }

  predicate ValidIp(h: Ipv4Header, t: Transport) {
    && Options(h.options) && h.offset < 0x2000 && 20 + |h.options| <= h.totalLength
    && ValidTransport(t)
    && (h.offset != 0 ==> t.OpaqueIp?)
    && (h.offset == 0 && t.OpaqueIp? ==> t.protocol != 1 && t.protocol != 6 && t.protocol != 17)
  }

  predicate Valid(f: Frame) {
    match f.network
    case Arp(_, _) => true
    case Ip(h, t) => ValidIp(h, t)
    case OpaqueNetwork(etherType, _) => etherType != 0x0806 && etherType != 0x0800
  }

  // ----- Writing them down -----

  function Hi(v: u16): byte {
    v / 256
  }

  function Lo(v: u16): byte {
    v % 256
  }

  /** The upper and lower half of a 32-bit value. */
  function Upper(v: u32): u16 {
    v / 0x1_0000
  }

  function Lower(v: u32): u16 {
    v % 0x1_0000
  }

  function ArpBytes(a: ArpPacket): seq<byte> {
    [0, 1, 8, 0, 6, 4, Hi(a.opcode), Lo(a.opcode),
     a.senderMac.a, a.senderMac.b, a.senderMac.c, a.senderMac.d, a.senderMac.e, a.senderMac.f,
     a.senderIpv4.a, a.senderIpv4.b, a.senderIpv4.c, a.senderIpv4.d,
     a.targetMac.a, a.targetMac.b, a.targetMac.c, a.targetMac.d, a.targetMac.e, a.targetMac.f,
     a.targetIpv4.a, a.targetIpv4.b, a.targetIpv4.c, a.targetIpv4.d]
  }

  function Bit(b: bool): nat {
    if b then 1 else 0
  }

  /** Three flag bits and thirteen bits of offset. */
  function FragmentField(h: Ipv4Header): u16
    requires h.offset < 0x2000
  {
    0x8000 * Bit(h.reserved) + 0x4000 * Bit(h.dontFragment) + 0x2000 * Bit(h.moreFragments) + h.offset
  }

  function Ipv4Bytes(h: Ipv4Header, protocol: byte): seq<byte>
    requires Options(h.options) && h.offset < 0x2000
  {
    [0x45 + |h.options| / 4, h.tos, Hi(h.totalLength), Lo(h.totalLength), Hi(h.id), Lo(h.id),
     Hi(FragmentField(h)), Lo(FragmentField(h)), h.ttl, protocol, Hi(h.checksum), Lo(h.checksum),
     h.src.a, h.src.b, h.src.c, h.src.d, h.dst.a, h.dst.b, h.dst.c, h.dst.d]
  }

  function Weighed(b7: nat, b6: nat, b5: nat, b4: nat, b3: nat, b2: nat, b1: nat, b0: nat): (r: nat)
    ensures b7 <= 1 && b6 <= 1 && b5 <= 1 && b4 <= 1 && b3 <= 1 && b2 <= 1 && b1 <= 1 && b0 <= 1 ==> r < 256
  {
    128 * b7 + 64 * b6 + 32 * b5 + 16 * b4 + 8 * b3 + 4 * b2 + 2 * b1 + b0
  }

  /** CWR is the highest bit, FIN the lowest. */
  function ControlByte(c: Control): byte {
    Weighed(Bit(c.cwr), Bit(c.ece), Bit(c.urg), Bit(c.ack), Bit(c.psh), Bit(c.rst), Bit(c.syn), Bit(c.fin))
  }

  function TcpBytes(t: TcpSegment): seq<byte>
    requires Options(t.options) && t.reserved < 16
  {
    [Hi(t.srcPort), Lo(t.srcPort), Hi(t.dstPort), Lo(t.dstPort),
     Hi(Upper(t.sequence)), Lo(Upper(t.sequence)), Hi(Lower(t.sequence)), Lo(Lower(t.sequence)),
     Hi(Upper(t.acknowledgment)), Lo(Upper(t.acknowledgment)), Hi(Lower(t.acknowledgment)), Lo(Lower(t.acknowledgment)),
     16 * (5 + |t.options| / 4) + t.reserved, ControlByte(t.control), Hi(t.window), Lo(t.window),
     Hi(t.checksum), Lo(t.checksum), Hi(t.urgent), Lo(t.urgent)]
  }

  function UdpBytes(u: UdpDatagram): seq<byte> {
    [Hi(u.srcPort), Lo(u.srcPort), Hi(u.dstPort), Lo(u.dstPort), Hi(u.length), Lo(u.length),
     Hi(u.checksum), Lo(u.checksum)]
  }

  function IcmpBytes(i: IcmpMessage): seq<byte> {
    [i.kind, i.code, Hi(i.checksum), Lo(i.checksum),
     Hi(Upper(i.rest)), Lo(Upper(i.rest)), Hi(Lower(i.rest)), Lo(Lower(i.rest))]
  }

  function TransportBytes(t: Transport): seq<byte>
    requires ValidTransport(t)
  {
    match t
    case Tcp(tcp) => TcpBytes(tcp) + (tcp.options + tcp.payload)
    case Udp(udp) => UdpBytes(udp) + udp.payload
    case Icmp(icmp) => IcmpBytes(icmp) + icmp.payload
    case OpaqueIp(_, bytes) => bytes
  }

  function ProtocolOf(t: Transport): byte {
    match t
    case Tcp(_) => 6
    case Udp(_) => 17
    case Icmp(_) => 1
    case OpaqueIp(protocol, _) => protocol
  }

  function NetworkBytes(n: Network): seq<byte>
    requires n.Ip? ==> ValidIp(n.header, n.transport)
  {
    match n
    case Arp(arp, padding) => ArpBytes(arp) + padding
    case Ip(h, t) => Ipv4Bytes(h, ProtocolOf(t)) + (h.options + TransportBytes(t))
    case OpaqueNetwork(_, bytes) => bytes
  }

  function EtherTypeOf(n: Network): u16 {
    match n
    case Arp(_, _) => 0x0806
    case Ip(_, _) => 0x0800
    case OpaqueNetwork(etherType, _) => etherType
  }

  function EthernetBytes(f: Frame): seq<byte> {
    [f.dst.a, f.dst.b, f.dst.c, f.dst.d, f.dst.e, f.dst.f, f.src.a, f.src.b, f.src.c, f.src.d, f.src.e, f.src.f,
     Hi(EtherTypeOf(f.network)), Lo(EtherTypeOf(f.network))]
  }

  function Bytes(f: Frame): seq<byte>
    requires Valid(f)
  {
    EthernetBytes(f) + NetworkBytes(f.network)
  }

  // ----- What a reader of the frame should see -----

  predicate Uses(src: u16, dst: u16, port: u16) {
    src == port || dst == port
  }

  /** The services named by well-known ports; the smaller port wins. */
  function TcpService(src: u16, dst: u16): ServiceHint {
    if Uses(src, dst, 22) then HintSsh else if Uses(src, dst, 80) then HintHttp
    else if Uses(src, dst, 443) then HintHttps else HintNone
  }

  function UdpService(src: u16, dst: u16): ServiceHint {
    if Uses(src, dst, 53) then HintDns else if Uses(src, dst, 67) || Uses(src, dst, 68) then HintDhcp else HintNone
  }

  lemma ServicesAgree(src: u16, dst: u16)
    ensures ServiceOf(PROTO_TCP, src, dst) == TcpService(src, dst)
    ensures ServiceOf(PROTO_UDP, src, dst) == UdpService(src, dst)
  {
  }

  function TransportSeen(t: Transport, info: PacketInfo): PacketInfo {
    match t
    case Tcp(tcp) =>
      info.(hasPorts := true, hasTcp := true, srcPort := tcp.srcPort, dstPort := tcp.dstPort,
            tcpSequence := tcp.sequence, tcpAcknowledgment := tcp.acknowledgment,
            tcpHeaderLength := if |tcp.options| <= 40 then 20 + |tcp.options| else 0,
            tcpFlags := ControlByte(tcp.control),
            serviceHint := TcpService(tcp.srcPort, tcp.dstPort))
    case Udp(udp) =>
      info.(hasPorts := true, hasUdp := true, srcPort := udp.srcPort, dstPort := udp.dstPort, udpLength := udp.length,
            serviceHint := UdpService(udp.srcPort, udp.dstPort))
    case Icmp(icmp) => info.(hasIcmp := true, icmpType := icmp.kind, icmpCode := icmp.code)
    case OpaqueIp(_, _) => info
  }

  function HeaderSeen(h: Ipv4Header, protocol: byte, info: PacketInfo): PacketInfo
    requires Options(h.options)
  {
    info.(hasIpv4 := true, ipv4Version := 4, ipv4Ihl := 20 + |h.options|, ipv4TotalLength := h.totalLength,
          ipProtocol := protocol, srcIpv4 := h.src, dstIpv4 := h.dst,
          ipv4Fragmented := InPieces(h), ipv4L4HeaderAvailable := h.offset == 0)
  }

  predicate InPieces(h: Ipv4Header) {
    h.moreFragments || h.offset != 0
  }

  function ArpSeen(a: ArpPacket, info: PacketInfo): PacketInfo {
    info.(hasArp := true, arpOpcode := a.opcode, arpSenderMac := a.senderMac, arpSenderIpv4 := a.senderIpv4,
          arpTargetMac := a.targetMac, arpTargetIpv4 := a.targetIpv4)
  }

  function EthernetSeen(f: Frame, captured: nat, wire: nat): PacketInfo {
    Reset(captured, wire).(hasEthernet := true, dstMac := f.dst, srcMac := f.src, etherType := EtherTypeOf(f.network))
  }

  function Seen(f: Frame, wire: nat): PacketInfo
    requires Valid(f)
  {
    var info := EthernetSeen(f, |Bytes(f)|, wire);
    match f.network
    case Arp(arp, _) => ArpSeen(arp, info)
    case Ip(h, t) => TransportSeen(t, HeaderSeen(h, ProtocolOf(t), info))
    case OpaqueNetwork(etherType, _) => if etherType == 0x86DD then info.(isIpv6Observed := true) else info
  }

  // ----- Reading back what was written -----

  lemma Join16Inverts(v: u16)
    ensures Join16(Hi(v), Lo(v)) == v
  {
  }

  lemma Join32Inverts(v: u32)
    ensures Join32(Hi(Upper(v)), Lo(Upper(v)), Hi(Lower(v)), Lo(Lower(v))) == v
  {
  }

  lemma TcpReadsBack(t: TcpSegment, info: PacketInfo)
    requires ValidTransport(Tcp(t))
    ensures WithTcp(TransportBytes(Tcp(t)), info) == TransportSeen(Tcp(t), info)
  {
    hide Join16, Join32, Hi, Lo, Upper, Lower, ServiceOf, TcpService, ControlByte, Truncated, Malformed;
    ServicesAgree(t.srcPort, t.dstPort);
    Join16Inverts(t.srcPort);
    Join16Inverts(t.dstPort);
    Join32Inverts(t.sequence);
    Join32Inverts(t.acknowledgment);
  }

  lemma UdpReadsBack(u: UdpDatagram, info: PacketInfo)
    requires ValidTransport(Udp(u))
    ensures WithUdp(TransportBytes(Udp(u)), info) == TransportSeen(Udp(u), info)
  {
    hide Join16, Hi, Lo, ServiceOf, UdpService, Truncated, Malformed;
    ServicesAgree(u.srcPort, u.dstPort);
    Join16Inverts(u.srcPort);
    Join16Inverts(u.dstPort);
    Join16Inverts(u.length);
  }

  lemma IcmpReadsBack(i: IcmpMessage, info: PacketInfo)
    ensures WithIcmp(TransportBytes(Icmp(i)), info) == TransportSeen(Icmp(i), info)
  {
    hide Truncated;
  }

  lemma ArpKindReadsBack(a: ArpPacket, padding: seq<byte>)
    ensures |ArpBytes(a) + padding| >= 28 && ArpForIpv4(ArpBytes(a) + padding)
  {
    hide Hi, Lo;
    var b := ArpBytes(a) + padding;
    assert b[0] == 0 && b[1] == 1 && b[2] == 8 && b[3] == 0;
  }

  lemma ArpFieldsReadBack(a: ArpPacket, padding: seq<byte>, info: PacketInfo)
    requires |ArpBytes(a) + padding| >= 28
    ensures ArpFields(ArpBytes(a) + padding, info) == ArpSeen(a, info)
  {
    hide Hi, Lo, Join16;
    Join16Inverts(a.opcode);
  }

  lemma ArpReadsBack(a: ArpPacket, padding: seq<byte>, info: PacketInfo)
    ensures WithArp(ArpBytes(a) + padding, info) == ArpSeen(a, info)
  {
    hide Truncated, Malformed, ArpBytes, ArpForIpv4, ArpFields, ArpSeen;
    ArpKindReadsBack(a, padding);
    ArpFieldsReadBack(a, padding, info);
  }

  lemma FieldReadsBack(h: Ipv4Header)
    requires h.offset < 0x2000
    ensures Fragmented(FragmentField(h)) == InPieces(h)
    ensures AtStart(FragmentField(h)) == (h.offset == 0)
  {
  }

  lemma LengthsReadBack(h: Ipv4Header, protocol: byte, rest: seq<byte>)
    requires Options(h.options) && h.offset < 0x2000
    ensures var b := Ipv4Bytes(h, protocol) + (h.options + rest);
            && b[0] / 16 == 4 && HeaderLength(b) == 20 + |h.options| && U16(b, 2) == h.totalLength
            && b[HeaderLength(b)..] == rest
  {
    hide Join16, Hi, Lo, FragmentField;
    Join16Inverts(h.totalLength);
    var b := Ipv4Bytes(h, protocol) + (h.options + rest);
    assert b[20 + |h.options|..] == rest;
  }

  lemma AddressesReadBack(h: Ipv4Header, protocol: byte, rest: seq<byte>)
    requires Options(h.options) && h.offset < 0x2000
    ensures var b := Ipv4Bytes(h, protocol) + (h.options + rest);
            && b[9] == protocol && AddressAt(b, 12) == h.src && AddressAt(b, 16) == h.dst
            && U16(b, 6) == FragmentField(h)
  {
    hide Join16, Hi, Lo, FragmentField;
    Join16Inverts(FragmentField(h));
  }

  lemma HeaderReadsBack(h: Ipv4Header, protocol: byte, rest: seq<byte>, info: PacketInfo)
    requires Options(h.options) && h.offset < 0x2000
    ensures var b := Ipv4Bytes(h, protocol) + (h.options + rest);
            && b[0] / 16 == 4 && HeaderLength(b) == 20 + |h.options| && U16(b, 2) == h.totalLength
            && b[HeaderLength(b)..] == rest
            && Ipv4Fields(b, Ipv4Lengths(b, info)) == HeaderSeen(h, protocol, info)
  {
    LengthsReadBack(h, protocol, rest);
    AddressesReadBack(h, protocol, rest);
    FieldReadsBack(h);
    HeaderSizes(h, protocol);
    hide Ipv4Bytes, HeaderLength, U16, AddressAt, Fragmented, AtStart, FragmentField, InPieces, Options;
  }

  lemma HeaderSizes(h: Ipv4Header, protocol: byte)
    requires Options(h.options) && h.offset < 0x2000
    ensures |Ipv4Bytes(h, protocol)| == 20
  {
    hide Hi, Lo, FragmentField;
  }

  lemma TransportReadsBack(t: Transport, info: PacketInfo)
    requires ValidTransport(t) && info.ipProtocol == ProtocolOf(t)
    requires t.OpaqueIp? ==> t.protocol != 1 && t.protocol != 6 && t.protocol != 17
    ensures WithTransport(TransportBytes(t), info) == TransportSeen(t, info)
  {
    hide WithTcp, WithUdp, WithIcmp, TransportBytes;
    match t
    case Tcp(tcp) => TcpReadsBack(tcp, info);
    case Udp(udp) => UdpReadsBack(udp, info);
    case Icmp(icmp) => IcmpReadsBack(icmp, info);
    case OpaqueIp(_, _) =>
  }

  lemma HeaderSeenFacts(h: Ipv4Header, protocol: byte, info: PacketInfo)
    requires Options(h.options)
    ensures HeaderSeen(h, protocol, info).ipProtocol == protocol
    ensures HeaderSeen(h, protocol, info).ipv4L4HeaderAvailable == (h.offset == 0)
  {
    hide InPieces;
  }

  lemma IpReadsBack(h: Ipv4Header, t: Transport, info: PacketInfo)
    requires ValidIp(h, t)
    ensures WithIpv4(NetworkBytes(Ip(h, t)), info) == TransportSeen(t, HeaderSeen(h, ProtocolOf(t), info))
  {
    hide Ipv4Fields, Ipv4Lengths, HeaderSeen, WithTransport, TransportBytes, Truncated, Malformed, Join16,
      FragmentField;
    HeaderReadsBack(h, ProtocolOf(t), TransportBytes(t), info);
    HeaderSeenFacts(h, ProtocolOf(t), info);
    if h.offset == 0 {
      TransportReadsBack(t, HeaderSeen(h, ProtocolOf(t), info));
    }
  }

  lemma EthernetReadsBack(f: Frame, rest: seq<byte>, wire: nat)
    ensures var c := EthernetBytes(f) + rest;
            && EthernetFields(c, Reset(|c|, wire)) == EthernetSeen(f, |c|, wire)
            && c[ETHERNET_HEADER..] == rest
    ensures EthernetSeen(f, 14 + |rest|, wire).etherType == EtherTypeOf(f.network)
  {
    hide Hi, Lo, Join16, EtherTypeOf;
    Join16Inverts(EtherTypeOf(f.network));
  }

  /** Parsing undoes serialization: of every valid frame the parser reports exactly the fields that
      were written, for every header length with options and every fragment. */
  lemma ParsingInvertsWriting(f: Frame, wire: nat)
    requires Valid(f)
    ensures Parsed(Bytes(f), wire) == Seen(f, wire)
  {
    hide EthernetBytes, NetworkBytes, EthernetSeen, EthernetFields, Reset, WithIpv4, WithArp, ValidIp, TransportSeen,
      HeaderSeen, ArpSeen, Truncated;
    var rest := NetworkBytes(f.network);
    EthernetReadsBack(f, rest, wire);
    EthernetLength(f);
    var info := EthernetSeen(f, |Bytes(f)|, wire);
    match f.network
    case Arp(arp, padding) =>
      ArpLength(arp, padding);
      ArpReadsBack(arp, padding, info);
    case Ip(h, t) => IpReadsBack(h, t, info);
    case OpaqueNetwork(_, _) =>
  }

  lemma EthernetLength(f: Frame)
    ensures |EthernetBytes(f)| == ETHERNET_HEADER
  {
  }

  lemma ArpLength(a: ArpPacket, padding: seq<byte>)
    ensures NetworkBytes(Arp(a, padding)) == ArpBytes(a) + padding
  {
  }
}

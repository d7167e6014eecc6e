/** The packet parser: layered length checks over one capture.

    The functions say what each layer makes of its bytes; the class fills the result field by field.
    In both, every index is proved to lie inside the buffer that was passed. */
module Parser {
  import opened NetTypes
  import opened Packets

  const ETHERNET_HEADER: nat := 14
  const ARP_HEADER: nat := 8
  const ARP_PAYLOAD: nat := 20
  const IPV4_HEADER: nat := 20
  const TCP_HEADER: nat := 20
  const UDP_HEADER: nat := 8
  const ICMP_HEADER: nat := 8

  const ETHERTYPE_IP: u16 := 0x0800
  const ETHERTYPE_ARP: u16 := 0x0806
  const ETHERTYPE_IPV6: u16 := 0x86DD
  const ARP_ETHERNET: u16 := 1
  const PROTO_ICMP: byte := 1
  const PROTO_TCP: byte := 6
  const PROTO_UDP: byte := 17

  /** No header chain is longer: Ethernet, the longest IPv4 header, the longest TCP header. */
  const LONGEST_HEADERS: nat := 134

  /** Big-endian values from their bytes. */
  function Join16(hi: int, lo: int): (v: int)
    ensures 0 <= hi < 256 && 0 <= lo < 256 ==> 0 <= v < 0x1_0000
  {
    256 * hi + lo
  }

  function Join32(a: int, b: int, c: int, d: int): (v: int)
    ensures 0 <= a < 256 && 0 <= b < 256 && 0 <= c < 256 && 0 <= d < 256 ==> 0 <= v < 0x1_0000_0000
  {
    Join16(Join16(Join16(a, b), c), d)
  }

  function U16(b: seq<byte>, i: nat): u16
    requires i + 2 <= |b|
  {
    Join16(b[i], b[i + 1])
  }

  function U32(b: seq<byte>, i: nat): u32
    requires i + 4 <= |b|
  {
    Join32(b[i], b[i + 1], b[i + 2], b[i + 3])
  }

  function AddressAt(b: seq<byte>, i: nat): Ipv4
    requires i + 4 <= |b|
  {
    Ipv4(b[i], b[i + 1], b[i + 2], b[i + 3])
  }

  function MacAt(b: seq<byte>, i: nat): Mac
    requires i + 6 <= |b|
  {
    Mac(b[i], b[i + 1], b[i + 2], b[i + 3], b[i + 4], b[i + 5])
  }

  function ServiceOf(protocol: byte, src: u16, dst: u16): ServiceHint {
    if protocol == PROTO_TCP && (dst == 22 || src == 22) then HintSsh
    else if protocol == PROTO_TCP && (dst == 80 || src == 80) then HintHttp
    else if protocol == PROTO_TCP && (dst == 443 || src == 443) then HintHttps
    else if protocol == PROTO_UDP && (dst == 53 || src == 53) then HintDns
    else if protocol == PROTO_UDP && (src == 67 || dst == 67 || src == 68 || dst == 68) then HintDhcp
    else HintNone
  }

  // ----- What each layer makes of its bytes -----

  function Truncated(info: PacketInfo): PacketInfo {
    info.(truncated := true)
  }

  function Malformed(info: PacketInfo): PacketInfo {
    info.(malformed := true)
  }

  /** Hardware and protocol types and address lengths of ARP for IPv4 over Ethernet. */
  predicate ArpForIpv4(b: seq<byte>)
    requires |b| >= ARP_HEADER
  {
    U16(b, 0) == ARP_ETHERNET && U16(b, 2) == ETHERTYPE_IP && b[4] == 6 && b[5] == 4
  }

  function ArpFields(b: seq<byte>, info: PacketInfo): PacketInfo
    requires |b| >= ARP_HEADER + ARP_PAYLOAD
  {
    info.(hasArp := true, arpOpcode := U16(b, 6), arpSenderMac := MacAt(b, 8), arpSenderIpv4 := AddressAt(b, 14),
          arpTargetMac := MacAt(b, 18), arpTargetIpv4 := AddressAt(b, 24))
  }

  function WithArp(b: seq<byte>, info: PacketInfo): PacketInfo {
    if |b| < ARP_HEADER then Truncated(info)
    else if !ArpForIpv4(b) then Malformed(info)
    else if |b| < ARP_HEADER + ARP_PAYLOAD then Truncated(info)
    else ArpFields(b, info)
  }

  function IcmpFields(b: seq<byte>, info: PacketInfo): PacketInfo
    requires |b| >= ICMP_HEADER
  {
    info.(hasIcmp := true, icmpType := b[0], icmpCode := b[1])
  }

  function WithIcmp(b: seq<byte>, info: PacketInfo): PacketInfo {
    if |b| < ICMP_HEADER then Truncated(info) else IcmpFields(b, info)
  }

  /** The header length the data offset gives, options included. */
  function TcpLength(b: seq<byte>): byte
    requires |b| >= TCP_HEADER
  {
    b[12] / 16 * 4
  }

  function TcpFields(b: seq<byte>, info: PacketInfo): PacketInfo
    requires |b| >= TCP_HEADER
  {
    info.(hasPorts := true, hasTcp := true, srcPort := U16(b, 0), dstPort := U16(b, 2),
          tcpSequence := U32(b, 4), tcpAcknowledgment := U32(b, 8),
          tcpHeaderLength := TcpLength(b), tcpFlags := b[13],
          serviceHint := ServiceOf(PROTO_TCP, U16(b, 0), U16(b, 2)))
  }

  function WithTcp(b: seq<byte>, info: PacketInfo): PacketInfo {
    if |b| < TCP_HEADER then Truncated(info)
    else if TcpLength(b) < TCP_HEADER then Malformed(info)
    else if |b| < TcpLength(b) then Truncated(info)
    else TcpFields(b, info)
  }

  function UdpFields(b: seq<byte>, info: PacketInfo): PacketInfo
    requires |b| >= UDP_HEADER
  {
    info.(hasPorts := true, hasUdp := true, srcPort := U16(b, 0), dstPort := U16(b, 2), udpLength := U16(b, 4),
          serviceHint := ServiceOf(PROTO_UDP, U16(b, 0), U16(b, 2)))
  }

  function WithUdp(b: seq<byte>, info: PacketInfo): PacketInfo {
    if |b| < UDP_HEADER then Truncated(info)
    else if U16(b, 4) < UDP_HEADER then Malformed(info)
    else UdpFields(b, info)
  }

  function WithTransport(b: seq<byte>, info: PacketInfo): PacketInfo {
    if info.ipProtocol == PROTO_ICMP then WithIcmp(b, info)
    else if info.ipProtocol == PROTO_TCP then WithTcp(b, info)
    else if info.ipProtocol == PROTO_UDP then WithUdp(b, info)
    else info
  }

  function FragmentOffset(field: u16): nat {
    field % 0x2000
  }

  predicate MoreFragments(field: u16) {
    field / 0x2000 % 2 == 1
  }

  predicate Fragmented(field: u16) {
    MoreFragments(field) || FragmentOffset(field) != 0
  }

  /** Layer 4 starts in this fragment. */
  predicate AtStart(field: u16) {
    FragmentOffset(field) == 0
  }

  /** IHL counts 32-bit words. */
  function HeaderLength(b: seq<byte>): byte
    requires |b| >= IPV4_HEADER
  {
    b[0] % 16 * 4
  }

  /** The fields read before the total length is checked. */
  function Ipv4Lengths(b: seq<byte>, info: PacketInfo): PacketInfo
    requires |b| >= IPV4_HEADER
  {
    info.(hasIpv4 := true, ipv4Version := b[0] / 16, ipv4Ihl := HeaderLength(b), ipv4TotalLength := U16(b, 2))
  }

  /** The fields read after it. */
  function Ipv4Fields(b: seq<byte>, info: PacketInfo): PacketInfo
    requires |b| >= IPV4_HEADER
  {
    var field := U16(b, 6);
    info.(ipProtocol := b[9], srcIpv4 := AddressAt(b, 12), dstIpv4 := AddressAt(b, 16),
          ipv4Fragmented := Fragmented(field), ipv4L4HeaderAvailable := AtStart(field))
  }

  function PastLengths(b: seq<byte>, ihl: nat, info: PacketInfo): PacketInfo
    requires |b| >= IPV4_HEADER && ihl <= |b|
  {
    var filled := Ipv4Fields(b, info);
    if filled.ipv4L4HeaderAvailable then WithTransport(b[ihl..], filled) else filled
  }

  function WithIpv4(b: seq<byte>, info: PacketInfo): PacketInfo {
    if |b| < IPV4_HEADER then Truncated(info)
    else if b[0] / 16 != 4 || HeaderLength(b) < IPV4_HEADER then Malformed(info)
    else if |b| < HeaderLength(b) then Truncated(info)
    else if U16(b, 2) < HeaderLength(b) then Malformed(Ipv4Lengths(b, info))
    else PastLengths(b, HeaderLength(b), Ipv4Lengths(b, info))
  }

  function Ipv6Seen(info: PacketInfo): PacketInfo {
    info.(isIpv6Observed := true)
  }

  function WithNetwork(b: seq<byte>, info: PacketInfo): PacketInfo {
    if info.etherType == ETHERTYPE_ARP then WithArp(b, info)
    else if info.etherType == ETHERTYPE_IP then WithIpv4(b, info)
    else if info.etherType == ETHERTYPE_IPV6 then Ipv6Seen(info)
    else info
  }

  function EthernetFields(c: seq<byte>, info: PacketInfo): PacketInfo
    requires |c| >= ETHERNET_HEADER
  {
    info.(hasEthernet := true, dstMac := MacAt(c, 0), srcMac := MacAt(c, 6), etherType := U16(c, 12))
  }

  function Parsed(c: seq<byte>, wireLength: nat): PacketInfo {
    var info := Reset(|c|, wireLength);
    if |c| < ETHERNET_HEADER then Truncated(info)
    else WithNetwork(c[ETHERNET_HEADER..], EthernetFields(c, info))
  }

  // ----- The parser -----

  /** Fills `info` field by field; a buffer is read-only and carries its available length. */
  class Parse {
    var info: PacketInfo

    constructor ()
    {
      info := Reset(0, 0);
    }

    method ParseArp(buffer: seq<byte>)
      modifies this
      ensures info == WithArp(buffer, old(info))
    {
      var offset := ARP_HEADER;
      if |buffer| < ARP_HEADER {
        info := Truncated(info);
        return;
      }
      if U16(buffer, 0) != ARP_ETHERNET || U16(buffer, 2) != ETHERTYPE_IP || buffer[4] != 6 || buffer[5] != 4 {
        info := Malformed(info);
        return;
      }
      if |buffer| < offset + ARP_PAYLOAD {
        info := Truncated(info);
        return;
      }
      info := info.(hasArp := true);
      info := info.(arpOpcode := U16(buffer, 6));
      info := info.(arpSenderMac := MacAt(buffer, offset));
      offset := offset + 6;
      info := info.(arpSenderIpv4 := AddressAt(buffer, offset));
      offset := offset + 4;
      info := info.(arpTargetMac := MacAt(buffer, offset));
      offset := offset + 6;
      info := info.(arpTargetIpv4 := AddressAt(buffer, offset));
    }

    method ParseIcmp(buffer: seq<byte>)
      modifies this
      ensures info == WithIcmp(buffer, old(info))
    {
      if |buffer| < ICMP_HEADER {
        info := Truncated(info);
        return;
      }
      info := info.(hasIcmp := true);
      info := info.(icmpType := buffer[0]);
      info := info.(icmpCode := buffer[1]);
    }

    method ParseTcp(buffer: seq<byte>)
      modifies this
      ensures info == WithTcp(buffer, old(info))
    {
      hide Join16, Join32, ServiceOf;
      if |buffer| < TCP_HEADER {
        info := Truncated(info);
        return;
      }
      var headerLength: byte := buffer[12] / 16 * 4;
      if headerLength < TCP_HEADER {
        info := Malformed(info);
        return;
      }
      if |buffer| < headerLength {
        info := Truncated(info);
        return;
      }
      info := info.(hasPorts := true);
      info := info.(hasTcp := true);
      info := info.(srcPort := U16(buffer, 0));
      info := info.(dstPort := U16(buffer, 2));
      info := info.(tcpSequence := U32(buffer, 4));
      info := info.(tcpAcknowledgment := U32(buffer, 8));
      info := info.(tcpHeaderLength := headerLength);
      info := info.(tcpFlags := buffer[13]);
      info := info.(serviceHint := ServiceOf(PROTO_TCP, info.srcPort, info.dstPort));
    }

    method ParseUdp(buffer: seq<byte>)
      modifies this
      ensures info == WithUdp(buffer, old(info))
    {
      hide Join16, ServiceOf;
      if |buffer| < UDP_HEADER {
        info := Truncated(info);
        return;
      }
      var udpLength := U16(buffer, 4);
      if udpLength < UDP_HEADER {
        info := Malformed(info);
        return;
      }
      info := info.(hasPorts := true);
      info := info.(hasUdp := true);
      info := info.(srcPort := U16(buffer, 0));
      info := info.(dstPort := U16(buffer, 2));
      info := info.(udpLength := udpLength);
      info := info.(serviceHint := ServiceOf(PROTO_UDP, info.srcPort, info.dstPort));
    }

    /** The switch on the protocol at the end of `parse_ipv4`. */
    method ParseTransport(transport: seq<byte>)
      modifies this
      ensures info == WithTransport(transport, old(info))
    {
      hide WithTcp, WithUdp, WithIcmp;
      if info.ipProtocol == PROTO_ICMP {
        ParseIcmp(transport);
      } else if info.ipProtocol == PROTO_TCP {
        ParseTcp(transport);
      } else if info.ipProtocol == PROTO_UDP {
        ParseUdp(transport);
      }
    }

    /** Protocol, addresses and fragmentation. */
    method FillIpv4(buffer: seq<byte>)
      requires |buffer| >= IPV4_HEADER
      modifies this
      ensures info == Ipv4Fields(buffer, old(info))
    {
      hide Join16, Fragmented, AtStart, AddressAt;
      info := info.(ipProtocol := buffer[9]);
      info := info.(srcIpv4 := AddressAt(buffer, 12));
      info := info.(dstIpv4 := AddressAt(buffer, 16));
      var field := U16(buffer, 6);
      info := info.(ipv4Fragmented := Fragmented(field));
      info := info.(ipv4L4HeaderAvailable := AtStart(field));
    }

    /** `parse_ipv4` after the length checks. */
    method PassLengths(buffer: seq<byte>, ihl: nat)
      requires |buffer| >= IPV4_HEADER && ihl <= |buffer|
      modifies this
      ensures info == PastLengths(buffer, ihl, old(info))
    {
      hide WithTransport, Ipv4Fields;
      FillIpv4(buffer);
      if info.ipv4L4HeaderAvailable {
        ParseTransport(buffer[ihl..]);
      }
    }

    method ParseIpv4(buffer: seq<byte>)
      modifies this
      ensures info == WithIpv4(buffer, old(info))
    {
      hide PastLengths, Join16, Truncated, Malformed;
      if |buffer| < IPV4_HEADER {
        info := Truncated(info);
        return;
      }
      var version: byte := buffer[0] / 16;
      var ihl: byte := buffer[0] % 16 * 4;
      if version != 4 || ihl < IPV4_HEADER {
        info := Malformed(info);
        return;
      }
      if |buffer| < ihl {
        info := Truncated(info);
        return;
      }
      info := info.(hasIpv4 := true);
      info := info.(ipv4Version := version);
      info := info.(ipv4Ihl := ihl);
      info := info.(ipv4TotalLength := U16(buffer, 2));
      assert info == Ipv4Lengths(buffer, old(info));
      hide Ipv4Lengths;
      if info.ipv4TotalLength < ihl {
        info := Malformed(info);
        return;
      }
      PassLengths(buffer, ihl);
    }

    /** `parse_packet` */
    method ParsePacket(packet: seq<byte>, wireLength: nat) returns (ok: bool)
      modifies this
      ensures info == Parsed(packet, wireLength)
      ensures ok <==> !info.malformed && !info.truncated
    {
      hide WithIpv4, WithArp;
      info := Reset(|packet|, wireLength);
      if |packet| < ETHERNET_HEADER {
        info := Truncated(info);
        return false;
      }
      info := info.(hasEthernet := true);
      info := info.(srcMac := MacAt(packet, 6));
      info := info.(dstMac := MacAt(packet, 0));
      info := info.(etherType := U16(packet, 12));
      if info.etherType == ETHERTYPE_ARP {
        ParseArp(packet[ETHERNET_HEADER..]);
      } else if info.etherType == ETHERTYPE_IP {
        ParseIpv4(packet[ETHERNET_HEADER..]);
      } else if info.etherType == ETHERTYPE_IPV6 {
        info := info.(isIpv6Observed := true);
      }
      ok := !(info.malformed || info.truncated);
    }
  }
}

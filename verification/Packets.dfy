/** The parsed form of one captured packet. */
module Packets {
  import opened NetTypes

  datatype ServiceHint = HintNone | HintSsh | HintHttp | HintHttps | HintDns | HintDhcp

  datatype PacketInfo = PacketInfo(
    capturedLength: nat, wireLength: nat,
    hasEthernet: bool, srcMac: Mac, dstMac: Mac, etherType: u16,
    isIpv6Observed: bool,
    hasArp: bool, arpOpcode: u16,
    arpSenderMac: Mac, arpTargetMac: Mac, arpSenderIpv4: Ipv4, arpTargetIpv4: Ipv4,
    hasIpv4: bool, ipv4Version: byte, ipv4Ihl: byte, ipv4TotalLength: u16, ipProtocol: byte,
    srcIpv4: Ipv4, dstIpv4: Ipv4, ipv4Fragmented: bool, ipv4L4HeaderAvailable: bool,
    hasIcmp: bool, icmpType: byte, icmpCode: byte,
    hasPorts: bool, srcPort: u16, dstPort: u16,
    hasTcp: bool, tcpSequence: u32, tcpAcknowledgment: u32, tcpHeaderLength: byte, tcpFlags: byte,
    hasUdp: bool, udpLength: u16,
    serviceHint: ServiceHint,
    malformed: bool, truncated: bool)

  const NO_MAC := Mac(0, 0, 0, 0, 0, 0)
  const NO_ADDRESS := Ipv4(0, 0, 0, 0)

  /** `packet_info_reset`: everything cleared but the two lengths. */
  function Reset(capturedLength: nat, wireLength: nat): PacketInfo {
    PacketInfo(capturedLength, wireLength,
               false, NO_MAC, NO_MAC, 0,
               false,
               false, 0, NO_MAC, NO_MAC, NO_ADDRESS, NO_ADDRESS,
               false, 0, 0, 0, 0, NO_ADDRESS, NO_ADDRESS, false, false,
               false, 0, 0,
               false, 0, 0,
               false, 0, 0, 0, 0,
               false, 0,
               HintNone,
               false, false)
  }

  /** Flag bits 0x02 (SYN) and 0x10 (ACK). */
  predicate InitialSyn(flags: byte) {
    flags / 2 % 2 == 1 && flags / 16 % 2 == 0
  }
}

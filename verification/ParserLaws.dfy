/** What holds of every parse, and how two parses of captures of one packet relate. */
module ParserLaws {
  import opened NetTypes
  import opened Packets
  import opened Parser

  /** The same result recorded for another capture of the packet. */
  function Relabelled(info: PacketInfo, capturedLength: nat, wireLength: nat): PacketInfo {
    info.(capturedLength := capturedLength, wireLength := wireLength)
  }

  // ----- Stability, layer by layer -----

  lemma MalformedRelabels(info: PacketInfo, captured: nat, wire: nat)
    ensures Malformed(Relabelled(info, captured, wire)) == Relabelled(Malformed(info), captured, wire)
  {
  }

  lemma Ipv6Relabels(info: PacketInfo, captured: nat, wire: nat)
    ensures Ipv6Seen(Relabelled(info, captured, wire)) == Relabelled(Ipv6Seen(info), captured, wire)
  {
  }

  /** What the later layers look at does not depend on the recorded lengths. */
  lemma LabelsKeep(info: PacketInfo, captured: nat, wire: nat)
    ensures Truncated(info).truncated
    ensures Relabelled(info, captured, wire).ipProtocol == info.ipProtocol
    ensures Relabelled(info, captured, wire).etherType == info.etherType
    ensures Relabelled(info, captured, wire).ipv4L4HeaderAvailable == info.ipv4L4HeaderAvailable
  {
  }

  lemma ArpFieldsStable(b: seq<byte>, more: seq<byte>, info: PacketInfo, captured: nat, wire: nat)
    requires |b| >= ARP_HEADER + ARP_PAYLOAD
    ensures ArpFields(b + more, Relabelled(info, captured, wire)) == Relabelled(ArpFields(b, info), captured, wire)
  {
    hide Join16;
  }

  lemma ArpStable(b: seq<byte>, more: seq<byte>, info: PacketInfo, captured: nat, wire: nat)
    requires !WithArp(b, info).truncated
    ensures WithArp(b + more, Relabelled(info, captured, wire)) == Relabelled(WithArp(b, info), captured, wire)
  {
    hide ArpFields, Truncated, Malformed, Relabelled, Join16;
    LabelsKeep(info, captured, wire);
    MalformedRelabels(info, captured, wire);
    if |b| >= ARP_HEADER + ARP_PAYLOAD {
      ArpFieldsStable(b, more, info, captured, wire);
    }
  }

  lemma IcmpFieldsStable(b: seq<byte>, more: seq<byte>, info: PacketInfo, captured: nat, wire: nat)
    requires |b| >= ICMP_HEADER
    ensures IcmpFields(b + more, Relabelled(info, captured, wire)) == Relabelled(IcmpFields(b, info), captured, wire)
  {
  }

  lemma TcpFieldsStable(b: seq<byte>, more: seq<byte>, info: PacketInfo, captured: nat, wire: nat)
    requires |b| >= TCP_HEADER
    ensures TcpFields(b + more, Relabelled(info, captured, wire)) == Relabelled(TcpFields(b, info), captured, wire)
  {
    hide ServiceOf, Join16, Join32;
  }

  lemma UdpFieldsStable(b: seq<byte>, more: seq<byte>, info: PacketInfo, captured: nat, wire: nat)
    requires |b| >= UDP_HEADER
    ensures UdpFields(b + more, Relabelled(info, captured, wire)) == Relabelled(UdpFields(b, info), captured, wire)
  {
    hide ServiceOf, Join16;
  }

  lemma TcpStable(b: seq<byte>, more: seq<byte>, info: PacketInfo, captured: nat, wire: nat)
    requires !WithTcp(b, info).truncated
    ensures WithTcp(b + more, Relabelled(info, captured, wire)) == Relabelled(WithTcp(b, info), captured, wire)
  {
    hide TcpFields, Truncated, Malformed, Relabelled;
    LabelsKeep(info, captured, wire);
    MalformedRelabels(info, captured, wire);
    TcpFieldsStable(b, more, info, captured, wire);
  }

  lemma TransportStable(b: seq<byte>, more: seq<byte>, info: PacketInfo, captured: nat, wire: nat)
    requires !WithTransport(b, info).truncated
    ensures WithTransport(b + more, Relabelled(info, captured, wire))
            == Relabelled(WithTransport(b, info), captured, wire)
  {
    hide WithTcp, IcmpFields, UdpFields, Truncated, Malformed, Relabelled, Join16;
    LabelsKeep(info, captured, wire);
    MalformedRelabels(info, captured, wire);
    if info.ipProtocol == PROTO_ICMP {
      IcmpFieldsStable(b, more, info, captured, wire);
    } else if info.ipProtocol == PROTO_TCP {
      TcpStable(b, more, info, captured, wire);
    } else if info.ipProtocol == PROTO_UDP {
      UdpFieldsStable(b, more, info, captured, wire);
    }
  }

  lemma Ipv4FieldsStable(b: seq<byte>, more: seq<byte>, info: PacketInfo, captured: nat, wire: nat)
    requires |b| >= IPV4_HEADER
    ensures Ipv4Fields(b + more, Relabelled(info, captured, wire)) == Relabelled(Ipv4Fields(b, info), captured, wire)
  {
    hide Fragmented, AtStart, Join16;
  }

  lemma Ipv4LengthsStable(b: seq<byte>, more: seq<byte>, info: PacketInfo, captured: nat, wire: nat)
    requires |b| >= IPV4_HEADER
    ensures Ipv4Lengths(b + more, Relabelled(info, captured, wire)) == Relabelled(Ipv4Lengths(b, info), captured, wire)
  {
    hide Join16;
  }

  lemma PastLengthsStable(b: seq<byte>, more: seq<byte>, ihl: nat, info: PacketInfo, captured: nat, wire: nat)
    requires |b| >= IPV4_HEADER && ihl <= |b| && !PastLengths(b, ihl, info).truncated
    ensures PastLengths(b + more, ihl, Relabelled(info, captured, wire))
         == Relabelled(PastLengths(b, ihl, info), captured, wire)
  {
    hide Ipv4Fields, WithTransport, Relabelled;
    var filled := Ipv4Fields(b, info);
    Ipv4FieldsStable(b, more, info, captured, wire);
    LabelsKeep(filled, captured, wire);
    MalformedRelabels(filled, captured, wire);
    if filled.ipv4L4HeaderAvailable {
      assert (b + more)[ihl..] == b[ihl..] + more;
      TransportStable(b[ihl..], more, filled, captured, wire);
    }
  }

  lemma Ipv4Stable(b: seq<byte>, more: seq<byte>, info: PacketInfo, captured: nat, wire: nat)
    requires !WithIpv4(b, info).truncated
    ensures WithIpv4(b + more, Relabelled(info, captured, wire)) == Relabelled(WithIpv4(b, info), captured, wire)
  {
    hide PastLengths, Ipv4Lengths, Join16, Truncated, Malformed, Relabelled;
    LabelsKeep(info, captured, wire);
    MalformedRelabels(info, captured, wire);
    Ipv4LengthsStable(b, more, info, captured, wire);
    LabelsKeep(Ipv4Lengths(b, info), captured, wire);
    MalformedRelabels(Ipv4Lengths(b, info), captured, wire);
    if b[0] / 16 == 4 && IPV4_HEADER <= HeaderLength(b) <= U16(b, 2) {
      PastLengthsStable(b, more, HeaderLength(b), Ipv4Lengths(b, info), captured, wire);
    }
  }

  lemma EthernetStable(c: seq<byte>, more: seq<byte>, wire: nat, otherWire: nat)
    requires |c| >= ETHERNET_HEADER
    ensures EthernetFields(c + more, Reset(|c + more|, otherWire))
         == Relabelled(EthernetFields(c, Reset(|c|, wire)), |c + more|, otherWire)
  {
    hide Join16;
  }

  /** If the parser does not report truncation, every longer capture of the packet gives the same
      verdict and the same fields, whatever length the wire is said to have had. */
  lemma VerdictIsStable(c: seq<byte>, more: seq<byte>, wire: nat, otherWire: nat)
    requires !Parsed(c, wire).truncated
    ensures Parsed(c + more, otherWire) == Relabelled(Parsed(c, wire), |c + more|, otherWire)
  {
    hide WithIpv4, WithArp, EthernetFields, Relabelled, Reset, Truncated, Ipv6Seen;
    LabelsKeep(Reset(|c|, wire), |c + more|, otherWire);
    var b, info := c[ETHERNET_HEADER..], EthernetFields(c, Reset(|c|, wire));
    assert (c + more)[ETHERNET_HEADER..] == b + more;
    EthernetStable(c, more, wire, otherWire);
    LabelsKeep(info, |c + more|, otherWire);
    Ipv6Relabels(info, |c + more|, otherWire);
    if info.etherType == ETHERTYPE_ARP {
      ArpStable(b, more, info, |c + more|, otherWire);
    } else if info.etherType == ETHERTYPE_IP {
      Ipv4Stable(b, more, info, |c + more|, otherWire);
    }
  }

  // ----- What truncation means -----

  /** Filling in fields changes neither error flag. */
  lemma FieldsKeepFlags(b: seq<byte>, info: PacketInfo)
    requires |b| >= ARP_HEADER + ARP_PAYLOAD
    ensures ArpFields(b, info).truncated == IcmpFields(b, info).truncated == TcpFields(b, info).truncated
            == info.truncated
    ensures UdpFields(b, info).truncated == Ipv4Fields(b, info).truncated == Ipv4Lengths(b, info).truncated
            == info.truncated
    ensures Malformed(info).truncated == Ipv6Seen(info).truncated == info.truncated
  {
    hide ServiceOf, Join16, Join32, Fragmented, AtStart;
  }

  lemma TransportFits(b: seq<byte>, info: PacketInfo)
    requires |b| >= 60 && !info.truncated
    ensures !WithTransport(b, info).truncated
  {
    hide TcpFields, UdpFields, IcmpFields, Malformed, Join16;
    FieldsKeepFlags(b, info);
  }

  lemma Ipv4Fits(b: seq<byte>, info: PacketInfo)
    requires |b| >= 120 && !info.truncated
    ensures !WithIpv4(b, info).truncated
  {
    hide WithTransport, Join16, Ipv4Fields, Ipv4Lengths, Malformed;
    FieldsKeepFlags(b, info);
    FieldsKeepFlags(b, Ipv4Lengths(b, info));
    TransportFits(b[HeaderLength(b)..], Ipv4Fields(b, Ipv4Lengths(b, info)));
  }

  /** A capture that holds the longest chain of headers is never reported truncated. */
  lemma LongCapturesAreComplete(c: seq<byte>, wire: nat)
    requires |c| >= LONGEST_HEADERS
    ensures !Parsed(c, wire).truncated
  {
    hide WithIpv4;
    Ipv4Fits(c[ETHERNET_HEADER..], EthernetFields(c, Reset(|c|, wire)));
  }

  /** Capturing `more` bytes as well gives another verdict or another field. */
  predicate Matters(c: seq<byte>, more: seq<byte>, wire: nat) {
    Parsed(c + more, wire) != Relabelled(Parsed(c, wire), |c + more|, wire)
  }

  /** The parser reports truncation exactly when bytes that were not captured could have changed
      its answer. */
  lemma TruncatedIffMoreBytesMatter(c: seq<byte>, wire: nat)
    ensures Parsed(c, wire).truncated <==> exists more: seq<byte> :: Matters(c, more, wire)
  {
    hide Parsed;
    if Parsed(c, wire).truncated {
      var more: seq<byte> := seq(LONGEST_HEADERS, _ => 0);
      LongCapturesAreComplete(c + more, wire);
      assert Matters(c, more, wire);
    } else {
      forall more: seq<byte> ensures !Matters(c, more, wire) {
        VerdictIsStable(c, more, wire, wire);
      }
    }
  }

  // ----- Which fields go together -----

  /** One network layer at most; one transport layer at most, and only above a readable IPv4
      header of an accepted packet; ports exactly with TCP or UDP; never both error flags. */
  predicate Consistent(p: PacketInfo) {
    && !(p.hasArp && p.isIpv6Observed) && !(p.hasArp && p.hasIpv4) && !(p.isIpv6Observed && p.hasIpv4)
    && !(p.hasTcp && p.hasUdp) && !(p.hasTcp && p.hasIcmp) && !(p.hasUdp && p.hasIcmp)
    && (p.hasTcp || p.hasUdp || p.hasIcmp ==> p.hasIpv4 && p.ipv4L4HeaderAvailable && !p.malformed && !p.truncated)
    && (p.hasTcp ==> p.ipProtocol == PROTO_TCP && 20 <= p.tcpHeaderLength <= 60)
    && (p.hasUdp ==> p.ipProtocol == PROTO_UDP) && (p.hasIcmp ==> p.ipProtocol == PROTO_ICMP)
    && (p.hasPorts <==> p.hasTcp || p.hasUdp)
    && (p.hasArp || p.isIpv6Observed || p.hasIpv4 ==> p.hasEthernet)
    && (p.hasArp || p.isIpv6Observed ==> !p.malformed && !p.truncated)
    && !(p.malformed && p.truncated)
  }

  /** Nothing above the network layer yet. */
  predicate Bare(p: PacketInfo) {
    && !p.hasArp && !p.isIpv6Observed && !p.hasTcp && !p.hasUdp && !p.hasIcmp && !p.hasPorts
    && !p.malformed && !p.truncated && p.hasEthernet
  }

  lemma TransportConsistent(b: seq<byte>, info: PacketInfo)
    requires Bare(info) && info.hasIpv4 && info.ipv4L4HeaderAvailable
    ensures Consistent(WithTransport(b, info))
  {
    hide ServiceOf, Join16, Join32;
  }

  lemma Ipv4Consistent(b: seq<byte>, info: PacketInfo)
    requires Bare(info) && !info.hasIpv4
    ensures Consistent(WithIpv4(b, info))
  {
    hide WithTransport, Fragmented, AtStart, Join16;
    if |b| >= IPV4_HEADER {
      var ihl := HeaderLength(b);
      var filled := Ipv4Fields(b, Ipv4Lengths(b, info));
      if filled.ipv4L4HeaderAvailable && ihl <= |b| {
        TransportConsistent(b[ihl..], filled);
      }
    }
  }

  /** Every result is consistent; in particular parsed TCP implies IPv4, ports and no error. */
  lemma EveryParseIsConsistent(c: seq<byte>, wire: nat)
    ensures Consistent(Parsed(c, wire))
  {
    hide WithIpv4, WithArp;
    if |c| >= ETHERNET_HEADER {
      var b, info := c[ETHERNET_HEADER..], EthernetFields(c, Reset(|c|, wire));
      if info.etherType == ETHERTYPE_IP {
        Ipv4Consistent(b, info);
      } else if info.etherType == ETHERTYPE_ARP {
        ArpConsistent(b, info);
      }
    }
  }

  lemma ArpConsistent(b: seq<byte>, info: PacketInfo)
    requires Bare(info) && !info.hasIpv4
    ensures Consistent(WithArp(b, info))
  {
  }

  // ----- Absent layers -----

  predicate ArpUnset(p: PacketInfo) {
    && p.arpOpcode == 0 && p.arpSenderMac == Mac(0, 0, 0, 0, 0, 0) && p.arpTargetMac == Mac(0, 0, 0, 0, 0, 0)
    && p.arpSenderIpv4 == Ipv4(0, 0, 0, 0) && p.arpTargetIpv4 == Ipv4(0, 0, 0, 0)
  }

  predicate Ipv4Unset(p: PacketInfo) {
    && p.ipv4Version == 0 && p.ipv4Ihl == 0 && p.ipv4TotalLength == 0 && p.ipProtocol == 0
    && p.srcIpv4 == Ipv4(0, 0, 0, 0) && p.dstIpv4 == Ipv4(0, 0, 0, 0)
    && !p.ipv4Fragmented && !p.ipv4L4HeaderAvailable
  }

  predicate TransportUnset(p: PacketInfo) {
    && (!p.hasIcmp ==> p.icmpType == 0 && p.icmpCode == 0)
    && (!p.hasPorts ==> p.srcPort == 0 && p.dstPort == 0 && p.serviceHint == HintNone)
    && (!p.hasTcp ==> p.tcpSequence == 0 && p.tcpAcknowledgment == 0 && p.tcpHeaderLength == 0 && p.tcpFlags == 0)
    && (!p.hasUdp ==> p.udpLength == 0)
  }

  /** The fields of a layer that was not found are zero. */
  predicate AbsentIsZero(p: PacketInfo) {
    && (!p.hasEthernet ==> p.etherType == 0 && p.srcMac == p.dstMac == Mac(0, 0, 0, 0, 0, 0))
    && (!p.hasArp ==> ArpUnset(p)) && (!p.hasIpv4 ==> Ipv4Unset(p)) && TransportUnset(p)
  }

  lemma FieldsKeepAbsent(b: seq<byte>, info: PacketInfo)
    requires AbsentIsZero(info) && Bare(info)
    ensures AbsentIsZero(Truncated(info)) && AbsentIsZero(Malformed(info))
    ensures |b| >= ICMP_HEADER ==> AbsentIsZero(IcmpFields(b, info)) && AbsentIsZero(UdpFields(b, info))
    ensures |b| >= TCP_HEADER ==> AbsentIsZero(TcpFields(b, info))
  {
    hide ServiceOf, Join16, Join32;
  }

  lemma TransportKeepsAbsent(b: seq<byte>, info: PacketInfo)
    requires AbsentIsZero(info) && Bare(info)
    ensures AbsentIsZero(WithTransport(b, info))
  {
    FieldsKeepAbsent(b, info);
    hide Join16, AbsentIsZero, IcmpFields, TcpFields, UdpFields, Truncated, Malformed;
  }

  lemma Ipv4KeepsAbsent(b: seq<byte>, info: PacketInfo)
    requires AbsentIsZero(info) && Bare(info)
    ensures AbsentIsZero(WithIpv4(b, info))
  {
    hide WithTransport, Fragmented, AtStart, Join16;
    if |b| >= IPV4_HEADER {
      var filled := Ipv4Fields(b, Ipv4Lengths(b, info));
      assert AbsentIsZero(filled) && Bare(filled);
      if HeaderLength(b) <= |b| {
        TransportKeepsAbsent(b[HeaderLength(b)..], filled);
      }
    }
  }

  /** In every result the fields of absent layers are zero. */
  lemma AbsentLayersAreZero(c: seq<byte>, wire: nat)
    ensures AbsentIsZero(Parsed(c, wire))
  {
    hide WithIpv4, WithArp;
    if |c| >= ETHERNET_HEADER {
      var b, info := c[ETHERNET_HEADER..], EthernetFields(c, Reset(|c|, wire));
      if info.etherType == ETHERTYPE_IP {
        Ipv4KeepsAbsent(b, info);
      } else if info.etherType == ETHERTYPE_ARP {
        ArpKeepsAbsent(b, info);
      }
    }
  }

  lemma ArpFieldsKeepAbsent(b: seq<byte>, info: PacketInfo)
    requires AbsentIsZero(info) && |b| >= ARP_HEADER + ARP_PAYLOAD
    ensures AbsentIsZero(ArpFields(b, info))
  {
    hide Join16;
  }

  lemma ArpKeepsAbsent(b: seq<byte>, info: PacketInfo)
    requires AbsentIsZero(info) && Bare(info)
    ensures AbsentIsZero(WithArp(b, info))
  {
    FieldsKeepAbsent(b, info);
    if |b| >= ARP_HEADER + ARP_PAYLOAD {
      ArpFieldsKeepAbsent(b, info);
    }
    hide AbsentIsZero, ArpFields, Truncated, Malformed, Join16;
  }
}

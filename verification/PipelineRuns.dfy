/** Whole runs of the pipeline: which packets reach which table. */
module PipelineRuns {
  import opened LedActions
  import opened NetTypes
  import opened Packets
  import opened RulesEngine
  import opened ScanDetector
  import opened Pipeline
  import opened Serializer
  import opened Acceptance
  import D = SshDedup
  import H = ScanHistory
  import T = ScanTable
  import P = Parser
  import C = DisplayProtocol
  import L = ParserLaws

  /** One captured packet, its length on the wire and the clock when it is processed. */
  datatype Capture = Capture(bytes: seq<byte>, wire: nat, at: nat)

  function InfoOf(c: Capture): PacketInfo {
    P.Parsed(c.bytes, c.wire)
  }

  function SightingsOf(run: seq<Capture>): seq<D.Sighting> {
    if run == [] then []
    else
      var n := |run| - 1;
      SshAfter(SightingsOf(run[..n]), InfoOf(run[n]), run[n].at)
  }

  function SynsOf(run: seq<Capture>): seq<T.Syn> {
    if run == [] then []
    else
      var n := |run| - 1;
      ScanAfter(SynsOf(run[..n]), InfoOf(run[n]), run[n].at)
  }

  /** Everything logged over a run. */
  function Events(run: seq<Capture>, window: u32, threshold: nat): seq<Event> {
    if run == [] then []
    else
      var n := |run| - 1;
      Events(run[..n], window, threshold)
      + EventsOf(InfoOf(run[n]), SightingsOf(run[..n]), SynsOf(run[..n]), run[n].at, run[n].at, window, threshold)
  }

  // ----- One packet -----

  /** A malformed or truncated packet reaches neither table and raises nothing. */
  lemma RejectedIsIgnored(p: PacketInfo)
    requires L.Consistent(p) && !Accepted(p)
    ensures !ConsultsTable(p) && !Qualifies(p) && Classified(p).None?
  {
  }

  /** The rules consult the SSH table for exactly the packets that the detector counts on port 22. */
  lemma SshSynsAreScanned(p: PacketInfo)
    requires L.Consistent(p)
    ensures ConsultsTable(p) <==> Qualifies(p) && p.dstPort == 22
  {
  }

  predicate SynFrame(f: Frame) {
    && f.network.Ip? && f.network.transport.Tcp?
    && f.network.transport.tcp.control.syn && !f.network.transport.tcp.control.ack
  }

  lemma HalfOf(x: nat, y: nat, b: nat)
    requires x == 2 * y + b && b <= 1
    ensures x / 2 == y && x % 2 == b
  {
  }

  lemma FlagBits(b7: nat, b6: nat, b5: nat, ack: nat, psh: nat, rst: nat, syn: nat, fin: nat)
    requires ack <= 1 && psh <= 1 && rst <= 1 && syn <= 1 && fin <= 1
    ensures var flags := Weighed(b7, b6, b5, ack, psh, rst, syn, fin);
            flags / 2 % 2 == syn && flags / 16 % 2 == ack
  {
    var flags := Weighed(b7, b6, b5, ack, psh, rst, syn, fin);
    var high := 4 * b7 + 2 * b6 + b5;
    var h4 := 2 * high + ack;
    var h3 := 2 * h4 + psh;
    var h2 := 2 * h3 + rst;
    var h1 := 2 * h2 + syn;
    HalfOf(flags, h1, fin);
    HalfOf(h1, h2, syn);
    HalfOf(h2, h3, rst);
    HalfOf(h3, h4, psh);
    HalfOf(h4, high, ack);
    SixteenIsFourHalves(flags);
  }

  /** What the program's test of the flags byte means for the control bits. */
  lemma InitialSynBits(c: Control)
    ensures InitialSyn(ControlByte(c)) <==> c.syn && !c.ack
  {
    hide Weighed;
    FlagBits(Bit(c.cwr), Bit(c.ece), Bit(c.urg), Bit(c.ack), Bit(c.psh), Bit(c.rst), Bit(c.syn), Bit(c.fin));
  }

  lemma SixteenIsFourHalves(n: nat)
    ensures n / 16 == n / 2 / 2 / 2 / 2
  {
  }

  lemma SeenSyn(f: Frame, wire: nat)
    requires Valid(f)
    ensures Qualifies(Seen(f, wire)) <==> SynFrame(f)
    ensures SynFrame(f) ==> Seen(f, wire).srcIpv4 == f.network.header.src
                            && Seen(f, wire).dstPort == f.network.transport.tcp.dstPort
  {
    if f.network.Ip? && f.network.transport.Tcp? {
      InitialSynBits(f.network.transport.tcp.control);
    }
    hide InPieces, TcpService, UdpService, Bytes, EtherTypeOf, InitialSyn, ControlByte;
  }

  /** The detector counts a capture exactly when its bytes are a frame carrying an initial SYN in
      an IPv4 packet that holds the start of the TCP segment; source and port are the frame's. */
  lemma CountedIffSynFrame(c: seq<byte>, wire: nat)
    ensures Qualifies(P.Parsed(c, wire)) <==> exists f: Frame :: Writes(f, c) && SynFrame(f)
    ensures forall f: Frame :: Writes(f, c) && SynFrame(f) ==>
              && P.Parsed(c, wire).srcIpv4 == f.network.header.src
              && P.Parsed(c, wire).dstPort == f.network.transport.tcp.dstPort
  {
    hide P.Parsed, Accepted, Seen, Valid, Bytes, Qualifies, InitialSyn;
    AcceptsExactlyFrames(c, wire);
    L.EveryParseIsConsistent(c, wire);
    CountedIsAccepted(P.Parsed(c, wire));
    forall f: Frame | Writes(f, c)
      ensures Qualifies(P.Parsed(c, wire)) <==> SynFrame(f)
      ensures SynFrame(f) ==> P.Parsed(c, wire).srcIpv4 == f.network.header.src
                              && P.Parsed(c, wire).dstPort == f.network.transport.tcp.dstPort
    {
      WritesValid(f, c);
      SeenSyn(f, wire);
    }
    if Qualifies(P.Parsed(c, wire)) {
      var f: Frame :| Writes(f, c);
      assert Writes(f, c) && SynFrame(f);
    }
  }

  lemma WritesValid(f: Frame, c: seq<byte>)
    requires Writes(f, c)
    ensures Valid(f)
  {
  }

  lemma CountedIsAccepted(p: PacketInfo)
    requires L.Consistent(p)
    ensures Qualifies(p) ==> Accepted(p)
  {
  }

  // ----- Runs -----

  function AcceptedOnly(run: seq<Capture>): seq<Capture> {
    if run == [] then []
    else
      var n := |run| - 1;
      AcceptedOnly(run[..n]) + if Accepted(InfoOf(run[n])) then [run[n]] else []
  }

  lemma RejectedAddsNothing(c: Capture, ssh: seq<D.Sighting>, scan: seq<T.Syn>, window: u32, threshold: nat)
    requires !Accepted(InfoOf(c))
    ensures SshAfter(ssh, InfoOf(c), c.at) == ssh && ScanAfter(scan, InfoOf(c), c.at) == scan
    ensures EventsOf(InfoOf(c), ssh, scan, c.at, c.at, window, threshold) == []
  {
    hide Accepted, Qualifies, ConsultsTable, Classified, InfoOf;
    InfoIsConsistent(c);
    RejectedIsIgnored(InfoOf(c));
  }

  /** Over any run, malformed and truncated packets leave no trace: taking them out changes neither
      table's history nor anything that is logged. */
  lemma {:induction false} RejectedLeaveNoTrace(run: seq<Capture>, window: u32, threshold: nat)
    ensures SightingsOf(AcceptedOnly(run)) == SightingsOf(run)
    ensures SynsOf(AcceptedOnly(run)) == SynsOf(run)
    ensures Events(AcceptedOnly(run), window, threshold) == Events(run, window, threshold)
  {
    hide Accepted, SshAfter, ScanAfter, EventsOf, InfoOf;
    if run != [] {
      var n := |run| - 1;
      RejectedLeaveNoTrace(run[..n], window, threshold);
      if Accepted(InfoOf(run[n])) {
        assert AcceptedOnly(run)[..|AcceptedOnly(run[..n])|] == AcceptedOnly(run[..n]);
      } else {
        RejectedAddsNothing(run[n], SightingsOf(run[..n]), SynsOf(run[..n]), window, threshold);
        assert AcceptedOnly(run) == AcceptedOnly(run[..n]);
      }
    }
  }

  lemma InfoIsConsistent(c: Capture)
    ensures L.Consistent(InfoOf(c))
  {
    L.EveryParseIsConsistent(c.bytes, c.wire);
  }

  /** The SYNs to port 22 of a scan history. */
  function OnPort22(h: seq<T.Syn>): seq<T.Syn> {
    if h == [] then []
    else OnPort22(h[..|h| - 1]) + if h[|h| - 1].port == 22 then [h[|h| - 1]] else []
  }

  /** An SSH sighting, as the detector would record it. */
  function AsSyns(h: seq<D.Sighting>): seq<T.Syn> {
    if h == [] then []
    else AsSyns(h[..|h| - 1]) + [T.Syn(h[|h| - 1].key.src, h[|h| - 1].key.dstPort, h[|h| - 1].at)]
  }

  /** Over any run the SSH table sees exactly the SYNs the detector counts on port 22, in order. */
  lemma {:induction false} SshHistoryIsScanOnPort22(run: seq<Capture>)
    ensures AsSyns(SightingsOf(run)) == OnPort22(SynsOf(run))
  {
    hide Qualifies, ConsultsTable, InfoOf;
    if run != [] {
      var n := |run| - 1;
      SshHistoryIsScanOnPort22(run[..n]);
      InfoIsConsistent(run[n]);
      SshSynsAreScanned(InfoOf(run[n]));
      assert forall h: seq<D.Sighting>, s: D.Sighting :: (h + [s])[..|h|] == h;
      assert forall h: seq<T.Syn>, s: T.Syn :: (h + [s])[..|h|] == h;
    }
  }

  /** `b` captured at least as much of the same packet as `a`, and `a` enough for the parser. */
  predicate CapturesMore(a: Capture, b: Capture) {
    a.bytes <= b.bytes && a.at == b.at && !InfoOf(a).truncated
  }

  lemma MoreChangesNothing(a: Capture, b: Capture)
    requires CapturesMore(a, b)
    ensures InfoOf(b) == L.Relabelled(InfoOf(a), |b.bytes|, b.wire)
  {
    hide P.Parsed;
    L.VerdictIsStable(a.bytes, b.bytes[|a.bytes|..], a.wire, b.wire);
    assert b.bytes == a.bytes + b.bytes[|a.bytes|..];
  }

  lemma LabelsDoNotMatter(p: PacketInfo, captured: nat, wire: nat)
    ensures var q := L.Relabelled(p, captured, wire);
            && (ConsultsTable(q) <==> ConsultsTable(p)) && (Qualifies(q) <==> Qualifies(p))
            && KeyOf(q) == KeyOf(p) && q.srcIpv4 == p.srcIpv4 && q.dstPort == p.dstPort
  {
    hide InitialSyn;
  }

  /** Capturing with a larger snap length changes no alert: over two runs of the same packets, both
      long enough for the parser, the tables see the same histories. */
  lemma {:induction false} SnapLengthDoesNotMatter(a: seq<Capture>, b: seq<Capture>)
    requires |a| == |b| && forall i :: 0 <= i < |a| ==> CapturesMore(a[i], b[i])
    ensures SightingsOf(a) == SightingsOf(b) && SynsOf(a) == SynsOf(b)
  {
    hide Qualifies, ConsultsTable, InfoOf, L.Relabelled, KeyOf;
    if a != [] {
      var n := |a| - 1;
      SnapLengthDoesNotMatter(a[..n], b[..n]);
      MoreChangesNothing(a[n], b[n]);
      LabelsDoNotMatter(InfoOf(a[n]), |b[n].bytes|, b[n].wire);
    }
  }

  // ----- What the display counters count -----

  /** The counter `display_controller_record_event` moves for an event. */
  function Moves(e: Event): Option<C.Counter> {
    if e.kind == KindIcmp && e.ledAction == LedShort then Some(C.Icmp)
    else if e.kind == KindTcp && e.ledAction == LedLong then Some(C.Ssh) else None
  }

  function Moved(events: seq<Event>, c: C.Counter): nat {
    if events == [] then 0
    else Moved(events[..|events| - 1], c) + if Moves(events[|events| - 1]) == Some(c) then 1 else 0
  }

  predicate EchoRequest(p: PacketInfo) {
    Accepted(p) && p.hasIcmp && p.icmpType == 8
  }

  function EchoRequests(run: seq<Capture>): nat {
    if run == [] then 0
    else EchoRequests(run[..|run| - 1]) + if EchoRequest(InfoOf(run[|run| - 1])) then 1 else 0
  }

  /** How many sightings of a history were not repeats. */
  function AlertsDue(h: seq<D.Sighting>): nat {
    if h == [] then 0 else AlertsDue(h[..|h| - 1]) + if D.AlertDue(h) then 1 else 0
  }

  lemma {:induction false} MovedConcat(a: seq<Event>, b: seq<Event>, c: C.Counter)
    ensures Moved(a + b, c) == Moved(a, c) + Moved(b, c)
  {
    hide Moves;
    if b == [] {
      assert a + b == a;
    } else {
      MovedConcat(a, b[..|b| - 1], c);
      assert (a + b)[..|a + b| - 1] == a + b[..|b| - 1];
    }
  }

  lemma MovedOne(e: Event, c: C.Counter)
    ensures Moved([e], c) == if Moves(e) == Some(c) then 1 else 0
    ensures Moved([], c) == 0
  {
    hide Moves;
    assert [e][..0] == [];
  }

  lemma ClassifiedMoves(p: PacketInfo)
    requires L.Consistent(p)
    ensures Classified(p).Some? ==>
              Moves(Classified(p).value) == if EchoRequest(p) then Some(C.Icmp)
                                            else if ConsultsTable(p) then Some(C.Ssh) else None
    ensures Classified(p).None? ==> !EchoRequest(p) && !ConsultsTable(p)
    ensures ConsultsTable(p) ==> !EchoRequest(p)
    ensures Moves(PacketEvent(p, KindTcp, Info, LedNone)) == None
  {
    hide InitialSyn;
  }

  lemma ScanMovesNothing(src: Ipv4, ports: nat, window: nat)
    ensures Moves(ScanEvent(src, ports, window)) == None
  {
  }

  lemma PacketMoves(c: Capture, ssh: seq<D.Sighting>, scan: seq<T.Syn>, window: u32, threshold: nat)
    ensures var events := EventsOf(InfoOf(c), ssh, scan, c.at, c.at, window, threshold);
            && Moved(events, C.Icmp) == (if EchoRequest(InfoOf(c)) then 1 else 0)
            && Moved(events, C.Ssh) == AlertsDue(SshAfter(ssh, InfoOf(c), c.at)) - AlertsDue(ssh)
  {
    hide Moves, Moved, Classified, ConsultsTable, Qualifies, EchoRequest, InfoOf, L.Consistent, D.AlertDue, H.AlertDue;
    var p := InfoOf(c);
    InfoIsConsistent(c);
    ClassifiedMoves(p);
    var own := PacketEvents(p, c.at, SshAfter(ssh, p, c.at));
    var scans := ScanEvents(p, c.at, ScanAfter(scan, p, c.at), window, threshold);
    MovedConcat(own, scans, C.Icmp);
    MovedConcat(own, scans, C.Ssh);
    OwnMoves(p, c.at, ssh);
    if scans != [] {
      var a := H.AlertDue(ScanAfter(scan, p, c.at), window, threshold).value;
      ScanMovesNothing(a.src, a.uniquePorts, a.windowSeconds);
      MovedOne(scans[0], C.Icmp);
      MovedOne(scans[0], C.Ssh);
    } else {
      MovedOne(PacketEvent(p, KindTcp, Info, LedNone), C.Icmp);
      MovedOne(PacketEvent(p, KindTcp, Info, LedNone), C.Ssh);
    }
  }

  lemma OwnMoves(p: PacketInfo, at: nat, ssh: seq<D.Sighting>)
    requires L.Consistent(p)
    ensures var own := PacketEvents(p, at, SshAfter(ssh, p, at));
            && Moved(own, C.Icmp) == (if EchoRequest(p) then 1 else 0)
            && Moved(own, C.Ssh) == AlertsDue(SshAfter(ssh, p, at)) - AlertsDue(ssh)
  {
    hide Moves, Moved, Classified, ConsultsTable, EchoRequest, L.Consistent, D.AlertDue;
    ClassifiedMoves(p);
    var e := PacketEvent(p, KindTcp, Info, LedNone);
    MovedOne(e, C.Icmp);
    MovedOne(e, C.Ssh);
    if Classified(p).Some? {
      MovedOne(Classified(p).value, C.Icmp);
      MovedOne(Classified(p).value, C.Ssh);
    }
    if ConsultsTable(p) {
      var s := D.Sighting(KeyOf(p), at);
      assert (ssh + [s])[..|ssh|] == ssh;
    }
  }

  /** Over any run the events offered to the display counters are the accepted Echo Requests, and
      the SSH SYNs that repeat nothing seen in the 5 seconds before. */
  lemma {:induction false} CountersCountTheRun(run: seq<Capture>, window: u32, threshold: nat)
    ensures Moved(Events(run, window, threshold), C.Icmp) == EchoRequests(run)
    ensures Moved(Events(run, window, threshold), C.Ssh) == AlertsDue(SightingsOf(run))
  {
    hide EventsOf, SshAfter, ScanAfter, EchoRequest, InfoOf, Moves, Moved, AlertsDue;
    if run == [] {
      MovedNothing();
    } else {
      var n := |run| - 1;
      var ssh, scan := SightingsOf(run[..n]), SynsOf(run[..n]);
      CountersCountTheRun(run[..n], window, threshold);
      PacketMoves(run[n], ssh, scan, window, threshold);
      var last := EventsOf(InfoOf(run[n]), ssh, scan, run[n].at, run[n].at, window, threshold);
      MovedConcat(Events(run[..n], window, threshold), last, C.Icmp);
      MovedConcat(Events(run[..n], window, threshold), last, C.Ssh);
    }
  }

  lemma MovedNothing()
    ensures Moved([], C.Icmp) == Moved([], C.Ssh) == 0 && AlertsDue([]) == 0
  {
  }
}

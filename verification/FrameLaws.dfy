/** What the program does with a captured frame, said of the frame. */
module FrameLaws {
  import opened LedActions
  import opened NetTypes
  import opened Packets
  import opened RulesEngine
  import opened ScanDetector
  import opened Pipeline
  import opened Serializer
  import opened Acceptance
  import opened PipelineRuns
  import D = SshDedup
  import H = ScanHistory
  import T = ScanTable
  import P = Parser
  import L = ParserLaws

  // ----- Which event a frame is -----

  /** The event kind of a frame; other Ethernet payloads are no event. */
  function KindOf(n: Network): Option<EventKind> {
    match n
    case Arp(_, _) => Some(KindArp)
    case Ip(_, Tcp(_)) => Some(KindTcp)
    case Ip(_, Udp(_)) => Some(KindUdp)
    case Ip(_, Icmp(_)) => Some(KindIcmp)
    case Ip(_, OpaqueIp(_, _)) => Some(KindIpv4Protocol)
    case OpaqueNetwork(etherType, _) => if etherType == 0x86DD then Some(KindIpv6Observed) else None
  }

  /** An initial SYN to port 22. */
  predicate SshFrame(f: Frame) {
    SynFrame(f) && f.network.transport.tcp.dstPort == 22
  }

  /** An ICMP Echo Request. */
  predicate EchoFrame(f: Frame) {
    f.network.Ip? && f.network.transport.Icmp? && f.network.transport.icmp.kind == 8
  }

  /** The event of a frame before repeated SSH SYNs are demoted. */
  predicate IsEventOf(e: Event, f: Frame, p: PacketInfo) {
    && Some(e.kind) == KindOf(f.network) && e.packet == p
    && (e.severity == Alarm <==> SshFrame(f))
    && e.ledAction == (if SshFrame(f) then LedLong else if EchoFrame(f) then LedShort else LedNone)
    && e.scanUniquePorts == 0 && e.scanWindowSeconds == 0
  }

  /** What the rules look at in the parse of a frame. */
  predicate Matches(p: PacketInfo, f: Frame) {
    && !p.malformed && !p.truncated
    && (p.hasArp <==> f.network.Arp?)
    && (p.isIpv6Observed <==> f.network.OpaqueNetwork? && f.network.etherType == 0x86DD)
    && (p.hasIpv4 <==> f.network.Ip?)
    && (p.hasIcmp <==> f.network.Ip? && f.network.transport.Icmp?)
    && (p.hasUdp <==> f.network.Ip? && f.network.transport.Udp?)
    && (p.hasTcp <==> f.network.Ip? && f.network.transport.Tcp?)
    && (p.hasIcmp ==> p.icmpType == f.network.transport.icmp.kind)
    && (p.hasTcp ==> p.dstPort == f.network.transport.tcp.dstPort)
    && (p.hasTcp ==> p.tcpFlags == ControlByte(f.network.transport.tcp.control))
  }

  lemma SeenMatches(f: Frame, wire: nat)
    requires Valid(f)
    ensures Matches(Seen(f, wire), f)
  {
    hide InPieces, TcpService, UdpService, Bytes, EtherTypeOf, ControlByte;
  }

  lemma MatchIsClassified(f: Frame, p: PacketInfo)
    requires Matches(p, f)
    ensures Classified(p).Some? <==> KindOf(f.network).Some?
    ensures Classified(p).Some? ==> IsEventOf(Classified(p).value, f, p)
    ensures ConsultsTable(p) <==> SshFrame(f)
  {
    hide InitialSyn, ControlByte;
    if p.hasTcp {
      InitialSynBits(f.network.transport.tcp.control);
    }
  }

  /** The rules report a capture exactly when its bytes are a frame of a kind that is an event, and
      the event is that of the frame; they consult the SSH table exactly for initial SYNs to port
      22. */
  lemma ReportedIffEventFrame(c: seq<byte>, wire: nat)
    ensures var p := P.Parsed(c, wire);
            && (Classified(p).Some? <==> exists f: Frame :: Writes(f, c) && KindOf(f.network).Some?)
            && (ConsultsTable(p) <==> exists f: Frame :: Writes(f, c) && SshFrame(f))
            && forall f: Frame :: Writes(f, c) ==>
                 && (Classified(p).Some? ==> IsEventOf(Classified(p).value, f, p))
                 && (Classified(p).Some? <==> KindOf(f.network).Some?)
                 && (ConsultsTable(p) <==> SshFrame(f))
  {
    var p := P.Parsed(c, wire);
    hide P.Parsed, Accepted, Seen, Valid, Bytes, Classified, ConsultsTable, SshFrame, IsEventOf, KindOf, Matches;
    AcceptsExactlyFrames(c, wire);
    L.EveryParseIsConsistent(c, wire);
    forall f: Frame | Writes(f, c)
      ensures Classified(p).Some? <==> KindOf(f.network).Some?
      ensures Classified(p).Some? ==> IsEventOf(Classified(p).value, f, p)
      ensures ConsultsTable(p) <==> SshFrame(f)
    {
      WritesValid(f, c);
      SeenMatches(f, wire);
      MatchIsClassified(f, p);
    }
    if Accepted(p) {
      var f: Frame :| Writes(f, c);
      assert Writes(f, c) && (Classified(p).Some? <==> KindOf(f.network).Some?);
    } else {
      RejectedIsIgnored(p);
    }
  }

  // ----- Which SSH SYNs repeat each other -----

  /** Two initial SYNs to port 22 with the same hosts, ports and sequence number. */
  predicate SameAttempt(f: Frame, g: Frame) {
    && SshFrame(f) && SshFrame(g)
    && f.network.header.src == g.network.header.src && f.network.header.dst == g.network.header.dst
    && f.network.transport.tcp.srcPort == g.network.transport.tcp.srcPort
    && f.network.transport.tcp.dstPort == g.network.transport.tcp.dstPort
    && f.network.transport.tcp.sequence == g.network.transport.tcp.sequence
  }

  lemma SeenKey(f: Frame, wire: nat)
    requires Valid(f) && SshFrame(f)
    ensures KeyOf(Seen(f, wire)).src == f.network.header.src && KeyOf(Seen(f, wire)).dst == f.network.header.dst
    ensures KeyOf(Seen(f, wire)).srcPort == f.network.transport.tcp.srcPort
    ensures KeyOf(Seen(f, wire)).dstPort == f.network.transport.tcp.dstPort
    ensures KeyOf(Seen(f, wire)).sequence == f.network.transport.tcp.sequence
  {
    hide InPieces, TcpService, UdpService, Bytes, EtherTypeOf, ControlByte;
  }

  /** Two SSH SYNs have the same key exactly when their frames agree in the five fields. */
  lemma SameKeyIffSameAttempt(a: Capture, b: Capture, f: Frame, g: Frame)
    requires Writes(f, a.bytes) && Writes(g, b.bytes) && SshFrame(f) && SshFrame(g)
    ensures KeyOf(InfoOf(a)) == KeyOf(InfoOf(b)) <==> SameAttempt(f, g)
  {
    hide P.Parsed, Seen, Valid, Bytes, KeyOf, Accepted;
    AcceptsExactlyFrames(a.bytes, a.wire);
    AcceptsExactlyFrames(b.bytes, b.wire);
    WritesValid(f, a.bytes);
    WritesValid(g, b.bytes);
    SeenKey(f, a.wire);
    SeenKey(g, b.wire);
  }

  // ----- SSH alerts over a run -----

  /** Captures are processed in the order of their times. */
  predicate InOrderOfTime(run: seq<Capture>) {
    forall i, j :: 0 <= i < j < |run| ==> run[i].at <= run[j].at
  }

  predicate Sights(c: Capture, key: D.Key) {
    ConsultsTable(InfoOf(c)) && KeyOf(InfoOf(c)) == key
  }

  predicate SightsAt(run: seq<Capture>, i: nat, key: D.Key) {
    i < |run| && Sights(run[i], key)
  }

  /** The table's last sighting of a key is the latest capture that carries it. */
  ghost predicate IsLastSighting(run: seq<Capture>, key: D.Key, last: Option<nat>) {
    && (forall i: nat :: SightsAt(run, i, key) ==> last.Some? && run[i].at <= last.value)
    && (last.Some? ==> exists i: nat :: SightsAt(run, i, key) && run[i].at == last.value)
  }

  lemma {:induction false} LastSightingIsCaptured(run: seq<Capture>, key: D.Key)
    requires InOrderOfTime(run)
    ensures IsLastSighting(run, key, D.LastSighting(SightingsOf(run), key))
  {
    hide ConsultsTable, InfoOf, KeyOf;
    if run != [] {
      var n := |run| - 1;
      LastSightingIsCaptured(run[..n], key);
      SightingGrows(SightingsOf(run[..n]), run[n], key);
      assert forall i: nat :: i < n ==> (SightsAt(run, i, key) <==> SightsAt(run[..n], i, key));
      var last := D.LastSighting(SightingsOf(run[..n]), key);
      if SightsAt(run, n, key) {
        assert D.LastSighting(SightingsOf(run), key) == Some(run[n].at);
      } else {
        assert D.LastSighting(SightingsOf(run), key) == last;
        if last.Some? {
          var i: nat :| SightsAt(run[..n], i, key) && run[..n][i].at == last.value;
          assert SightsAt(run, i, key) && run[i].at == last.value;
        }
      }
    }
  }

  lemma SightingGrows(h: seq<D.Sighting>, c: Capture, key: D.Key)
    ensures var p := InfoOf(c);
            D.LastSighting(SshAfter(h, p, c.at), key)
            == if ConsultsTable(p) && KeyOf(p) == key then Some(c.at) else D.LastSighting(h, key)
  {
    hide ConsultsTable, InfoOf, KeyOf;
    var p := InfoOf(c);
    assert (h + [D.Sighting(KeyOf(p), c.at)])[..|h|] == h;
  }

  /** The newest capture of a run is reported as an SSH alert. */
  ghost predicate RaisesSshAlert(run: seq<Capture>)
    requires run != []
  {
    var c := run[|run| - 1];
    exists e :: e in PacketEvents(InfoOf(c), c.at, SightingsOf(run))
                && e.kind == KindTcp && e.severity == Alarm && e.ledAction == LedLong
  }

  /** No earlier capture of the last 5 seconds carries the same attempt as `f`, which the newest
      capture carries. */
  ghost predicate IsNewAttempt(run: seq<Capture>, f: Frame)
    requires run != []
  {
    && Writes(f, run[|run| - 1].bytes) && SshFrame(f)
    && forall i: nat, g: Frame :: i < |run| - 1 && Writes(g, run[i].bytes) && SameAttempt(f, g) ==>
         run[|run| - 1].at - run[i].at > 5
  }

  lemma CarriesIffSights(b: Capture, f: Frame, c: Capture)
    requires Writes(f, c.bytes) && SshFrame(f)
    ensures Sights(b, KeyOf(InfoOf(c))) <==> exists g: Frame :: Writes(g, b.bytes) && SameAttempt(f, g)
  {
    hide P.Parsed, Classified, ConsultsTable, KeyOf, Bytes, Valid, Writes;
    ReportedIffEventFrame(b.bytes, b.wire);
    forall g: Frame | Writes(g, b.bytes) && SshFrame(g)
      ensures KeyOf(InfoOf(c)) == KeyOf(InfoOf(b)) <==> SameAttempt(f, g)
    {
      SameKeyIffSameAttempt(c, b, f, g);
    }
    if ConsultsTable(InfoOf(b)) {
      var g: Frame :| Writes(g, b.bytes) && SshFrame(g);
    }
  }

  /** No earlier capture of the last 5 seconds has this key. */
  ghost predicate Unsighted(run: seq<Capture>, key: D.Key)
    requires run != []
  {
    forall i: nat :: i < |run| - 1 && Sights(run[i], key) ==> run[|run| - 1].at - run[i].at > 5
  }

  lemma DueIffUnsighted(run: seq<Capture>, key: D.Key)
    requires run != [] && InOrderOfTime(run) && Sights(run[|run| - 1], key)
    ensures SightingsOf(run) != [] && (D.AlertDue(SightingsOf(run)) <==> Unsighted(run, key))
  {
    hide ConsultsTable, KeyOf, InfoOf;
    var n := |run| - 1;
    var h := SightingsOf(run[..n]);
    assert SightingsOf(run) == h + [D.Sighting(key, run[n].at)];
    assert SightingsOf(run)[..|h|] == h;
    LastSightingIsCaptured(run[..n], key);
    LastIffUnsighted(run, key, D.LastSighting(h, key));
  }

  lemma LastIffUnsighted(run: seq<Capture>, key: D.Key, last: Option<nat>)
    requires run != [] && IsLastSighting(run[..|run| - 1], key, last)
    ensures (last.None? || run[|run| - 1].at - last.value > 5) <==> Unsighted(run, key)
  {
    hide Sights;
    assert forall i: nat :: i < |run| - 1 ==> (SightsAt(run[..|run| - 1], i, key) <==> Sights(run[i], key));
  }

  lemma NewIffUnsighted(run: seq<Capture>, f: Frame)
    requires run != [] && Writes(f, run[|run| - 1].bytes) && SshFrame(f)
    ensures Unsighted(run, KeyOf(InfoOf(run[|run| - 1]))) <==> IsNewAttempt(run, f)
  {
    hide P.Parsed, KeyOf, Writes, SshFrame, SameAttempt, InfoOf, Sights;
    forall i: nat | i < |run| - 1
      ensures Sights(run[i], KeyOf(InfoOf(run[|run| - 1])))
         <==> exists g: Frame :: Writes(g, run[i].bytes) && SameAttempt(f, g)
    {
      CarriesIffSights(run[i], f, run[|run| - 1]);
    }
  }

  lemma NewIffDue(run: seq<Capture>, f: Frame)
    requires run != [] && InOrderOfTime(run) && Writes(f, run[|run| - 1].bytes) && SshFrame(f)
    ensures ConsultsTable(InfoOf(run[|run| - 1])) && SightingsOf(run) != []
    ensures D.AlertDue(SightingsOf(run)) <==> IsNewAttempt(run, f)
  {
    hide ConsultsTable, KeyOf, Writes, SshFrame, InfoOf, InOrderOfTime, SightingsOf, D.AlertDue, IsNewAttempt,
      Unsighted;
    ConsultedFor(f, run[|run| - 1]);
    DueIffUnsighted(run, KeyOf(InfoOf(run[|run| - 1])));
    NewIffUnsighted(run, f);
  }

  lemma ConsultedFor(f: Frame, c: Capture)
    requires Writes(f, c.bytes) && SshFrame(f)
    ensures ConsultsTable(InfoOf(c))
  {
    hide P.Parsed, Classified, ConsultsTable, Bytes, Valid;
    ReportedIffEventFrame(c.bytes, c.wire);
  }

  lemma AlarmIffDue(p: PacketInfo, at: nat, ssh: seq<D.Sighting>)
    requires ConsultsTable(p) ==> ssh != []
    ensures (exists e :: && e in PacketEvents(p, at, ssh)
                         && e.kind == KindTcp && e.severity == Alarm && e.ledAction == LedLong)
        <==> ConsultsTable(p) && D.AlertDue(ssh)
  {
    hide InitialSyn, D.AlertDue;
    if ConsultsTable(p) && D.AlertDue(ssh) {
      assert Classified(p).value in PacketEvents(p, at, ssh);
    }
  }

  lemma SightingsStart(run: seq<Capture>)
    requires run != [] && ConsultsTable(InfoOf(run[|run| - 1]))
    ensures SightingsOf(run) != []
  {
    hide ConsultsTable, InfoOf, KeyOf;
  }

  /** Over any run, a capture raises the SSH alert if and only if its bytes are a frame with an
      initial SYN to port 22 and no capture of the 5 seconds before it carries a frame with the
      same two addresses, two ports and sequence number. */
  lemma SshAlertIffNewAttempt(run: seq<Capture>)
    requires run != [] && InOrderOfTime(run)
    ensures RaisesSshAlert(run) <==> exists f: Frame :: IsNewAttempt(run, f)
  {
    var c := run[|run| - 1];
    hide P.Parsed, Classified, ConsultsTable, Bytes, Valid, PacketEvents, D.AlertDue;
    ReportedIffEventFrame(c.bytes, c.wire);
    if ConsultsTable(InfoOf(c)) {
      SightingsStart(run);
    }
    AlarmIffDue(InfoOf(c), c.at, SightingsOf(run));
    forall f: Frame | Writes(f, c.bytes) && SshFrame(f)
      ensures ConsultsTable(InfoOf(c)) && (D.AlertDue(SightingsOf(run)) <==> IsNewAttempt(run, f))
    {
      NewIffDue(run, f);
    }
  }

  // ----- What a packet adds to the LED queue -----

  /** An action joins the queue unless 32 are waiting. */
  function Joined(queue: seq<LedAction>, a: LedAction): seq<LedAction> {
    if |queue| >= 32 then queue else queue + [a]
  }

  lemma LitByOne(queue: seq<LedAction>, e: Event)
    ensures Lit(queue, [e]) == if e.ledAction == LedNone then queue else Joined(queue, e.ledAction)
  {
    assert [e][1..] == [];
  }

  /** An accepted Echo Request adds a short blink, an SSH SYN that is no repeat a long one, a
      port-scan alert a rapid one behind it, and nothing else adds anything. */
  lemma PacketLights(c: Capture, ssh: seq<D.Sighting>, scan: seq<T.Syn>, window: u32, threshold: nat,
                     queue: seq<LedAction>)
    ensures var p := InfoOf(c);
            var due := ConsultsTable(p) && D.AlertDue(SshAfter(ssh, p, c.at));
            var first := if EchoRequest(p) then Joined(queue, LedShort)
                         else if due then Joined(queue, LedLong) else queue;
            Lit(queue, EventsOf(p, ssh, scan, c.at, c.at, window, threshold))
            == if Qualifies(p) && H.AlertDue(ScanAfter(scan, p, c.at), window, threshold).Some?
               then Joined(first, LedRapid) else first
  {
    var p := InfoOf(c);
    var own := PacketEvents(p, c.at, SshAfter(ssh, p, c.at));
    var scans := ScanEvents(p, c.at, ScanAfter(scan, p, c.at), window, threshold);
    InfoIsConsistent(c);
    ScansAreReported(p, c.at, scan, window, threshold);
    OwnLights(p, c.at, SshAfter(ssh, p, c.at), queue);
    hide Lit, Joined, InfoOf, ConsultsTable, Qualifies, EchoRequest, D.AlertDue, H.AlertDue, PacketEvents,
      ScanEvents, L.Consistent;
    LitTwice(queue, own, scans);
    LitByNothing(Lit(queue, own));
    if scans != [] {
      assert scans == [scans[0]];
      assert ReportsScan(scans[0], p.srcIpv4, ScanAfter(scan, p, c.at), c.at, window);
      LitByOne(Lit(queue, own), scans[0]);
    }
  }

  lemma OwnLights(p: PacketInfo, at: nat, ssh: seq<D.Sighting>, queue: seq<LedAction>)
    requires L.Consistent(p) && (ConsultsTable(p) ==> ssh != [])
    ensures |PacketEvents(p, at, ssh)| <= 1
    ensures Lit(queue, PacketEvents(p, at, ssh))
         == if EchoRequest(p) then Joined(queue, LedShort)
            else if ConsultsTable(p) && D.AlertDue(ssh) then Joined(queue, LedLong) else queue
  {
    hide Lit, Joined, InitialSyn, D.AlertDue;
    LitByNothing(queue);
    if PacketEvents(p, at, ssh) != [] {
      LitByOne(queue, PacketEvents(p, at, ssh)[0]);
      assert PacketEvents(p, at, ssh) == [PacketEvents(p, at, ssh)[0]];
    }
  }
}

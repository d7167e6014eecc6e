/** One packet through the whole program: parse, rules, LED, port-scan detector. */
module Pipeline {
  import opened LedActions
  import opened NetTypes
  import opened Packets
  import opened RulesEngine
  import opened ScanDetector
  import opened LedQueue
  import D = SshDedup
  import H = ScanHistory
  import T = ScanTable
  import P = Parser

  // ----- What one packet does to the two histories -----

  function SshAfter(h: seq<D.Sighting>, p: PacketInfo, clock: int): seq<D.Sighting>
    requires clock >= -1
  {
    if ConsultsTable(p) && clock != -1 then h + [D.Sighting(KeyOf(p), clock)] else h
  }

  function ScanAfter(h: seq<T.Syn>, p: PacketInfo, clock: int): seq<T.Syn>
    requires clock >= -1
  {
    if Qualifies(p) && clock != -1 then h + [T.Syn(p.srcIpv4, p.dstPort, clock)] else h
  }

  /** The packet's own event; `ssh` is the history with this packet. */
  function PacketEvents(p: PacketInfo, clock: int, ssh: seq<D.Sighting>): seq<Event>
    requires ConsultsTable(p) && clock != -1 ==> ssh != []
  {
    if ConsultsTable(p) && clock != -1 && !D.AlertDue(ssh) then [PacketEvent(p, KindTcp, Info, LedNone)]
    else if Classified(p).Some? then [Classified(p).value] else []
  }

  /** The packet's own event carries the packet and is never a scan report. */
  lemma OwnEventsCarryThePacket(p: PacketInfo, clock: int, ssh: seq<D.Sighting>)
    requires ConsultsTable(p) && clock != -1 ==> ssh != []
    ensures forall e :: e in PacketEvents(p, clock, ssh) ==> e.packet == p && e.kind != KindPortScan
  {
    hide InitialSyn;
  }

  /** The port-scan event; `scan` is the history with this packet. */
  function ScanEvents(p: PacketInfo, clock: int, scan: seq<T.Syn>, window: u32, threshold: nat): seq<Event>
    requires Qualifies(p) && clock != -1 ==> scan != []
  {
    if Qualifies(p) && clock != -1 && H.AlertDue(scan, window, threshold).Some? then
      var a := H.AlertDue(scan, window, threshold).value;
      [ScanEvent(a.src, a.uniquePorts, a.windowSeconds)]
    else []
  }

  /** A port-scan alert as it is reported: source, distinct ports in the window, window length. */
  ghost predicate ReportsScan(e: Event, src: Ipv4, h: seq<T.Syn>, now: int, window: nat) {
    && e.kind == KindPortScan && e.severity == Alarm && e.ledAction == LedRapid
    && e.packet.hasIpv4 && e.packet.srcIpv4 == src
    && e.scanUniquePorts == |H.WindowPorts(h, src, now, window)| && e.scanWindowSeconds == window
  }

  /** A packet is reported as a scan at most once, exactly when the history with it calls for an
      alert, and the report says how many ports its source touched in how many seconds. */
  lemma ScansAreReported(p: PacketInfo, clock: int, before: seq<T.Syn>, window: u32, threshold: nat)
    requires clock >= -1
    ensures var h := ScanAfter(before, p, clock);
            var events := ScanEvents(p, clock, h, window, threshold);
            && |events| == (if Qualifies(p) && clock != -1 && H.AlertDue(h, window, threshold).Some? then 1 else 0)
            && forall e :: e in events ==> ReportsScan(e, p.srcIpv4, h, clock, window)
  {
    hide H.WindowPorts, H.LastAlert, Qualifies;
  }

  /** Every event carries the packet or reports its source as scanning. */
  ghost predicate Reported(events: seq<Event>, p: PacketInfo, h: seq<T.Syn>, now: int, window: nat) {
    forall e :: e in events ==>
      if e.kind == KindPortScan then ReportsScan(e, p.srcIpv4, h, now, window) else e.packet == p
  }

  lemma BothAreReported(own: seq<Event>, scans: seq<Event>, p: PacketInfo, h: seq<T.Syn>, now: int, window: nat)
    requires forall e :: e in own ==> e.packet == p && e.kind != KindPortScan
    requires forall e :: e in scans ==> ReportsScan(e, p.srcIpv4, h, now, window)
    ensures Reported(own + scans, p, h, now, window)
  {
    hide H.WindowPorts;
  }

  function EventsOf(p: PacketInfo, ssh: seq<D.Sighting>, scan: seq<T.Syn>, ruleClock: int, scanClock: int,
                    window: u32, threshold: nat): seq<Event>
    requires ruleClock >= -1 && scanClock >= -1
  {
    PacketEvents(p, ruleClock, SshAfter(ssh, p, ruleClock))
    + ScanEvents(p, scanClock, ScanAfter(scan, p, scanClock), window, threshold)
  }

  /** The LED queue after the actions of some events: no action and a full queue add nothing. */
  function Lit(queue: seq<LedAction>, events: seq<Event>): seq<LedAction>
    decreases |events|
  {
    if events == [] then queue
    else
      var a := events[0].ledAction;
      Lit(if a != LedNone && |queue| < 32 then queue + [a] else queue, events[1..])
  }

  lemma LitTwice(queue: seq<LedAction>, a: seq<Event>, b: seq<Event>)
    requires |a| <= 1
    ensures Lit(Lit(queue, a), b) == Lit(queue, a + b)
  {
    if a == [] {
      assert a + b == b;
    } else {
      assert (a + b)[1..] == b && a[1..] == [];
    }
  }

  lemma LitByNothing(queue: seq<LedAction>)
    ensures Lit(queue, []) == queue
  {
  }

  lemma ClassifiedWhenConsulted(p: PacketInfo)
    ensures ConsultsTable(p) ==> Classified(p).Some?
  {
  }

  class Context {
    const rules: Engine
    const detector: Detector
    const led: Queue
    const ledAvailable: bool

    ghost predicate Valid()
      reads this, rules, rules.nodes, detector, detector.sources, led, led.queue
    {
      rules.Valid() && detector.Valid() && led.Valid()
    }

    constructor (window: u32, threshold: nat, ledAvailable: bool)
      ensures Valid() && fresh(rules) && fresh(detector) && fresh(led)
      ensures rules.history == [] && detector.history == [] && Contents(led.View()) == []
    {
      rules := new Engine();
      detector := new Detector(window, threshold);
      led := new Queue();
      this.ledAvailable := ledAvailable;
    }

    /** `led_controller_enqueue` */
    method Light(event: Event)
      requires led.Valid()
      modifies led, led.queue
      ensures led.Valid()
      ensures Contents(led.View())
              == if ledAvailable then Lit(old(Contents(led.View())), [event]) else old(Contents(led.View()))
    {
      hide Contents, Pushed;
      assert [event][1..] == [];
      if !ledAvailable || event.ledAction == LedNone {
        return;
      }
      var accepted := led.Enqueue(event.ledAction);
    }

    /** The first decision layer: the packet's own event. */
    method Decide(p: PacketInfo, clock: int) returns (events: seq<Event>)
      requires rules.Valid() && led.Valid()
      requires clock == -1 || (D.Now(rules.history) <= clock < U32_LIMIT)
      modifies rules, rules.nodes, led, led.queue
      ensures rules.Valid() && led.Valid()
      ensures forall n :: n in rules.nodes ==> n in old(rules.nodes) || fresh(n)
      ensures rules.history == SshAfter(old(rules.history), p, clock)
      ensures events == PacketEvents(p, clock, rules.history) && |events| <= 1
      ensures forall e :: e in events ==> e.packet == p && e.kind != KindPortScan
      ensures Contents(led.View())
              == if ledAvailable then Lit(old(Contents(led.View())), events) else old(Contents(led.View()))
    {
      hide D.AlertDue, Contents, Lit, Linked, Attempts, D.TableAfter;
      ClassifiedWhenConsulted(p);
      hide Classified, ConsultsTable;
      var event := rules.EvaluatePacket(p, clock);
      OwnEventsCarryThePacket(p, clock, rules.history);
      if event.Some? {
        Light(event.value);
        events := [event.value];
      } else {
        events := [];
        LitByNothing(Contents(led.View()));
      }
    }

    /** The second decision layer: the port-scan alert. */
    method Detect(p: PacketInfo, clock: int) returns (events: seq<Event>)
      requires detector.Valid() && led.Valid() && detector.revision < U64_MAX
      requires clock == -1 || (H.Now(detector.history) <= clock < U32_LIMIT)
      modifies detector, detector.sources, led, led.queue
      ensures detector.Valid() && led.Valid()
      ensures forall s :: s in detector.sources ==> s in old(detector.sources) || fresh(s)
      ensures detector.history == ScanAfter(old(detector.history), p, clock)
      ensures events == ScanEvents(p, clock, detector.history, detector.windowSeconds, detector.threshold)
      ensures forall e :: e in events ==> ReportsScan(e, p.srcIpv4, detector.history, clock, detector.windowSeconds)
      ensures Contents(led.View())
              == if ledAvailable then Lit(old(Contents(led.View())), events) else old(Contents(led.View()))
    {
      hide H.AlertDue, H.TableAfter, Contents, Lit, Qualifies, Apart, ReportsScan;
      ScansAreReported(p, clock, detector.history, detector.windowSeconds, detector.threshold);
      var alert := detector.ObserveAt(p, clock);
      if alert.Some? {
        var event := ScanEvent(alert.value.src, alert.value.uniquePorts, alert.value.windowSeconds);
        Light(event);
        events := [event];
      } else {
        events := [];
        LitByNothing(Contents(led.View()));
      }
    }

    /** `process_packet`. The two clock readings are those of the rules and of the detector; the
        result is what went to the logger and the display counters, in order. */
    method ProcessPacket(packet: seq<byte>, wireLength: nat, ruleClock: int, scanClock: int)
      returns (events: seq<Event>)
      requires Valid() && detector.revision < U64_MAX
      requires ruleClock == -1 || (D.Now(rules.history) <= ruleClock < U32_LIMIT)
      requires scanClock == -1 || (H.Now(detector.history) <= scanClock < U32_LIMIT)
      modifies rules, rules.nodes, detector, detector.sources, led, led.queue
      ensures Valid()
      ensures var p := P.Parsed(packet, wireLength);
              && rules.history == SshAfter(old(rules.history), p, ruleClock)
              && detector.history == ScanAfter(old(detector.history), p, scanClock)
              && events == EventsOf(p, old(rules.history), old(detector.history), ruleClock, scanClock,
                                    detector.windowSeconds, detector.threshold)
      ensures Reported(events, P.Parsed(packet, wireLength), detector.history, scanClock, detector.windowSeconds)
      ensures Contents(led.View())
              == if ledAvailable then Lit(old(Contents(led.View())), events) else old(Contents(led.View()))
    {
      hide P.Parsed, D.AlertDue, H.AlertDue, Classified, ConsultsTable, Qualifies, Contents, Lit, PacketEvents,
        ScanEvents, ReportsScan, Reported, Linked, Attempts, D.TableAfter, H.TableAfter, RingValid, Apart, D.Timely,
        H.Timely, SshAfter, ScanAfter;
      var parse := new P.Parse();
      var ok := parse.ParsePacket(packet, wireLength);
      var p := parse.info;
      var first := Decide(p, ruleClock);
      var second := Detect(p, scanClock);
      events := first + second;
      BothAreReported(first, second, p, detector.history, scanClock, detector.windowSeconds);
      LitTwice(old(Contents(led.View())), first, second);
    }
  }
}

/** The port-scan detector's nested lists as values, and what one observation does to them. */
module ScanTable {
  import opened NetTypes

  datatype PortEntry = PortEntry(port: u16, seenAt: nat)
  datatype Bucket = Bucket(src: Ipv4, lastSeenAt: nat, lastAlertAt: nat, ports: seq<PortEntry>)
  datatype Alert = Alert(src: Ipv4, uniquePorts: nat, windowSeconds: u32)
  datatype Syn = Syn(src: Ipv4, port: u16, at: nat)

  predicate Live(now: int, seenAt: int, window: int) {
    now - seenAt <= window
  }

  function Pruned(ports: seq<PortEntry>, now: int, window: int): seq<PortEntry> {
    if ports == [] then []
    else if Live(now, ports[0].seenAt, window) then [ports[0]] + Pruned(ports[1..], now, window)
    else Pruned(ports[1..], now, window)
  }

  /** Position of `port`, or the length when it is absent. */
  function IndexOf(ports: seq<PortEntry>, port: u16): (i: nat)
    ensures i <= |ports|
    ensures i < |ports| ==> ports[i].port == port
    ensures forall j :: 0 <= j < i ==> ports[j].port != port
  {
    if ports == [] || ports[0].port == port then 0 else 1 + IndexOf(ports[1..], port)
  }

  function Upserted(ports: seq<PortEntry>, port: u16, now: nat): seq<PortEntry> {
    var i := IndexOf(ports, port);
    if i < |ports| then ports[i := PortEntry(port, now)] else [PortEntry(port, now)] + ports
  }

  /** The three conditions under which a bucket is dropped. */
  predicate Idle(b: Bucket, now: int, window: int) {
    b.ports == [] && now - b.lastSeenAt > window && now - b.lastAlertAt > window
  }

  function PrunedBucket(b: Bucket, now: int, window: int): Bucket {
    b.(ports := Pruned(b.ports, now, window))
  }

  function PrunedTable(table: seq<Bucket>, now: int, window: int): seq<Bucket> {
    if table == [] then []
    else
      var b := PrunedBucket(table[0], now, window);
      (if Idle(b, now, window) then [] else [b]) + PrunedTable(table[1..], now, window)
  }

  /** Position of the bucket of `src`, or the length when there is none. */
  function FindSource(table: seq<Bucket>, src: Ipv4): (i: nat)
    ensures i <= |table|
    ensures i < |table| ==> table[i].src == src
    ensures forall j :: 0 <= j < i ==> table[j].src != src
  {
    if table == [] || table[0].src == src then 0 else 1 + FindSource(table[1..], src)
  }

  function Opened(table: seq<Bucket>, src: Ipv4): (r: seq<Bucket>)
    ensures FindSource(r, src) < |r|
  {
    if FindSource(table, src) < |table| then table else [Bucket(src, 0, 0, [])] + table
  }

  /** The bucket of the observed source once its port has been recorded. */
  function Visited(b: Bucket, syn: Syn, window: int): Bucket {
    Bucket(b.src, syn.at, b.lastAlertAt, Upserted(Pruned(b.ports, syn.at, window), syn.port, syn.at))
  }

  predicate Alarms(b: Bucket, now: nat, window: int, threshold: nat) {
    threshold <= |b.ports| && now - b.lastAlertAt > window
  }

  datatype Outcome = Outcome(table: seq<Bucket>, alert: Option<Alert>)

  /** One qualifying observation: expire everywhere, record the port, maybe alert. */
  function Observed(table: seq<Bucket>, syn: Syn, window: u32, threshold: nat): Outcome {
    var wide := Opened(PrunedTable(table, syn.at, window), syn.src);
    var k := FindSource(wide, syn.src);
    var b := Visited(wide[k], syn, window);
    if Alarms(b, syn.at, window, threshold)
    then Outcome(wide[k := b.(lastAlertAt := syn.at)], Some(Alert(syn.src, |b.ports|, window)))
    else Outcome(wide[k := b], None)
  }

  // ----- Reading a table by source and port -----

  function SeenAt(ports: seq<PortEntry>, port: u16): Option<nat> {
    var i := IndexOf(ports, port);
    if i < |ports| then Some(ports[i].seenAt) else None
  }

  function PortsOf(table: seq<Bucket>, src: Ipv4): seq<PortEntry> {
    var i := FindSource(table, src);
    if i < |table| then table[i].ports else []
  }

  /** A source without a bucket reads as one that alerted at time 0, as a new bucket does. */
  function AlertedAt(table: seq<Bucket>, src: Ipv4): nat {
    var i := FindSource(table, src);
    if i < |table| then table[i].lastAlertAt else 0
  }

  predicate DistinctPorts(ports: seq<PortEntry>) {
    forall i, j :: 0 <= i < j < |ports| ==> ports[i].port != ports[j].port
  }

  /** Sources are pairwise distinct and no bucket holds a port twice. */
  predicate WellFormed(table: seq<Bucket>) {
    && (forall i, j :: 0 <= i < j < |table| ==> table[i].src != table[j].src)
    && (forall i :: 0 <= i < |table| ==> DistinctPorts(table[i].ports))
  }

  /** A bucket holds the port touched last, and nothing in it is later than that. */
  predicate Fresh(b: Bucket) {
    && (exists i :: 0 <= i < |b.ports| && b.ports[i].seenAt == b.lastSeenAt)
    && (forall i :: 0 <= i < |b.ports| ==> b.ports[i].seenAt <= b.lastSeenAt)
    && b.lastAlertAt <= b.lastSeenAt
  }

  predicate AllFresh(table: seq<Bucket>) {
    forall i :: 0 <= i < |table| ==> Fresh(table[i])
  }

  // ----- Lists of ports -----

  lemma {:induction false} PrunedMembers(ports: seq<PortEntry>, now: int, window: int)
    ensures forall e :: e in Pruned(ports, now, window) <==> e in ports && Live(now, e.seenAt, window)
  {
    if ports != [] {
      PrunedMembers(ports[1..], now, window);
      assert ports == [ports[0]] + ports[1..];
    }
  }

  lemma {:induction false} PrunedDistinct(ports: seq<PortEntry>, now: int, window: int)
    requires DistinctPorts(ports)
    ensures DistinctPorts(Pruned(ports, now, window))
  {
    if ports != [] {
      PrunedDistinct(ports[1..], now, window);
      PrunedMembers(ports[1..], now, window);
      var rest := Pruned(ports[1..], now, window);
      forall j | 0 <= j < |rest| ensures rest[j].port != ports[0].port {
        assert rest[j] in ports[1..];
      }
    }
  }

  lemma SeenIffMember(ports: seq<PortEntry>, port: u16)
    requires DistinctPorts(ports)
    ensures forall t: nat :: SeenAt(ports, port) == Some(t) <==> PortEntry(port, t) in ports
  {
    forall t: nat | PortEntry(port, t) in ports ensures SeenAt(ports, port) == Some(t) {
      var j :| 0 <= j < |ports| && ports[j] == PortEntry(port, t);
    }
  }

  /** Expiring a port list removes exactly the entries outside the window. */
  lemma PrunedSeen(ports: seq<PortEntry>, port: u16, now: int, window: int)
    requires DistinctPorts(ports)
    ensures SeenAt(Pruned(ports, now, window), port) == Clipped(SeenAt(ports, port), now, window)
  {
    PrunedMembers(ports, now, window);
    PrunedDistinct(ports, now, window);
    SeenIffMember(ports, port);
    SeenIffMember(Pruned(ports, now, window), port);
    if SeenAt(ports, port).Some? {
      assert PortEntry(port, SeenAt(ports, port).value) in ports;
    }
    if SeenAt(Pruned(ports, now, window), port).Some? {
      assert PortEntry(port, SeenAt(Pruned(ports, now, window), port).value) in ports;
    }
  }

  lemma UpsertedSeen(ports: seq<PortEntry>, touched: u16, now: nat, port: u16)
    requires DistinctPorts(ports)
    ensures DistinctPorts(Upserted(ports, touched, now))
    ensures SeenAt(Upserted(ports, touched, now), port) == if port == touched then Some(now) else SeenAt(ports, port)
  {
    var r := Upserted(ports, touched, now);
    SeenIffMember(ports, port);
    SeenIffMember(r, port);
    var k := IndexOf(ports, touched);
    assert r[if k < |ports| then k else 0] == PortEntry(touched, now);
    if SeenAt(ports, port).Some? && port != touched {
      var i := IndexOf(ports, port);
      assert r[if k < |ports| then i else i + 1] == ports[i];
    }
    if SeenAt(r, port).Some? && port != touched {
      var i := IndexOf(r, port);
      assert r[i] in ports;
    }
  }

  function Clipped(seen: Option<nat>, now: int, window: int): Option<nat> {
    if seen.Some? && Live(now, seen.value, window) then seen else None
  }

  // ----- Tables -----

  lemma {:induction false} PrunedTableSources(table: seq<Bucket>, now: int, window: int)
    ensures forall b :: b in PrunedTable(table, now, window) <==>
              exists c :: c in table && b == PrunedBucket(c, now, window) && !Idle(b, now, window)
  {
    if table != [] {
      PrunedTableSources(table[1..], now, window);
      assert table == [table[0]] + table[1..];
    }
  }

  lemma {:induction false} PrunedTableWellFormed(table: seq<Bucket>, now: int, window: int)
    requires WellFormed(table)
    ensures WellFormed(PrunedTable(table, now, window))
  {
    if table != [] {
      assert WellFormed(table[1..]);
      PrunedTableWellFormed(table[1..], now, window);
      PrunedTableSources(table[1..], now, window);
      PrunedDistinct(table[0].ports, now, window);
      var rest := PrunedTable(table[1..], now, window);
      forall j | 0 <= j < |rest| ensures rest[j].src != table[0].src {
        assert rest[j] in rest;
        var c :| c in table[1..] && rest[j] == PrunedBucket(c, now, window);
      }
    }
  }

  /** The bucket of a source is the only one with that address. */
  lemma FindsBucket(table: seq<Bucket>, b: Bucket)
    requires WellFormed(table) && b in table
    ensures FindSource(table, b.src) < |table| && table[FindSource(table, b.src)] == b
  {
    var i :| 0 <= i < |table| && table[i] == b;
  }

  /** Expiring a table treats each source on its own: the bucket of `src`, if any, is expired and
      then kept or dropped. */
  lemma PrunedTableLookup(table: seq<Bucket>, src: Ipv4, now: int, window: int)
    requires WellFormed(table)
    ensures WellFormed(PrunedTable(table, now, window))
    ensures var r := PrunedTable(table, now, window);
            var i, k := FindSource(table, src), FindSource(r, src);
            if i < |table| && !Idle(PrunedBucket(table[i], now, window), now, window)
            then k < |r| && r[k] == PrunedBucket(table[i], now, window)
            else k == |r|
  {
    PrunedTableSources(table, now, window);
    PrunedTableWellFormed(table, now, window);
    var r := PrunedTable(table, now, window);
    var i, k := FindSource(table, src), FindSource(r, src);
    if k < |r| {
      assert r[k] in r;
      var c :| c in table && r[k] == PrunedBucket(c, now, window) && !Idle(r[k], now, window);
      FindsBucket(table, c);
    } else if i < |table| && !Idle(PrunedBucket(table[i], now, window), now, window) {
      var b := PrunedBucket(table[i], now, window);
      assert b in r;
      FindsBucket(r, b);
    }
  }

  /** Dropping idle buckets loses no port: what remains for a source is its expired list. */
  lemma PrunedTablePorts(table: seq<Bucket>, src: Ipv4, now: int, window: int)
    requires WellFormed(table)
    ensures PortsOf(PrunedTable(table, now, window), src) == Pruned(PortsOf(table, src), now, window)
  {
    PrunedTableLookup(table, src, now, window);
  }

  /** Dropping a bucket forgets an alert time only when that alert left the window. */
  lemma PrunedTableAlerted(table: seq<Bucket>, src: Ipv4, now: int, window: int)
    requires WellFormed(table)
    ensures var kept := AlertedAt(PrunedTable(table, now, window), src);
            kept == AlertedAt(table, src) || (kept == 0 && now - AlertedAt(table, src) > window)
  {
    PrunedTableLookup(table, src, now, window);
  }

  /** In a table the detector can reach, a bucket whose list runs empty is idle on all three
      counts, so comparing `last_seen_at` and `last_alert_at` as well decides nothing. */
  lemma DropNeedsOnlyEmptyList(b: Bucket, now: int, window: int)
    requires Fresh(b)
    ensures Idle(PrunedBucket(b, now, window), now, window) <==> Pruned(b.ports, now, window) == []
  {
    PrunedMembers(b.ports, now, window);
    var i :| 0 <= i < |b.ports| && b.ports[i].seenAt == b.lastSeenAt;
    assert b.ports[i] in Pruned(b.ports, now, window) <==> Live(now, b.lastSeenAt, window);
  }

  lemma PrunedBucketFresh(b: Bucket, now: int, window: int)
    requires Fresh(b) && !Idle(PrunedBucket(b, now, window), now, window)
    ensures Fresh(PrunedBucket(b, now, window))
  {
    DropNeedsOnlyEmptyList(b, now, window);
    PrunedMembers(b.ports, now, window);
    var p := PrunedBucket(b, now, window);
    assert p.ports[0] in b.ports;
    var i :| 0 <= i < |b.ports| && b.ports[i].seenAt == b.lastSeenAt;
    assert b.ports[i] in p.ports;
    forall k | 0 <= k < |p.ports| ensures p.ports[k].seenAt <= p.lastSeenAt {
      assert p.ports[k] in b.ports;
    }
  }

  lemma PrunedTableFresh(table: seq<Bucket>, now: int, window: int)
    requires AllFresh(table)
    ensures AllFresh(PrunedTable(table, now, window))
  {
    var r := PrunedTable(table, now, window);
    PrunedTableSources(table, now, window);
    forall i | 0 <= i < |r| ensures Fresh(r[i]) {
      assert r[i] in r;
      var c :| c in table && r[i] == PrunedBucket(c, now, window) && !Idle(r[i], now, window);
      PrunedBucketFresh(c, now, window);
    }
  }

  /** After every source was expired, expiring the observed source again changes nothing. */
  lemma SecondPruneIsIdle(table: seq<Bucket>, now: int, window: int)
    ensures forall b :: b in PrunedTable(table, now, window) ==> Pruned(b.ports, now, window) == b.ports
  {
    PrunedTableSources(table, now, window);
    forall b | b in PrunedTable(table, now, window) ensures Pruned(b.ports, now, window) == b.ports {
      var c :| c in table && b == PrunedBucket(c, now, window);
      PrunedMembers(c.ports, now, window);
      AllLiveUnchanged(b.ports, now, window);
    }
  }

  lemma {:induction false} AllLiveUnchanged(ports: seq<PortEntry>, now: int, window: int)
    requires forall e :: e in ports ==> Live(now, e.seenAt, window)
    ensures Pruned(ports, now, window) == ports
  {
    if ports != [] {
      AllLiveUnchanged(ports[1..], now, window);
    }
  }
}

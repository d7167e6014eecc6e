/** The detector refines a history that never forgets.

    The specification keeps every qualifying SYN ever seen. An alert is due when the newest SYN
    brings its source to `threshold` distinct ports inside the window and the source's previous
    alert, however long ago, lies outside it. */
module ScanHistory {
  import opened NetTypes
  import opened ScanTable

  // ----- The unbounded specification -----

  /** Times are non-negative, fit the program's unsigned subtraction and never decrease. */
  ghost predicate Timely(h: seq<Syn>) {
    && (forall i :: 0 <= i < |h| ==> h[i].at < U32_LIMIT)
    && (forall i, j :: 0 <= i < j < |h| ==> h[i].at <= h[j].at)
  }

  function Now(h: seq<Syn>): nat {
    if h == [] then 0 else h[|h| - 1].at
  }

  /** Time of the last SYN from `src` to `port` in the whole history. */
  function LastSyn(h: seq<Syn>, src: Ipv4, port: u16): Option<nat> {
    if h == [] then None
    else
      var s := h[|h| - 1];
      if s.src == src && s.port == port then Some(s.at) else LastSyn(h[..|h| - 1], src, port)
  }

  /** The distinct ports `src` touched no more than `window` seconds before `now`. */
  function WindowPorts(h: seq<Syn>, src: Ipv4, now: int, window: int): set<u16> {
    set p: u16 | 0 <= p < 0x1_0000 && LastSyn(h, src, p).Some? && now - LastSyn(h, src, p).value <= window
  }

  /** The alert the newest SYN of the history calls for. */
  function AlertDue(h: seq<Syn>, window: u32, threshold: nat): Option<Alert>
    requires h != []
    decreases |h|, 0
  {
    var s := h[|h| - 1];
    var n := |WindowPorts(h, s.src, s.at, window)|;
    if threshold <= n && s.at - LastAlert(h[..|h| - 1], s.src, window, threshold) > window
    then Some(Alert(s.src, n, window)) else None
  }

  /** Time of the last alert due for `src`; a source that never alerted counts as time 0. */
  function LastAlert(h: seq<Syn>, src: Ipv4, window: u32, threshold: nat): nat
    decreases |h|, 1
  {
    if h == [] then 0
    else if h[|h| - 1].src == src && AlertDue(h, window, threshold).Some? then h[|h| - 1].at
    else LastAlert(h[..|h| - 1], src, window, threshold)
  }

  // ----- The detector over a run -----

  /** The detector's table after observing the whole history from an empty start. */
  function TableAfter(h: seq<Syn>, window: u32, threshold: nat): seq<Bucket> {
    if h == [] then []
    else Observed(TableAfter(h[..|h| - 1], window, threshold), h[|h| - 1], window, threshold).table
  }

  /** What the detector answers to the newest SYN of the history. */
  function AlertRaised(h: seq<Syn>, window: u32, threshold: nat): Option<Alert>
    requires h != []
  {
    Observed(TableAfter(h[..|h| - 1], window, threshold), h[|h| - 1], window, threshold).alert
  }

  /** The stored lists hold exactly the in-window pairs with their latest times. */
  ghost predicate HoldsWindow(table: seq<Bucket>, h: seq<Syn>, window: int) {
    forall s: Ipv4, p: u16 :: SeenAt(PortsOf(table, s), p) == Clipped(LastSyn(h, s, p), Now(h), window)
  }

  /** The stored alert times are the true ones, or were forgotten after leaving the window. */
  ghost predicate RemembersAlerts(table: seq<Bucket>, h: seq<Syn>, window: u32, threshold: nat) {
    forall s: Ipv4 :: SameCooldown(AlertedAt(table, s), LastAlert(h, s, window, threshold), Now(h), window)
  }

  predicate SameCooldown(stored: nat, actual: nat, now: int, window: int) {
    stored == actual || (stored == 0 && now - actual > window)
  }

  ghost predicate Refines(table: seq<Bucket>, h: seq<Syn>, window: u32, threshold: nat) {
    && WellFormed(table)
    && AllFresh(table)
    && HoldsWindow(table, h, window)
    && RemembersAlerts(table, h, window, threshold)
  }

  // ----- One observation -----

  lemma AllPrunedFresh(b: Bucket, syn: Syn, window: int)
    requires DistinctPorts(b.ports) && b.lastAlertAt <= syn.at
    requires forall e :: e in b.ports ==> e.seenAt <= syn.at
    ensures DistinctPorts(Visited(b, syn, window).ports)
    ensures Fresh(Visited(b, syn, window))
    ensures forall p: u16 :: SeenAt(Visited(b, syn, window).ports, p)
              == if p == syn.port then Some(syn.at) else Clipped(SeenAt(b.ports, p), syn.at, window)
  {
    var kept := Pruned(b.ports, syn.at, window);
    var v := Visited(b, syn, window);
    PrunedMembers(b.ports, syn.at, window);
    PrunedDistinct(b.ports, syn.at, window);
    forall p: u16
      ensures SeenAt(v.ports, p) == if p == syn.port then Some(syn.at) else Clipped(SeenAt(b.ports, p), syn.at, window)
    {
      PrunedSeen(b.ports, p, syn.at, window);
      UpsertedSeen(kept, syn.port, syn.at, p);
    }
    UpsertedSeen(kept, syn.port, syn.at, syn.port);
    var k := IndexOf(kept, syn.port);
    assert v.ports[if k < |kept| then k else 0].seenAt == syn.at;
    forall i | 0 <= i < |v.ports| ensures v.ports[i].seenAt <= syn.at {
      assert v.ports[i] in kept || v.ports[i].seenAt == syn.at;
    }
  }

  /** Everything stored was seen by `now`. */
  predicate Before(table: seq<Bucket>, now: int) {
    forall b :: b in table ==> b.lastSeenAt <= now
  }

  /** Opening a bucket changes no reading. */
  lemma OpenedReads(table: seq<Bucket>, src: Ipv4, s: Ipv4)
    requires WellFormed(table)
    ensures WellFormed(Opened(table, src))
    ensures PortsOf(Opened(table, src), s) == PortsOf(table, s)
    ensures AlertedAt(Opened(table, src), s) == AlertedAt(table, s)
  {
    var r := Opened(table, src);
    if r != table {
      assert r[1..] == table;
    }
  }

  /** The table just before the port is recorded, read source by source. */
  lemma OpenedSource(table: seq<Bucket>, syn: Syn, window: u32, s: Ipv4)
    requires WellFormed(table)
    ensures var r := Opened(PrunedTable(table, syn.at, window), syn.src);
            && WellFormed(r)
            && PortsOf(r, s) == Pruned(PortsOf(table, s), syn.at, window)
            && AlertedAt(r, s) == AlertedAt(PrunedTable(table, syn.at, window), s)
  {
    PrunedTableWellFormed(table, syn.at, window);
    PrunedTablePorts(table, s, syn.at, window);
    OpenedReads(PrunedTable(table, syn.at, window), syn.src, s);
  }

  /** The buckets just before the port is recorded. */
  lemma OpenedBuckets(table: seq<Bucket>, syn: Syn, window: u32)
    requires WellFormed(table) && AllFresh(table) && Before(table, syn.at)
    ensures var r := Opened(PrunedTable(table, syn.at, window), syn.src);
            var b := r[FindSource(r, syn.src)];
            && b.lastAlertAt <= syn.at
            && (forall e :: e in b.ports ==> e.seenAt <= syn.at)
            && (forall c :: c in r && c.src != syn.src ==> Fresh(c) && c.lastSeenAt <= syn.at)
  {
    var t := PrunedTable(table, syn.at, window);
    PrunedTableFresh(table, syn.at, window);
    PrunedTableSources(table, syn.at, window);
    forall c | c in t ensures Fresh(c) && c.lastSeenAt <= syn.at {
      var k :| 0 <= k < |t| && t[k] == c;
    }
    var k := FindSource(t, syn.src);
    if k < |t| {
      assert t[k] in t;
    }
  }

  /** One observation keeps the lists in order. */
  lemma ObservedShape(table: seq<Bucket>, syn: Syn, window: u32, threshold: nat)
    requires WellFormed(table) && AllFresh(table) && Before(table, syn.at)
    ensures var r := Observed(table, syn, window, threshold).table;
            WellFormed(r) && AllFresh(r) && Before(r, syn.at)
  {
    hide PrunedTable, Upserted, Pruned, Opened;
    var wide := Opened(PrunedTable(table, syn.at, window), syn.src);
    var k := FindSource(wide, syn.src);
    var r := Observed(table, syn, window, threshold).table;
    OpenedBuckets(table, syn, window);
    OpenedSource(table, syn, window, syn.src);
    AllPrunedFresh(wide[k], syn, window);
    forall i | 0 <= i < |r|
      ensures Fresh(r[i]) && DistinctPorts(r[i].ports) && r[i].lastSeenAt <= syn.at && r[i].src == wide[i].src
    {
      assert wide[i] in wide;
      if i != k {
        assert wide[i].src != syn.src;
      }
    }
  }

  /** What one observation does to the reading of a source and port. */
  lemma ObservedPorts(table: seq<Bucket>, syn: Syn, window: u32, threshold: nat, s: Ipv4, p: u16)
    requires WellFormed(table) && AllFresh(table) && Before(table, syn.at)
    ensures SeenAt(PortsOf(Observed(table, syn, window, threshold).table, s), p)
         == if s == syn.src && p == syn.port then Some(syn.at)
            else Clipped(SeenAt(PortsOf(table, s), p), syn.at, window)
  {
    var wide := Opened(PrunedTable(table, syn.at, window), syn.src);
    var r := Observed(table, syn, window, threshold).table;
    OpenedSource(table, syn, window, s);
    SameSources(wide, r, s);
    PortsDistinct(table, s);
    PrunedSeen(PortsOf(table, s), p, syn.at, window);
    if s == syn.src {
      var k := FindSource(wide, syn.src);
      OpenedBuckets(table, syn, window);
      AllPrunedFresh(wide[k], syn, window);
      assert PortsOf(r, s) == Visited(wide[k], syn, window).ports;
      assert wide[k].ports == PortsOf(wide, s);
    } else {
      assert PortsOf(r, s) == PortsOf(wide, s);
    }
  }

  /** What one observation decides, and which alert times it leaves stored. */
  lemma ObservedAlerts(table: seq<Bucket>, syn: Syn, window: u32, threshold: nat, s: Ipv4)
    requires WellFormed(table) && AllFresh(table) && Before(table, syn.at)
    ensures var r := Observed(table, syn, window, threshold);
            var count := |PortsOf(r.table, syn.src)|;
            var kept := PrunedTable(table, syn.at, window);
            && (r.alert.Some? <==> (threshold <= count && syn.at - AlertedAt(kept, syn.src) > window))
            && (r.alert.Some? ==> r.alert.value == Alert(syn.src, count, window))
            && AlertedAt(r.table, s) == if s == syn.src && r.alert.Some? then syn.at else AlertedAt(kept, s)
  {
    hide PrunedTable, Upserted, Pruned;
    var wide := Opened(PrunedTable(table, syn.at, window), syn.src);
    OpenedSource(table, syn, window, s);
    SameSources(wide, Observed(table, syn, window, threshold).table, s);
    SameSources(wide, Observed(table, syn, window, threshold).table, syn.src);
  }

  lemma {:induction false} SameSources(a: seq<Bucket>, b: seq<Bucket>, src: Ipv4)
    requires |a| == |b| && forall i :: 0 <= i < |a| ==> a[i].src == b[i].src
    ensures FindSource(a, src) == FindSource(b, src)
  {
    if a != [] {
      SameSources(a[1..], b[1..], src);
    }
  }

  lemma PortsDistinct(table: seq<Bucket>, src: Ipv4)
    requires WellFormed(table)
    ensures DistinctPorts(PortsOf(table, src))
  {
  }

  // ----- Every run -----

  /** A list without duplicates is as long as the set of ports it answers for. */
  lemma {:induction false} CountIsCardinality(ports: seq<PortEntry>, s: set<u16>)
    requires DistinctPorts(ports)
    requires forall p: u16 :: p in s <==> SeenAt(ports, p).Some?
    ensures |ports| == |s|
  {
    if ports == [] {
      assert forall p: u16 :: SeenAt(ports, p).None?;
      assert s == {};
    } else {
      var rest := s - {ports[0].port};
      forall p: u16 ensures p in rest <==> SeenAt(ports[1..], p).Some? {
        SeenIffMember(ports, p);
        SeenIffMember(ports[1..], p);
        assert ports == [ports[0]] + ports[1..];
      }
      CountIsCardinality(ports[1..], rest);
      assert ports[0].port in s;
    }
  }

  lemma StoredCount(table: seq<Bucket>, h: seq<Syn>, src: Ipv4, window: u32)
    requires WellFormed(table) && HoldsWindow(table, h, window)
    ensures |PortsOf(table, src)| == |WindowPorts(h, src, Now(h), window)|
  {
    PortsDistinct(table, src);
    CountIsCardinality(PortsOf(table, src), WindowPorts(h, src, Now(h), window));
  }

  /** The detector's state after one more SYN still reads as the unbounded history, and its
      answer is the alert that history calls for. */
  lemma StepRefines(table: seq<Bucket>, h: seq<Syn>, syn: Syn, window: u32, threshold: nat)
    requires Timely(h + [syn]) && Before(table, Now(h))
    requires Refines(table, h, window, threshold)
    ensures Now(h) <= syn.at && Before(table, syn.at)
    ensures Refines(Observed(table, syn, window, threshold).table, h + [syn], window, threshold)
    ensures Before(Observed(table, syn, window, threshold).table, Now(h + [syn]))
    ensures Observed(table, syn, window, threshold).alert == AlertDue(h + [syn], window, threshold)
  {
    var g := h + [syn];
    var r := Observed(table, syn, window, threshold);
    assert g[..|g| - 1] == h;
    assert Now(h) <= syn.at by {
      if h != [] {
        assert g[|h| - 1] == h[|h| - 1] && g[|h|] == syn;
      }
    }
    ObservedShape(table, syn, window, threshold);
    forall s: Ipv4, p: u16
      ensures SeenAt(PortsOf(r.table, s), p) == Clipped(LastSyn(g, s, p), Now(g), window)
    {
      ObservedPorts(table, syn, window, threshold, s, p);
    }
    StoredCount(r.table, g, syn.src, window);
    CooldownStep(table, h, syn, window, threshold, syn.src);
    ObservedAlerts(table, syn, window, threshold, syn.src);
    assert r.alert == AlertDue(g, window, threshold);
    forall s: Ipv4
      ensures SameCooldown(AlertedAt(r.table, s), LastAlert(g, s, window, threshold), Now(g), window)
    {
      CooldownStep(table, h, syn, window, threshold, s);
      ObservedAlerts(table, syn, window, threshold, s);
    }
  }

  /** Before the cooldown test, the stored alert time of a source decides as the true one. */
  lemma CooldownStep(table: seq<Bucket>, h: seq<Syn>, syn: Syn, window: u32, threshold: nat, s: Ipv4)
    requires WellFormed(table) && RemembersAlerts(table, h, window, threshold) && Now(h) <= syn.at
    ensures SameCooldown(AlertedAt(PrunedTable(table, syn.at, window), s), LastAlert(h, s, window, threshold),
                         syn.at, window)
  {
    PrunedTableAlerted(table, s, syn.at, window);
    assert SameCooldown(AlertedAt(table, s), LastAlert(h, s, window, threshold), Now(h), window);
  }

  /** After every run the detector reads as the unbounded history. */
  lemma {:induction false} RunRefines(h: seq<Syn>, window: u32, threshold: nat)
    requires Timely(h)
    ensures Refines(TableAfter(h, window, threshold), h, window, threshold)
    ensures Before(TableAfter(h, window, threshold), Now(h))
  {
    if h != [] {
      var g := h[..|h| - 1];
      RunRefines(g, window, threshold);
      assert h == g + [h[|h| - 1]];
      StepRefines(TableAfter(g, window, threshold), g, h[|h| - 1], window, threshold);
    }
  }

  lemma TimelyPrefix(h: seq<Syn>)
    requires Timely(h) && h != []
    ensures Timely(h[..|h| - 1])
  {
  }

  /** On every run, each answer of the detector - the verdict and every field of the alert - is
      that of the history that never expires a port, drops a source or forgets an alert. */
  lemma AlertsMatchHistory(h: seq<Syn>, window: u32, threshold: nat)
    requires Timely(h) && h != []
    ensures AlertRaised(h, window, threshold) == AlertDue(h, window, threshold)
  {
    hide Observed, Refines, Before, Timely, AlertDue;
    TimelyPrefix(h);
    var g := h[..|h| - 1];
    RunRefines(g, window, threshold);
    assert h == g + [h[|h| - 1]];
    StepRefines(TableAfter(g, window, threshold), g, h[|h| - 1], window, threshold);
  }

  /** One more SYN, seen from the object that holds the table. */
  lemma Extended(h: seq<Syn>, syn: Syn, window: u32, threshold: nat)
    requires Timely(h) && Now(h) <= syn.at < U32_LIMIT
    ensures var table := TableAfter(h, window, threshold);
            && WellFormed(table) && AllFresh(table) && Before(table, syn.at)
            && Timely(h + [syn])
            && TableAfter(h + [syn], window, threshold) == Observed(table, syn, window, threshold).table
            && AlertDue(h + [syn], window, threshold) == Observed(table, syn, window, threshold).alert
  {
    var g := h + [syn];
    assert g[..|g| - 1] == h;
    RunRefines(h, window, threshold);
    AlertsMatchHistory(g, window, threshold);
  }

  // ----- Consequences for every run -----

  lemma {:induction false} LastAlertCovers(h: seq<Syn>, i: nat, window: u32, threshold: nat)
    requires Timely(h) && i < |h| && AlertDue(h[..i + 1], window, threshold).Some?
    ensures h[i].at <= LastAlert(h, h[i].src, window, threshold)
  {
    var n := |h| - 1;
    if i == n {
      assert h[..i + 1] == h;
    } else {
      assert h[..n][..i + 1] == h[..i + 1];
      LastAlertCovers(h[..n], i, window, threshold);
    }
  }

  lemma DueAlertsAreSpaced(h: seq<Syn>, i: nat, window: u32, threshold: nat)
    requires Timely(h) && i + 1 < |h| && h[i].src == h[|h| - 1].src
    requires AlertDue(h[..i + 1], window, threshold).Some? && AlertDue(h, window, threshold).Some?
    ensures h[|h| - 1].at - h[i].at > window
  {
    var before := h[..|h| - 1];
    assert before[..i + 1] == h[..i + 1];
    LastAlertCovers(before, i, window, threshold);
  }

  /** Any two alerts for one source are more than the window apart, even when the source was
      dropped and tracked afresh in between. */
  lemma AlertsAreSpaced(h: seq<Syn>, i: nat, j: nat, window: u32, threshold: nat)
    requires Timely(h) && i < j < |h| && h[i].src == h[j].src
    requires AlertRaised(h[..i + 1], window, threshold).Some?
    requires AlertRaised(h[..j + 1], window, threshold).Some?
    ensures h[j].at - h[i].at > window
  {
    hide AlertRaised, AlertDue;
    AlertsMatchHistory(h[..i + 1], window, threshold);
    AlertsMatchHistory(h[..j + 1], window, threshold);
    assert h[..j + 1][..i + 1] == h[..i + 1];
    DueAlertsAreSpaced(h[..j + 1], i, window, threshold);
  }

  /** The detector raised no alert for `src` over the history. */
  ghost predicate NeverAlerted(h: seq<Syn>, src: Ipv4, window: u32, threshold: nat) {
    forall i :: 0 <= i < |h| && h[i].src == src ==> AlertRaised(h[..i + 1], window, threshold).None?
  }

  lemma {:induction false} NeverAlertedReadsZero(h: seq<Syn>, src: Ipv4, window: u32, threshold: nat)
    requires Timely(h) && NeverAlerted(h, src, window, threshold)
    ensures LastAlert(h, src, window, threshold) == 0
  {
    hide AlertDue, AlertRaised;
    if h != [] {
      var g := h[..|h| - 1];
      assert h[..|h| - 1 + 1] == h;
      AlertsMatchHistory(h, window, threshold);
      forall i | 0 <= i < |g| && g[i].src == src ensures AlertRaised(g[..i + 1], window, threshold).None? {
        assert g[..i + 1] == h[..i + 1];
      }
      NeverAlertedReadsZero(g, src, window, threshold);
    }
  }

  /** A source that never alerted is treated as one that alerted at time 0: when it reaches the
      threshold the detector raises its first alert if and only if the clock is already past the
      window. */
  lemma FirstAlertNeedsLateClock(h: seq<Syn>, window: u32, threshold: nat)
    requires Timely(h) && h != [] && NeverAlerted(h[..|h| - 1], h[|h| - 1].src, window, threshold)
    requires var s := h[|h| - 1]; |WindowPorts(h, s.src, s.at, window)| >= threshold
    ensures AlertRaised(h, window, threshold).Some? <==> h[|h| - 1].at > window
  {
    hide AlertRaised;
    AlertsMatchHistory(h, window, threshold);
    NeverAlertedReadsZero(h[..|h| - 1], h[|h| - 1].src, window, threshold);
  }

  /** The first scan of a source, missed because the clock has not passed the window. */
  lemma EarlyScanIsMissed(src: Ipv4)
    ensures var h := [Syn(src, 22, 5)];
            |WindowPorts(h, src, 5, 10)| >= 1 && AlertDue(h, 10, 1).None? && AlertRaised(h, 10, 1).None?
  {
    var h := [Syn(src, 22, 5)];
    assert 22 in WindowPorts(h, src, 5, 10);
    assert h[..0] == [];
    AlertsMatchHistory(h, 10, 1);
  }

  /** The (source, port) pairs touched in the window, and how many SYNs touched them. */
  function PairsTouched(h: seq<Syn>, now: int, window: int): (r: set<(Ipv4, u16)>)
    ensures |r| <= SynsInWindow(h, now, window)
  {
    if h == [] then {}
    else
      var s := h[|h| - 1];
      PairsTouched(h[..|h| - 1], now, window) + if now - s.at <= window then {(s.src, s.port)} else {}
  }

  function SynsInWindow(h: seq<Syn>, now: int, window: int): nat {
    if h == [] then 0
    else SynsInWindow(h[..|h| - 1], now, window) + if now - h[|h| - 1].at <= window then 1 else 0
  }

  lemma {:induction false} SeenIsTouched(h: seq<Syn>, src: Ipv4, port: u16, now: int, window: int)
    requires Clipped(LastSyn(h, src, port), now, window).Some?
    ensures (src, port) in PairsTouched(h, now, window)
  {
    if h[|h| - 1].src != src || h[|h| - 1].port != port {
      SeenIsTouched(h[..|h| - 1], src, port, now, window);
    }
  }

  function StoredPairs(table: seq<Bucket>): set<(Ipv4, u16)> {
    if table == [] then {}
    else (set e | e in table[0].ports :: (table[0].src, e.port)) + StoredPairs(table[1..])
  }

  function StoredEntries(table: seq<Bucket>): nat {
    if table == [] then 0 else |table[0].ports| + StoredEntries(table[1..])
  }

  lemma {:induction false} BucketPairs(src: Ipv4, ports: seq<PortEntry>)
    requires DistinctPorts(ports)
    ensures |set e | e in ports :: (src, e.port)| == |ports|
  {
    if ports != [] {
      var rest := set e | e in ports[1..] :: (src, e.port);
      BucketPairs(src, ports[1..]);
      assert ports == [ports[0]] + ports[1..];
      assert (set e | e in ports :: (src, e.port)) == {(src, ports[0].port)} + rest;
      assert (src, ports[0].port) !in rest;
    }
  }

  lemma {:induction false} PairIsStored(table: seq<Bucket>, pair: (Ipv4, u16)) returns (i: nat, e: PortEntry)
    requires pair in StoredPairs(table)
    ensures i < |table| && table[i].src == pair.0 && e in table[i].ports && e.port == pair.1
  {
    if pair in (set e | e in table[0].ports :: (table[0].src, e.port)) {
      i := 0;
      e :| e in table[0].ports && (table[0].src, e.port) == pair;
    } else {
      i, e := PairIsStored(table[1..], pair);
      i := i + 1;
    }
  }

  lemma {:induction false} PairsCountEntries(table: seq<Bucket>)
    requires WellFormed(table)
    ensures |StoredPairs(table)| == StoredEntries(table)
  {
    if table != [] {
      assert WellFormed(table[1..]);
      PairsCountEntries(table[1..]);
      BucketPairs(table[0].src, table[0].ports);
      var here := set e | e in table[0].ports :: (table[0].src, e.port);
      forall pair | pair in StoredPairs(table[1..]) ensures pair !in here {
        var i, e := PairIsStored(table[1..], pair);
        assert table[i + 1].src == pair.0;
      }
      assert here !! StoredPairs(table[1..]);
    }
  }

  lemma StoredIsTouched(table: seq<Bucket>, h: seq<Syn>, pair: (Ipv4, u16), window: u32)
    requires WellFormed(table) && HoldsWindow(table, h, window) && pair in StoredPairs(table)
    ensures pair in PairsTouched(h, Now(h), window)
  {
    var i, e := PairIsStored(table, pair);
    FindsBucket(table, table[i]);
    SeenIffMember(table[i].ports, e.port);
    assert e == PortEntry(e.port, e.seenAt);
    assert SeenAt(PortsOf(table, pair.0), pair.1) == Clipped(LastSyn(h, pair.0, pair.1), Now(h), window);
    SeenIsTouched(h, pair.0, pair.1, Now(h), window);
  }

  /** Memory: the stored entries never outnumber the SYNs inside the window. */
  lemma StorageIsBounded(h: seq<Syn>, window: u32, threshold: nat)
    requires Timely(h)
    ensures StoredEntries(TableAfter(h, window, threshold)) <= SynsInWindow(h, Now(h), window)
  {
    var table := TableAfter(h, window, threshold);
    RunRefines(h, window, threshold);
    PairsCountEntries(table);
    forall pair | pair in StoredPairs(table)
      ensures pair in PairsTouched(h, Now(h), window)
    {
      StoredIsTouched(table, h, pair, window);
    }
    assert StoredPairs(table) <= PairsTouched(h, Now(h), window);
    SubsetCount(StoredPairs(table), PairsTouched(h, Now(h), window));
  }

  lemma SubsetCount<T>(a: set<T>, b: set<T>)
    requires a <= b
    ensures |a| <= |b|
  {
    assert b == a + (b - a);
  }

  /** No bucket is ever empty, and none holds more ports than there are port numbers. */
  lemma BucketsAreBounded(h: seq<Syn>, window: u32, threshold: nat)
    requires Timely(h)
    ensures forall b :: b in TableAfter(h, window, threshold) ==> 1 <= |b.ports| <= 65536
  {
    var table := TableAfter(h, window, threshold);
    RunRefines(h, window, threshold);
    forall b | b in table
      ensures 1 <= |b.ports| <= 65536
    {
      FindsBucket(table, b);
      var used := set p: u16 | 0 <= p < 0x1_0000 && SeenAt(b.ports, p).Some?;
      CountIsCardinality(b.ports, used);
      PortsBelow(used, 65536);
    }
  }

  lemma {:induction false} PortsBelow(s: set<u16>, n: nat)
    requires forall p :: p in s ==> p < n
    ensures |s| <= n
  {
    if n > 0 {
      var rest := set p | p in s && p < n - 1;
      PortsBelow(rest, n - 1);
      if exists p :: p in s && p == n - 1 {
        var p :| p in s && p == n - 1;
        assert s == rest + {p};
      } else {
        assert s == rest;
      }
    }
  }
}

/** The flat snapshot of the detector and the single pass that reads a maximum from it. */
module ScanSnapshot {
  import opened NetTypes
  import opened ScanTable
  import opened ScanHistory

  datatype SnapshotPort = SnapshotPort(src: Ipv4, seenAt: nat)

  function Row(src: Ipv4, ports: seq<PortEntry>): seq<SnapshotPort> {
    if ports == [] then [] else [SnapshotPort(src, ports[0].seenAt)] + Row(src, ports[1..])
  }

  /** The entries of all lists in list order; port numbers are not copied. */
  function Flattened(table: seq<Bucket>): seq<SnapshotPort> {
    if table == [] then [] else Row(table[0].src, table[0].ports) + Flattened(table[1..])
  }

  datatype Tally = Tally(count: nat, maximum: nat)

  function TallyStep(t: Tally, newSource: bool, live: bool): Tally {
    var count := if newSource then 0 else t.count;
    if live then Tally(count + 1, if count + 1 > t.maximum then count + 1 else t.maximum)
    else Tally(count, t.maximum)
  }

  /** One pass that restarts its count whenever the address differs from the one before. */
  function Pass(entries: seq<SnapshotPort>, now: int, window: int): Tally {
    if entries == [] then Tally(0, 0)
    else
      var n := |entries| - 1;
      TallyStep(Pass(entries[..n], now, window),
                n == 0 || entries[n].src != entries[n - 1].src,
                Live(now, entries[n].seenAt, window))
  }

  /** The entries of a source stand next to each other. */
  ghost predicate Contiguous(entries: seq<SnapshotPort>) {
    forall i, j, k :: 0 <= i < j < k < |entries| && entries[i].src == entries[k].src ==>
      entries[j].src == entries[i].src
  }

  function LiveOf(entries: seq<SnapshotPort>, src: Ipv4, now: int, window: int): nat {
    if entries == [] then 0
    else LiveOf(entries[1..], src, now, window)
         + if entries[0].src == src && Live(now, entries[0].seenAt, window) then 1 else 0
  }

  lemma {:induction false} LiveOfConcat(a: seq<SnapshotPort>, b: seq<SnapshotPort>, src: Ipv4, now: int, window: int)
    ensures LiveOf(a + b, src, now, window) == LiveOf(a, src, now, window) + LiveOf(b, src, now, window)
  {
    if a == [] {
      assert a + b == b;
    } else {
      LiveOfConcat(a[1..], b, src, now, window);
      assert (a + b)[1..] == a[1..] + b;
    }
  }

  lemma {:induction false} LiveOfAbsent(entries: seq<SnapshotPort>, src: Ipv4, now: int, window: int)
    requires forall e :: e in entries ==> e.src != src
    ensures LiveOf(entries, src, now, window) == 0
  {
    if entries != [] {
      LiveOfAbsent(entries[1..], src, now, window);
    }
  }

  /** `m` is the largest number of live entries any source has. */
  ghost predicate IsLargest(m: nat, entries: seq<SnapshotPort>, now: int, window: int) {
    && (forall s: Ipv4 :: LiveOf(entries, s, now, window) <= m)
    && (m == 0 || exists s: Ipv4 :: LiveOf(entries, s, now, window) == m)
  }

  lemma LiveOfLast(before: seq<SnapshotPort>, e: SnapshotPort, src: Ipv4, now: int, window: int)
    ensures LiveOf(before + [e], src, now, window)
         == LiveOf(before, src, now, window) + if e.src == src && Live(now, e.seenAt, window) then 1 else 0
  {
    LiveOfConcat(before, [e], src, now, window);
    assert [e][1..] == [];
  }

  /** One entry more raises the maximum only if its own source now exceeds it. */
  lemma LargestGrows(m: nat, before: seq<SnapshotPort>, e: SnapshotPort, now: int, window: int)
    requires IsLargest(m, before, now, window)
    ensures var c := LiveOf(before + [e], e.src, now, window);
            IsLargest(if c > m then c else m, before + [e], now, window)
  {
    forall s: Ipv4
      ensures LiveOf(before + [e], s, now, window)
           == LiveOf(before, s, now, window) + if e.src == s && Live(now, e.seenAt, window) then 1 else 0
    {
      LiveOfLast(before, e, s, now, window);
    }
    if m != 0 {
      var s: Ipv4 :| LiveOf(before, s, now, window) == m;
      assert LiveOf(before + [e], s, now, window) >= m;
    }
  }

  lemma NewRunIsNew(before: seq<SnapshotPort>, e: SnapshotPort, now: int, window: int)
    requires Contiguous(before + [e])
    requires before == [] || before[|before| - 1].src != e.src
    ensures LiveOf(before, e.src, now, window) == 0
  {
    var all := before + [e];
    forall i | 0 <= i < |before| ensures before[i].src != e.src {
      assert all[i] == before[i] && all[|before| - 1] == before[|before| - 1] && all[|before|] == e;
    }
    LiveOfAbsent(before, e.src, now, window);
  }

  /** Comparing only neighbours is enough when the entries of each source are contiguous. */
  lemma {:induction false} PassIsLargest(entries: seq<SnapshotPort>, now: int, window: int)
    requires Contiguous(entries)
    ensures IsLargest(Pass(entries, now, window).maximum, entries, now, window)
    ensures entries != []
            ==> Pass(entries, now, window).count == LiveOf(entries, entries[|entries| - 1].src, now, window)
  {
    if entries != [] {
      var n := |entries| - 1;
      PassIsLargest(entries[..n], now, window);
      assert entries == entries[..n] + [entries[n]];
      PassStep(entries[..n], entries[n], now, window);
    }
  }

  lemma PassStep(before: seq<SnapshotPort>, e: SnapshotPort, now: int, window: int)
    requires Contiguous(before + [e])
    requires IsLargest(Pass(before, now, window).maximum, before, now, window)
    requires before != [] ==> Pass(before, now, window).count == LiveOf(before, before[|before| - 1].src, now, window)
    ensures var p := Pass(before + [e], now, window);
            p.count == LiveOf(before + [e], e.src, now, window) && IsLargest(p.maximum, before + [e], now, window)
  {
    var was := Pass(before, now, window);
    var c := LiveOf(before, e.src, now, window);
    assert (before + [e])[..|before|] == before;
    LiveOfLast(before, e, e.src, now, window);
    LargestGrows(was.maximum, before, e, now, window);
    if before == [] || before[|before| - 1].src != e.src {
      NewRunIsNew(before, e, now, window);
    }
    assert c <= was.maximum;
  }

  lemma RowSources(src: Ipv4, ports: seq<PortEntry>)
    ensures |Row(src, ports)| == |ports|
    ensures forall i :: 0 <= i < |ports| ==> Row(src, ports)[i] == SnapshotPort(src, ports[i].seenAt)
  {
    if ports != [] {
      RowSources(src, ports[1..]);
    }
  }

  lemma {:induction false} FlattenedSources(table: seq<Bucket>)
    ensures forall e :: e in Flattened(table) ==> exists i :: 0 <= i < |table| && table[i].src == e.src
  {
    if table != [] {
      RowSources(table[0].src, table[0].ports);
      FlattenedSources(table[1..]);
      forall e | e in Flattened(table)
        ensures exists i :: 0 <= i < |table| && table[i].src == e.src
      {
        if e in Flattened(table[1..]) {
          var i :| 0 <= i < |table[1..]| && table[1..][i].src == e.src;
          assert table[i + 1].src == e.src;
        } else {
          assert table[0].src == e.src;
        }
      }
    }
  }

  lemma RunsStayTogether(src: Ipv4, row: seq<SnapshotPort>, rest: seq<SnapshotPort>)
    requires forall e :: e in row ==> e.src == src
    requires Contiguous(rest) && forall e :: e in rest ==> e.src != src
    ensures Contiguous(row + rest)
  {
    var all := row + rest;
    forall m | |row| <= m < |all| ensures all[m].src != src {
      assert all[m] == rest[m - |row|] && rest[m - |row|] in rest;
    }
    forall i, j, k | 0 <= i < j < k < |all| && all[i].src == all[k].src
      ensures all[j].src == all[i].src
    {
      if i < |row| {
        assert all[i] in row;
        assert k < |row|;
        assert all[j] in row;
      } else {
        assert all[i] == rest[i - |row|] && all[j] == rest[j - |row|] && all[k] == rest[k - |row|];
      }
    }
  }

  /** Distinct sources in the lists make a contiguous snapshot. */
  lemma {:induction false} FlattenedContiguous(table: seq<Bucket>)
    requires WellFormed(table)
    ensures Contiguous(Flattened(table))
  {
    if table != [] {
      var row, rest := Row(table[0].src, table[0].ports), Flattened(table[1..]);
      assert WellFormed(table[1..]);
      FlattenedContiguous(table[1..]);
      FlattenedSources(table[1..]);
      RowSources(table[0].src, table[0].ports);
      forall e | e in rest ensures e.src != table[0].src {
        var i :| 0 <= i < |table[1..]| && table[1..][i].src == e.src;
        assert table[i + 1].src == e.src;
      }
      RunsStayTogether(table[0].src, row, rest);
    }
  }

  lemma {:induction false} LiveOfRow(src: Ipv4, ports: seq<PortEntry>, s: Ipv4, now: int, window: int)
    ensures LiveOf(Row(src, ports), s, now, window) == if s == src then |Pruned(ports, now, window)| else 0
  {
    if ports != [] {
      LiveOfRow(src, ports[1..], s, now, window);
      assert Row(src, ports)[1..] == Row(src, ports[1..]);
    }
  }

  lemma {:induction false} LiveOfFlattened(table: seq<Bucket>, s: Ipv4, now: int, window: int)
    requires WellFormed(table)
    ensures LiveOf(Flattened(table), s, now, window) == |Pruned(PortsOf(table, s), now, window)|
  {
    if table != [] {
      assert WellFormed(table[1..]);
      LiveOfFlattened(table[1..], s, now, window);
      LiveOfRow(table[0].src, table[0].ports, s, now, window);
      LiveOfConcat(Row(table[0].src, table[0].ports), Flattened(table[1..]), s, now, window);
      if s == table[0].src {
        assert FindSource(table[1..], s) == |table[1..]|;
      }
    }
  }

  // ----- What a snapshot shows -----

  /** `m` is the largest number of distinct ports any one source touched in the `window` seconds
      before `now`, over the whole history. */
  ghost predicate LargestScan(m: nat, h: seq<Syn>, now: int, window: int) {
    && (forall s: Ipv4 :: |WindowPorts(h, s, now, window)| <= m)
    && (m == 0 || exists s: Ipv4 :: |WindowPorts(h, s, now, window)| == m)
  }

  lemma SnapshotCounts(table: seq<Bucket>, h: seq<Syn>, s: Ipv4, now: int, window: u32)
    requires WellFormed(table) && HoldsWindow(table, h, window) && Now(h) <= now
    ensures LiveOf(Flattened(table), s, now, window) == |WindowPorts(h, s, now, window)|
  {
    var ports := PortsOf(table, s);
    LiveOfFlattened(table, s, now, window);
    PortsDistinct(table, s);
    PrunedDistinct(ports, now, window);
    forall p: u16
      ensures SeenAt(Pruned(ports, now, window), p) == Clipped(LastSyn(h, s, p), now, window)
    {
      PrunedSeen(ports, p, now, window);
      assert SeenAt(ports, p) == Clipped(LastSyn(h, s, p), Now(h), window);
    }
    CountIsCardinality(Pruned(ports, now, window), WindowPorts(h, s, now, window));
  }

  /** A snapshot taken after any run answers, at every later time and with no further packet, the
      true per-source maximum of the history. */
  lemma SnapshotShowsHistory(h: seq<Syn>, window: u32, threshold: nat, now: int)
    requires Timely(h) && Now(h) <= now
    ensures LargestScan(Pass(Flattened(TableAfter(h, window, threshold)), now, window).maximum, h, now, window)
  {
    var table := TableAfter(h, window, threshold);
    var entries := Flattened(table);
    RunRefines(h, window, threshold);
    FlattenedContiguous(table);
    PassIsLargest(entries, now, window);
    forall s: Ipv4
      ensures LiveOf(entries, s, now, window) == |WindowPorts(h, s, now, window)|
    {
      SnapshotCounts(table, h, s, now, window);
    }
    var m := Pass(entries, now, window).maximum;
    if m != 0 {
      var s: Ipv4 :| LiveOf(entries, s, now, window) == m;
      assert |WindowPorts(h, s, now, window)| == m;
    }
  }

  /** Waiting never raises the value read from a snapshot, contiguous or not. */
  lemma {:induction false} PassAges(entries: seq<SnapshotPort>, now: int, later: int, window: int)
    requires now <= later
    ensures Pass(entries, later, window).maximum <= Pass(entries, now, window).maximum
    ensures Pass(entries, later, window).count <= Pass(entries, now, window).count
    ensures Pass(entries, now, window).count <= Pass(entries, now, window).maximum
  {
    if entries != [] {
      PassAges(entries[..|entries| - 1], now, later, window);
    }
  }

  /** Once the window has passed over the newest entry the value is 0. */
  lemma {:induction false} PassAgesOut(entries: seq<SnapshotPort>, last: int, now: int, window: int)
    requires forall e :: e in entries ==> e.seenAt <= last
    requires now - last > window
    ensures Pass(entries, now, window) == Tally(0, 0)
  {
    if entries != [] {
      PassAgesOut(entries[..|entries| - 1], last, now, window);
    }
  }
}

/** The port-scan detector as the object the capture thread updates. */
module ScanDetector {
  import opened NetTypes
  import opened Packets
  import opened ScanTable
  import opened ScanHistory
  import opened ScanSnapshot

  /** Only TCP initial SYNs count towards a scan. */
  predicate Qualifies(p: PacketInfo) {
    p.hasIpv4 && p.hasTcp && p.hasPorts && InitialSyn(p.tcpFlags)
  }

  /** Only TCP over IPv4 with ports, SYN set and ACK clear qualifies; nothing else is asked. */
  lemma OnlyInitialSynsQualify(p: PacketInfo)
    ensures !p.hasIpv4 || !p.hasTcp || !p.hasPorts ==> !Qualifies(p)
    ensures p.hasIpv4 && p.hasTcp && p.hasPorts ==>
              (Qualifies(p) <==> p.tcpFlags / 2 % 2 == 1 && p.tcpFlags / 16 % 2 == 0)
  {
  }

  /** Every time stored in the bucket has been reached. */
  predicate Past(b: Bucket, now: int) {
    b.lastSeenAt <= now && b.lastAlertAt <= now && forall e :: e in b.ports ==> e.seenAt <= now
  }

  class SourceEntry {
    const src: Ipv4
    var lastSeenAt: nat
    var lastAlertAt: nat
    var ports: seq<PortEntry>

    ghost function Value(): Bucket
      reads this
    {
      Bucket(src, lastSeenAt, lastAlertAt, ports)
    }

    constructor (src: Ipv4)
      ensures Value() == Bucket(src, 0, 0, [])
    {
      this.src := src;
      lastSeenAt, lastAlertAt, ports := 0, 0, [];
    }

    method PrunePorts(now: nat, window: u32)
      requires now < U32_LIMIT && forall e :: e in ports ==> e.seenAt <= now
      modifies this`ports
      ensures Value() == PrunedBucket(old(Value()), now, window)
    {
      var i := 0;
      while i < |ports|
        invariant 0 <= i <= |ports|
        invariant forall e :: e in ports ==> e.seenAt <= now
        invariant ports[..i] + Pruned(ports[i..], now, window) == Pruned(old(ports), now, window)
        decreases |ports| - i
      {
        assert ports[i..][1..] == ports[i + 1..];
        if ToUnsigned(now - ports[i].seenAt) > window {
          assert (ports[..i] + ports[i + 1..])[i..] == ports[i + 1..];
          ports := ports[..i] + ports[i + 1..];
        } else {
          assert ports[..i + 1] == ports[..i] + [ports[i]];
          i := i + 1;
        }
      }
      assert ports[..i] == ports && ports[i..] == [];
    }

    /** Expires the list and tells whether the bucket may be dropped. */
    method Expire(now: nat, window: u32) returns (idle: bool)
      requires now < U32_LIMIT && Past(Value(), now)
      modifies this`ports
      ensures Value() == PrunedBucket(old(Value()), now, window)
      ensures idle == Idle(Value(), now, window)
    {
      PrunePorts(now, window);
      idle := ports == [] && ToUnsigned(now - lastSeenAt) > window && ToUnsigned(now - lastAlertAt) > window;
    }

    method UpsertPort(port: u16, now: nat)
      modifies this`ports
      ensures ports == Upserted(old(ports), port, now)
    {
      var i := 0;
      while i < |ports|
        invariant 0 <= i <= |ports|
        invariant ports == old(ports)
        invariant forall j :: 0 <= j < i ==> ports[j].port != port
      {
        if ports[i].port == port {
          ports := ports[i := PortEntry(port, now)];
          return;
        }
        i := i + 1;
      }
      ports := [PortEntry(port, now)] + ports;
    }

    /** Copies the list behind what the buffer already holds. */
    method CopyPorts(buffer: array<SnapshotPort>, from: nat) returns (index: nat)
      requires from + |ports| <= buffer.Length
      modifies buffer
      ensures index == from + |ports|
      ensures buffer[..index] == old(buffer[..from]) + Row(src, ports)
    {
      RowSources(src, ports);
      index := from;
      for j := 0 to |ports|
        invariant index == from + j
        invariant buffer[..index] == old(buffer[..from]) + Row(src, ports)[..j]
      {
        buffer[index] := SnapshotPort(src, ports[j].seenAt);
        index := index + 1;
        assert buffer[..index] == buffer[..index - 1] + [buffer[index - 1]];
      }
    }

    /** The part of an observation that concerns the observed source alone. */
    method Visit(syn: Syn, window: u32, threshold: nat) returns (alert: Option<Alert>)
      requires syn.src == src && syn.at < U32_LIMIT && lastAlertAt <= syn.at
      requires forall e :: e in ports ==> e.seenAt <= syn.at
      modifies this
      ensures var b := Visited(old(Value()), syn, window);
              if Alarms(b, syn.at, window, threshold)
              then Value() == b.(lastAlertAt := syn.at) && alert == Some(Alert(src, |b.ports|, window))
              else Value() == b && alert == None
    {
      alert := None;
      lastSeenAt := syn.at;
      PrunePorts(syn.at, window);
      UpsertPort(syn.port, syn.at);
      var uniquePorts := |ports|;
      if uniquePorts < threshold {
        return;
      }
      if ToUnsigned(syn.at - lastAlertAt) <= window {
        return;
      }
      lastAlertAt := syn.at;
      alert := Some(Alert(src, uniquePorts, window));
    }
  }

  /** Distinct addresses, hence distinct objects. */
  predicate Apart(entries: seq<SourceEntry>) {
    forall i, j :: 0 <= i < j < |entries| ==> entries[i].src != entries[j].src
  }

  lemma ApartDrop(a: seq<SourceEntry>, x: SourceEntry, b: seq<SourceEntry>)
    requires Apart(a + ([x] + b))
    ensures Apart(a + b) && Apart((a + [x]) + b)
    ensures x !in a && x !in b
  {
    var all := a + ([x] + b);
    assert (a + [x]) + b == all;
    assert all[|a|] == x;
    forall i | 0 <= i < |a| ensures a[i] != x {
      assert all[i] == a[i];
    }
    forall i | 0 <= i < |b| ensures b[i] != x {
      assert all[|a| + 1 + i] == b[i];
    }
    forall i, j | 0 <= i < j < |a + b| ensures (a + b)[i].src != (a + b)[j].src {
      var p, q := if i < |a| then i else i + 1, if j < |a| then j else j + 1;
      assert all[p] == (a + b)[i] && all[q] == (a + b)[j];
    }
  }

  lemma ApartCons(x: SourceEntry, a: seq<SourceEntry>)
    requires Apart(a) && forall i :: 0 <= i < |a| ==> a[i].src != x.src
    ensures Apart([x] + a)
  {
  }

  ghost function Values(entries: seq<SourceEntry>): (r: seq<Bucket>)
    reads entries
  {
    seq(|entries|, i requires 0 <= i < |entries| reads entries => entries[i].Value())
  }

  lemma FreshIsPast(table: seq<Bucket>, now: int)
    requires AllFresh(table) && Before(table, now)
    ensures forall i :: 0 <= i < |table| ==> Past(table[i], now)
  {
    forall i | 0 <= i < |table| ensures Past(table[i], now) {
      assert Fresh(table[i]) && table[i] in table;
    }
  }

  lemma ValuesFrom(sources: seq<SourceEntry>, table: seq<Bucket>, i: nat)
    requires i < |sources| == |table| && Values(sources[i..]) == table[i..]
    ensures sources[i..] == [sources[i]] + sources[i + 1..]
    ensures table[i] == sources[i].Value() && Values(sources[i + 1..]) == table[i + 1..]
  {
    assert sources[i..] == [sources[i]] + sources[i + 1..];
    assert table[i..][0] == sources[i].Value();
    assert Values(sources[i + 1..]) == table[i..][1..] == table[i + 1..];
  }

  lemma PrunedNothing(now: int, window: int)
    ensures PrunedTable([], now, window) == []
  {
  }

  lemma PrunedFrom(done: seq<Bucket>, table: seq<Bucket>, i: nat, now: int, window: int)
    requires i < |table|
    ensures var b := PrunedBucket(table[i], now, window);
            done + PrunedTable(table[i..], now, window)
              == (if Idle(b, now, window) then done else done + [b]) + PrunedTable(table[i + 1..], now, window)
  {
    var b := PrunedBucket(table[i], now, window);
    var rest := PrunedTable(table[i + 1..], now, window);
    assert table[i..][1..] == table[i + 1..];
    assert done + ([b] + rest) == (done + [b]) + rest;
    assert [] + rest == rest;
  }

  /** An immutable copy of the lists, owned by whoever receives it. */
  class Snapshot {
    const windowSeconds: u32
    const ports: array<SnapshotPort>

    constructor (windowSeconds: u32, ports: array<SnapshotPort>)
      ensures this.windowSeconds == windowSeconds && this.ports == ports
    {
      this.windowSeconds := windowSeconds;
      this.ports := ports;
    }

    method MaxPorts(now: int) returns (maximum: nat)
      requires now == -1 || (now < U32_LIMIT && forall e :: e in ports[..] ==> e.seenAt <= now)
      ensures maximum == if now == -1 then 0 else Pass(ports[..], now, windowSeconds).maximum
      ensures now != -1 && Contiguous(ports[..]) ==> IsLargest(maximum, ports[..], now, windowSeconds)
    {
      maximum := 0;
      if now == -1 {
        return;
      }
      var count := 0;
      for index := 0 to ports.Length
        invariant Tally(count, maximum) == Pass(ports[..index], now, windowSeconds)
      {
        assert ports[..index + 1][..index] == ports[..index];
        assert ports[index] in ports[..];
        if index == 0 || ports[index].src != ports[index - 1].src {
          count := 0;
        }
        if ToUnsigned(now - ports[index].seenAt) <= windowSeconds {
          count := count + 1;
          if count > maximum {
            maximum := count;
          }
        }
      }
      assert ports[..ports.Length] == ports[..];
      if Contiguous(ports[..]) {
        PassIsLargest(ports[..], now, windowSeconds);
      }
    }
  }

  class Detector {
    const windowSeconds: u32
    const threshold: nat
    var sources: seq<SourceEntry>
    var revision: nat
    /** Every qualifying SYN observed so far; the program keeps no such record. */
    ghost var history: seq<Syn>

    ghost predicate Valid()
      reads this, sources
    {
      && Apart(sources)
      && Timely(history)
      && Values(sources) == TableAfter(history, windowSeconds, threshold)
      && revision == |history|
    }

    constructor (window: u32, threshold: nat)
      ensures Valid() && fresh(sources) && history == []
      ensures windowSeconds == (if window == 0 then 10 else window)
      ensures this.threshold == (if threshold == 0 then 20 else threshold)
    {
      windowSeconds := if window == 0 then 10 else window;
      this.threshold := if threshold == 0 then 20 else threshold;
      sources, revision, history := [], 0, [];
    }

    /** Expires one bucket and keeps it behind the ones kept so far, or drops it. */
    method Sift(kept: seq<SourceEntry>, entry: SourceEntry, now: nat) returns (r: seq<SourceEntry>)
      requires entry !in kept && now < U32_LIMIT && Past(entry.Value(), now)
      modifies entry`ports
      ensures var b := PrunedBucket(old(entry.Value()), now, windowSeconds);
              if Idle(b, now, windowSeconds) then r == kept && Values(r) == old(Values(kept))
              else r == kept + [entry] && Values(r) == old(Values(kept)) + [b]
    {
      var idle := entry.Expire(now, windowSeconds);
      r := if idle then kept else kept + [entry];
      assert Values(kept) == old(Values(kept));
      assert Values(kept + [entry]) == Values(kept) + [entry.Value()];
    }

    method PruneSources(now: nat)
      requires Apart(sources)
      requires now < U32_LIMIT && forall i :: 0 <= i < |sources| ==> Past(Values(sources)[i], now)
      modifies this`sources, sources
      ensures Apart(sources)
      ensures forall s :: s in sources ==> s in old(sources)
      ensures Values(sources) == PrunedTable(old(Values(sources)), now, windowSeconds)
    {
      hide Idle, Past, Apart, PrunedBucket, PrunedTable;
      ghost var table := Values(sources);
      var kept: seq<SourceEntry> := [];
      assert kept + sources[0..] == sources && sources[0..] == sources;
      for i := 0 to |sources|
        invariant sources == old(sources)
        invariant forall j :: 0 <= j < |kept| ==> kept[j] in sources
        invariant Apart(kept + sources[i..])
        invariant Values(sources[i..]) == table[i..]
        invariant Values(kept) + PrunedTable(table[i..], now, windowSeconds) == PrunedTable(table, now, windowSeconds)
      {
        ValuesFrom(sources, table, i);
        ApartDrop(kept, sources[i], sources[i + 1..]);
        PrunedFrom(Values(kept), table, i, now, windowSeconds);
        kept := Sift(kept, sources[i], now);
      }
      assert kept + sources[|sources|..] == kept && table[|sources|..] == [];
      PrunedNothing(now, windowSeconds);
      sources := kept;
    }

    method FindOrCreateSource(src: Ipv4) returns (source: SourceEntry)
      requires Apart(sources)
      modifies this`sources
      ensures Apart(sources)
      ensures forall s :: s in sources ==> s in old(sources) || fresh(s)
      ensures Values(sources) == Opened(old(Values(sources)), src)
      ensures FindSource(Values(sources), src) < |sources| && source == sources[FindSource(Values(sources), src)]
    {
      ghost var table := Values(sources);
      for i := 0 to |sources|
        invariant sources == old(sources) && Values(sources) == table
        invariant forall j :: 0 <= j < i ==> table[j].src != src && sources[j].src != src
      {
        assert table[i] == sources[i].Value();
        if sources[i].src == src {
          source := sources[i];
          return;
        }
      }
      source := new SourceEntry(src);
      ApartCons(source, sources);
      sources := [source] + sources;
      assert Values(sources) == [source.Value()] + table;
      assert FindSource(Values(sources), src) == 0;
    }

    /** Expires, finds or opens the source's bucket, and records the port there. */
    method Record(syn: Syn) returns (alert: Option<Alert>)
      requires Apart(sources)
      requires syn.at < U32_LIMIT
      requires WellFormed(Values(sources)) && AllFresh(Values(sources)) && Before(Values(sources), syn.at)
      modifies this`sources, sources
      ensures Apart(sources)
      ensures forall s :: s in sources ==> s in old(sources) || fresh(s)
      ensures Outcome(Values(sources), alert) == Observed(old(Values(sources)), syn, windowSeconds, threshold)
    {
      hide PrunedTable, PrunedBucket, Upserted, IndexOf, Pruned, Apart;
      OpenedBuckets(Values(sources), syn, windowSeconds);
      FreshIsPast(Values(sources), syn.at);
      PruneSources(syn.at);
      var source := FindOrCreateSource(syn.src);
      ghost var wide := Values(sources);
      ghost var k := FindSource(wide, syn.src);
      assert wide[k] == source.Value();
      assert source in sources;
      alert := source.Visit(syn, windowSeconds, threshold);
      assert Values(sources) == wide[k := source.Value()];
    }

    method Advance(syn: Syn) returns (alert: Option<Alert>)
      requires Valid() && Now(history) <= syn.at < U32_LIMIT
      modifies this, sources
      ensures Valid() && history == old(history) + [syn]
      ensures forall s :: s in sources ==> s in old(sources) || fresh(s)
      ensures alert == AlertDue(history, windowSeconds, threshold)
    {
      hide TableAfter, AlertDue, Observed;
      Extended(history, syn, windowSeconds, threshold);
      revision := revision + 1;
      alert := Record(syn);
      history := history + [syn];
    }

    /** One packet at one clock reading. The answer is the alert that the whole history of
        qualifying SYNs calls for; other packets, and a failed clock, leave everything as it was. */
    method ObserveAt(packet: PacketInfo, now: int) returns (alert: Option<Alert>)
      requires Valid()
      requires now == -1 || (Now(history) <= now < U32_LIMIT)
      requires revision < U64_MAX
      modifies this, sources
      ensures Valid()
      ensures forall s :: s in sources ==> s in old(sources) || fresh(s)
      ensures if Qualifies(packet) && now != -1
              then history == old(history) + [Syn(packet.srcIpv4, packet.dstPort, now)]
                   && alert == AlertDue(history, windowSeconds, threshold)
              else history == old(history) && sources == old(sources) && alert == None
    {
      hide Valid, AlertDue;
      alert := None;
      if Qualifies(packet) && now != -1 {
        alert := Advance(Syn(packet.srcIpv4, packet.dstPort, now));
      }
    }

    method CountEntries() returns (count: nat)
      ensures count == |Flattened(Values(sources))|
    {
      count := 0;
      for i := 0 to |sources|
        invariant count == |Flattened(Values(sources[..i]))|
      {
        FlattenedGrows(sources, i);
        count := count + |sources[i].ports|;
      }
      assert sources[..|sources|] == sources;
    }

    method FillEntries(ports: array<SnapshotPort>)
      requires ports.Length == |Flattened(Values(sources))|
      modifies ports
      ensures ports[..] == Flattened(Values(sources))
    {
      var index: nat := 0;
      for i := 0 to |sources|
        invariant index <= ports.Length && ports[..index] == Flattened(Values(sources[..i]))
      {
        FlattenedGrows(sources, i);
        FlattenedPrefix(sources, i + 1);
        index := sources[i].CopyPorts(ports, index);
      }
      assert sources[..|sources|] == sources;
      assert ports[..index] == ports[..];
    }

    /** Copies the lists, sources in list order, into a buffer of exactly the needed size;
        `memory` is whether the allocation succeeds. */
    method TakeSnapshot(memory: bool) returns (snapshot: Snapshot?)
      requires Valid()
      ensures snapshot == null <==> !memory
      ensures snapshot != null ==>
                && fresh(snapshot) && fresh(snapshot.ports)
                && snapshot.windowSeconds == windowSeconds
                && snapshot.ports[..] == Flattened(TableAfter(history, windowSeconds, threshold))
    {
      var count := CountEntries();
      if !memory {
        return null;
      }
      var ports := new SnapshotPort[count](_ => SnapshotPort(NO_ADDRESS, 0));
      FillEntries(ports);
      snapshot := new Snapshot(windowSeconds, ports);
    }
  }

  lemma {:induction false} FlattenedConcat(a: seq<Bucket>, b: seq<Bucket>)
    ensures Flattened(a + b) == Flattened(a) + Flattened(b)
  {
    hide Row;
    if a == [] {
      assert a + b == b;
    } else {
      var row := Row(a[0].src, a[0].ports);
      FlattenedConcat(a[1..], b);
      assert (a + b)[0] == a[0] && (a + b)[1..] == a[1..] + b;
      assert Flattened(a + b) == row + (Flattened(a[1..]) + Flattened(b));
    }
  }

  lemma FlattenedGrows(sources: seq<SourceEntry>, i: nat)
    requires i < |sources|
    ensures Flattened(Values(sources[..i + 1]))
         == Flattened(Values(sources[..i])) + Row(sources[i].src, sources[i].ports)
    ensures |Row(sources[i].src, sources[i].ports)| == |sources[i].ports|
  {
    assert Values(sources[..i + 1]) == Values(sources[..i]) + [sources[i].Value()];
    FlattenedConcat(Values(sources[..i]), [sources[i].Value()]);
    RowSources(sources[i].src, sources[i].ports);
    assert Flattened([sources[i].Value()]) == Row(sources[i].src, sources[i].ports);
  }

  lemma FlattenedPrefix(sources: seq<SourceEntry>, i: nat)
    requires i <= |sources|
    ensures |Flattened(Values(sources[..i]))| <= |Flattened(Values(sources))|
  {
    assert Values(sources) == Values(sources[..i]) + Values(sources[i..]);
    FlattenedConcat(Values(sources[..i]), Values(sources[i..]));
  }
}

/** Event rules, and the SSH table as the heap list the capture thread relinks in place. */
module RulesEngine {
  import opened LedActions
  import opened NetTypes
  import opened Packets
  import D = SshDedup

  datatype Severity = Info | Alarm
  datatype EventKind = KindArp | KindIpv6Observed | KindIpv4Protocol | KindIcmp | KindTcp | KindUdp | KindPortScan

  datatype Event = Event(kind: EventKind, severity: Severity, ledAction: LedAction, packet: PacketInfo,
                         scanUniquePorts: nat, scanWindowSeconds: nat)

  function PacketEvent(p: PacketInfo, kind: EventKind, severity: Severity, led: LedAction): Event {
    Event(kind, severity, led, p, 0, 0)
  }

  predicate SshInitialSyn(p: PacketInfo) {
    p.dstPort == 22 && InitialSyn(p.tcpFlags)
  }

  /** `rules_evaluate_packet`: the first matching layer decides. */
  function Classified(p: PacketInfo): Option<Event> {
    if p.malformed || p.truncated then None
    else if p.hasArp then Some(PacketEvent(p, KindArp, Info, LedNone))
    else if p.isIpv6Observed then Some(PacketEvent(p, KindIpv6Observed, Info, LedNone))
    else if p.hasIcmp then Some(PacketEvent(p, KindIcmp, Info, if p.icmpType == 8 then LedShort else LedNone))
    else if p.hasTcp then
      Some(if SshInitialSyn(p) then PacketEvent(p, KindTcp, Alarm, LedLong) else PacketEvent(p, KindTcp, Info, LedNone))
    else if p.hasUdp then Some(PacketEvent(p, KindUdp, Info, LedNone))
    else if p.hasIpv4 then Some(PacketEvent(p, KindIpv4Protocol, Info, LedNone))
    else None
  }

  /** Whether classifying the packet consults the SSH table. */
  predicate ConsultsTable(p: PacketInfo) {
    Classified(p).Some? && Classified(p).value.severity == Alarm
  }

  function ScanEvent(src: Ipv4, uniquePorts: nat, windowSeconds: nat): Event {
    Event(KindPortScan, Alarm, LedRapid, Reset(0, 0).(hasIpv4 := true, srcIpv4 := src), uniquePorts, windowSeconds)
  }

  function KeyOf(p: PacketInfo): D.Key {
    D.Key(p.srcIpv4, p.dstIpv4, p.srcPort, p.dstPort, p.tcpSequence)
  }

  class AttemptNode {
    const key: D.Key
    var seenAt: nat
    var next: AttemptNode?

    constructor (key: D.Key, seenAt: nat, next: AttemptNode?)
      ensures this.key == key && this.seenAt == seenAt && this.next == next
    {
      this.key, this.seenAt, this.next := key, seenAt, next;
    }
  }

  function At(nodes: seq<AttemptNode>, i: nat): AttemptNode? {
    if i < |nodes| then nodes[i] else null
  }

  function Last(nodes: seq<AttemptNode>): AttemptNode? {
    if nodes == [] then null else nodes[|nodes| - 1]
  }

  /** `nodes` are the nodes met when following `next` from `head` to the end, each once. */
  ghost predicate Linked(head: AttemptNode?, nodes: seq<AttemptNode>)
    reads (set n | n in nodes)`next
  {
    && head == At(nodes, 0)
    && (forall i :: 0 <= i < |nodes| ==> nodes[i].next == At(nodes, i + 1))
    && Distinct(nodes)
  }

  ghost function Value(n: AttemptNode): D.Attempt
    reads n`seenAt
  {
    D.Attempt(n.key, n.seenAt)
  }

  ghost function Attempts(nodes: seq<AttemptNode>): (r: seq<D.Attempt>)
    reads (set n | n in nodes)`seenAt
    ensures |r| == |nodes|
    ensures forall i :: 0 <= i < |r| ==> r[i] == Value(nodes[i])
  {
    if nodes == [] then [] else [Value(nodes[0])] + Attempts(nodes[1..])
  }

  predicate Distinct(nodes: seq<AttemptNode>) {
    forall i, j :: 0 <= i < j < |nodes| ==> nodes[i] != nodes[j]
  }

  function After(nodes: seq<AttemptNode>, i: nat, end: AttemptNode?): AttemptNode? {
    if i + 1 < |nodes| then nodes[i + 1] else end
  }

  /** Following `next` through `nodes` leads to `end`. */
  ghost predicate Chain(nodes: seq<AttemptNode>, end: AttemptNode?)
    reads (set n | n in nodes)`next
  {
    forall i :: 0 <= i < |nodes| ==> nodes[i].next == After(nodes, i, end)
  }

  lemma Split(head: AttemptNode?, a: seq<AttemptNode>, x: AttemptNode, b: seq<AttemptNode>)
    requires Linked(head, a + ([x] + b))
    ensures Chain(a, x) && Chain(b, null) && x.next == At(b, 0)
    ensures x !in a && Distinct(a + b)
    ensures head == if a == [] then x else a[0]
    ensures Linked(head, (a + [x]) + b)
  {
    var all := a + ([x] + b);
    assert all == (a + [x]) + b && all[|a|] == x;
    assert forall i :: 0 <= i < |a| ==> all[i] == a[i];
    forall i | 0 <= i < |b| ensures b[i].next == At(b, i + 1) {
      assert all[|a| + 1 + i] == b[i] && At(all, |a| + 1 + i + 1) == At(b, i + 1);
    }
    assert At(all, |a| + 1) == At(b, 0);
    assert Distinct(all);
    DropOne(a, x, b);
  }

  lemma DropOne(a: seq<AttemptNode>, x: AttemptNode, b: seq<AttemptNode>)
    requires Distinct(a + ([x] + b))
    ensures Distinct(a + b)
  {
    var all := a + ([x] + b);
    forall i, j | 0 <= i < j < |a + b| ensures (a + b)[i] != (a + b)[j] {
      assert (a + b)[i] == all[if i < |a| then i else i + 1];
      assert (a + b)[j] == all[if j < |a| then j else j + 1];
    }
  }

  lemma Join(head: AttemptNode?, a: seq<AttemptNode>, b: seq<AttemptNode>)
    requires Chain(a, At(b, 0)) && Chain(b, null) && Distinct(a + b)
    requires head == if a == [] then At(b, 0) else a[0]
    ensures Linked(head, a + b)
  {
    var all := a + b;
    assert At(all, |a|) == At(b, 0);
    forall i | 0 <= i < |all| ensures all[i].next == At(all, i + 1) {
      if i < |a| {
        assert all[i] == a[i];
      } else {
        assert all[i] == b[i - |a|];
      }
    }
  }

  /** The nodes that stay when the attempts they hold are `table`. */
  ghost function Survivors(all: seq<AttemptNode>, table: seq<D.Attempt>, now: int): seq<AttemptNode>
    requires |all| == |table|
  {
    if all == [] then []
    else (if D.Recent(now, table[0].seenAt) then [all[0]] else []) + Survivors(all[1..], table[1..], now)
  }

  lemma SurvivorsFrom(kept: seq<AttemptNode>, all: seq<AttemptNode>, table: seq<D.Attempt>, i: nat, now: int)
    requires i < |all| == |table|
    ensures kept + Survivors(all[i..], table[i..], now)
         == (if D.Recent(now, table[i].seenAt) then kept + [all[i]] else kept)
            + Survivors(all[i + 1..], table[i + 1..], now)
  {
    var rest := Survivors(all[i + 1..], table[i + 1..], now);
    assert all[i..][1..] == all[i + 1..] && table[i..][1..] == table[i + 1..];
    assert kept + ([all[i]] + rest) == (kept + [all[i]]) + rest;
  }

  lemma {:induction false} SurvivorsHold(all: seq<AttemptNode>, table: seq<D.Attempt>, now: int)
    requires |all| == |table| && forall j :: 0 <= j < |all| ==> table[j] == Value(all[j])
    ensures Attempts(Survivors(all, table, now)) == D.Pruned(table, now)
    ensures forall n :: n in Survivors(all, table, now) ==> n in all
  {
    if all != [] {
      SurvivorsHold(all[1..], table[1..], now);
      var rest := Survivors(all[1..], table[1..], now);
      assert ([all[0]] + rest)[1..] == rest;
      assert [] + rest == rest;
    }
  }

  lemma NoSurvivors(now: int)
    ensures Survivors([], [], now) == []
  {
  }

  lemma LinkedHead(head: AttemptNode?, nodes: seq<AttemptNode>)
    requires Linked(head, nodes)
    ensures head == At(nodes, 0)
  {
  }

  lemma {:induction false} FoundAt(table: seq<D.Attempt>, key: D.Key, i: nat)
    requires i <= |table| && forall j :: 0 <= j < i ==> table[j].key != key
    requires i < |table| ==> table[i].key == key
    ensures D.Find(table, key) == i
  {
  }

  lemma AttemptsPast(nodes: seq<AttemptNode>, now: int)
    requires forall a :: a in Attempts(nodes) ==> a.seenAt <= now
    ensures forall i :: 0 <= i < |nodes| ==> nodes[i].seenAt <= now
  {
    forall i | 0 <= i < |nodes| ensures nodes[i].seenAt <= now {
      assert Attempts(nodes)[i] in Attempts(nodes);
    }
  }

  lemma LinkedCons(head: AttemptNode?, x: AttemptNode, nodes: seq<AttemptNode>)
    requires Linked(head, nodes) && x.next == head && x !in nodes
    ensures Linked(x, [x] + nodes)
  {
    var all := [x] + nodes;
    assert At(all, 1) == At(nodes, 0);
    forall i | 0 <= i < |all| ensures all[i].next == At(all, i + 1) {
      assert i > 0 ==> all[i] == nodes[i - 1] && At(all, i + 1) == At(nodes, i);
    }
  }

  class Engine {
    var sshAttempts: AttemptNode?
    ghost var nodes: seq<AttemptNode>
    /** Every SSH sighting so far; the program keeps no such record. */
    ghost var history: seq<D.Sighting>

    ghost predicate Valid()
      reads this, nodes
    {
      && Linked(sshAttempts, nodes)
      && D.Timely(history)
      && Attempts(nodes) == D.TableAfter(history)
    }

    constructor ()
      ensures Valid() && history == [] && nodes == []
    {
      sshAttempts, nodes, history := null, [], [];
    }

    /** Takes the node after `previous` (the first node, if there is none) out of the list. */
    method Unlink(previous: AttemptNode?, next: AttemptNode?,
                  ghost a: seq<AttemptNode>, ghost x: AttemptNode, ghost b: seq<AttemptNode>)
      requires Chain(a, x) && Chain(b, null) && Distinct(a + b)
      requires sshAttempts == if a == [] then x else a[0]
      requires previous == Last(a) && next == At(b, 0)
      modifies this`sshAttempts, (set n | n in a)`next
      ensures Linked(sshAttempts, a + b)
    {
      if previous == null {
        sshAttempts := next;
      } else {
        assert forall i :: 0 <= i < |a| ==> (a + b)[i] == a[i];
        assert forall i :: 0 <= i < |b| ==> (a + b)[|a| + i] == b[i];
        previous.next := next;
      }
      Join(sshAttempts, a, b);
    }

    /** Keeps the node after `previous`, or unlinks it when it is older than the window. */
    method Visit(previous: AttemptNode?, current: AttemptNode, now: nat,
                 ghost a: seq<AttemptNode>, ghost b: seq<AttemptNode>)
      returns (last: AttemptNode?, next: AttemptNode?, ghost kept: seq<AttemptNode>)
      requires Linked(sshAttempts, a + ([current] + b)) && previous == Last(a)
      requires current.seenAt <= now < U32_LIMIT
      modifies this`sshAttempts, (set n | n in a)`next
      ensures kept == if D.Recent(now, current.seenAt) then a + [current] else a
      ensures last == Last(kept) && next == At(b, 0)
      ensures Linked(sshAttempts, kept + b)
    {
      Split(sshAttempts, a, current, b);
      next := current.next;
      if ToUnsigned(now - current.seenAt) > D.DEDUP_SECONDS {
        Unlink(previous, next, a, current, b);
        last, kept := previous, a;
      } else {
        last, kept := current, a + [current];
      }
    }

    /** Unlinks every node older than the window, in place. */
    method PruneAttempts(now: nat)
      requires Linked(sshAttempts, nodes) && now < U32_LIMIT
      requires forall i :: 0 <= i < |nodes| ==> nodes[i].seenAt <= now
      modifies this`sshAttempts, this`nodes, (set n | n in nodes)`next
      ensures Linked(sshAttempts, nodes)
      ensures forall n :: n in nodes ==> n in old(nodes)
      ensures Attempts(nodes) == D.Pruned(old(Attempts(nodes)), now)
    {
      hide Linked, D.Pruned, Attempts, Survivors;
      ghost var all, table := nodes, Attempts(nodes);
      var previous: AttemptNode? := null;
      var current := sshAttempts;
      ghost var kept: seq<AttemptNode> := [];
      ghost var i := 0;
      assert kept + all[0..] == all && all[0..] == all && table[0..] == table;
      assert kept + Survivors(all, table, now) == Survivors(all, table, now);
      LinkedHead(sshAttempts, all);
      while current != null
        invariant 0 <= i <= |all| && current == At(all, i) && previous == Last(kept)
        invariant Linked(sshAttempts, kept + all[i..])
        invariant forall j :: 0 <= j < |all| ==> table[j] == Value(all[j])
        invariant kept + Survivors(all[i..], table[i..], now) == Survivors(all, table, now)
        invariant forall n :: n in kept ==> n in all
        decreases |all| - i
      {
        assert all[i..] == [all[i]] + all[i + 1..] && table[i] == Value(all[i]);
        SurvivorsFrom(kept, all, table, i, now);
        previous, current, kept := Visit(previous, current, now, kept, all[i + 1..]);
        i := i + 1;
      }
      assert kept + all[i..] == kept && all[i..] == [] && table[i..] == [];
      NoSurvivors(now);
      nodes := kept;
      SurvivorsHold(all, table, now);
    }

    /** Walks the list to the node of `key`. */
    method FindNode(key: D.Key) returns (current: AttemptNode?)
      requires Linked(sshAttempts, nodes)
      ensures current == At(nodes, D.Find(Attempts(nodes), key))
    {
      hide D.Find;
      ghost var table := Attempts(nodes);
      ghost var i := 0;
      current := sshAttempts;
      while current != null
        invariant 0 <= i <= |nodes| && current == At(nodes, i)
        invariant forall j :: 0 <= j < i ==> table[j].key != key
        decreases |nodes| - i
      {
        assert table[i] == Value(current);
        if current.key == key {
          FoundAt(table, key, i);
          return;
        }
        i := i + 1;
        current := current.next;
      }
      FoundAt(table, key, i);
    }

    method Refresh(current: AttemptNode, ghost i: nat, now: nat)
      requires Linked(sshAttempts, nodes) && i < |nodes| && nodes[i] == current
      modifies current`seenAt
      ensures Linked(sshAttempts, nodes)
      ensures Attempts(nodes) == old(Attempts(nodes))[i := D.Attempt(current.key, now)]
    {
      current.seenAt := now;
    }

    method Prepend(key: D.Key, now: nat)
      requires Linked(sshAttempts, nodes)
      modifies this`sshAttempts, this`nodes
      ensures Linked(sshAttempts, nodes)
      ensures |nodes| == |old(nodes)| + 1 && nodes[1..] == old(nodes) && fresh(nodes[0])
      ensures Attempts(nodes) == [D.Attempt(key, now)] + old(Attempts(nodes))
    {
      var entry := new AttemptNode(key, now, sshAttempts);
      LinkedCons(sshAttempts, entry, nodes);
      nodes := [entry] + nodes;
      sshAttempts := entry;
      assert nodes[1..] == old(nodes);
    }

    /** Expires the list, then refreshes the node of a known attempt or puts a new one in front. */
    method Sight(s: D.Sighting) returns (escalate: bool)
      requires Linked(sshAttempts, nodes) && s.at < U32_LIMIT
      requires forall a :: a in Attempts(nodes) ==> a.seenAt <= s.at
      modifies this`sshAttempts, this`nodes, nodes
      ensures Linked(sshAttempts, nodes)
      ensures forall n :: n in nodes ==> n in old(nodes) || fresh(n)
      ensures D.Outcome(Attempts(nodes), escalate) == D.Sighted(old(Attempts(nodes)), s)
    {
      hide D.Pruned, D.Find, Attempts, Linked;
      AttemptsPast(nodes, s.at);
      PruneAttempts(s.at);
      var current := FindNode(s.key);
      if current != null {
        assert current in nodes;
        Refresh(current, D.Find(Attempts(nodes), s.key), s.at);
        escalate := false;
      } else {
        Prepend(s.key, s.at);
        escalate := true;
      }
    }

    /** Whether an SSH SYN read at clock `now` is an alert. The answer is that of a map which never
        expires an entry; when the clock fails the alert is kept and nothing is recorded. */
    method ShouldEscalate(packet: PacketInfo, now: int) returns (escalate: bool)
      requires Valid()
      requires now == -1 || (D.Now(history) <= now < U32_LIMIT)
      modifies this, nodes
      ensures Valid()
      ensures forall n :: n in nodes ==> n in old(nodes) || fresh(n)
      ensures if now == -1 then escalate && history == old(history) && nodes == old(nodes)
              else history == old(history) + [D.Sighting(KeyOf(packet), now)]
                   && (escalate <==> D.AlertDue(history))
    {
      hide D.TableAfter, D.AlertDue, D.Sighted, Linked, Attempts;
      if now == -1 {
        return true;
      }
      var s := D.Sighting(KeyOf(packet), now);
      D.Extended(history, s);
      escalate := Sight(s);
      history := history + [s];
    }

    /** `rules_engine_evaluate_packet`: an SSH SYN that repeats within the window is demoted. */
    method EvaluatePacket(packet: PacketInfo, now: int) returns (event: Option<Event>)
      requires Valid()
      requires now == -1 || (D.Now(history) <= now < U32_LIMIT)
      modifies this, nodes
      ensures Valid()
      ensures forall n :: n in nodes ==> n in old(nodes) || fresh(n)
      ensures if ConsultsTable(packet) && now != -1
              then history == old(history) + [D.Sighting(KeyOf(packet), now)]
              else history == old(history) && nodes == old(nodes)
      ensures event == if ConsultsTable(packet) && now != -1 && !D.AlertDue(history)
                       then Some(PacketEvent(packet, KindTcp, Info, LedNone)) else Classified(packet)
    {
      hide Valid, D.AlertDue;
      event := Classified(packet);
      if event.Some? && event.value.kind == KindTcp && event.value.severity == Alarm && SshInitialSyn(packet) {
        var escalate := ShouldEscalate(packet, now);
        if !escalate {
          event := Some(PacketEvent(packet, KindTcp, Info, LedNone));
        }
      }
    }
  }
}

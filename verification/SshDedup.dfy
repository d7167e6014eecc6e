/** Which SSH connection attempts raise an alert, over a whole run. */
module SshDedup {
  import opened NetTypes

  const DEDUP_SECONDS: int := 5

  /** The five fields that make two SYNs the same attempt. */
  datatype Key = Key(src: Ipv4, dst: Ipv4, srcPort: u16, dstPort: u16, sequence: u32)
  datatype Attempt = Attempt(key: Key, seenAt: nat)
  datatype Sighting = Sighting(key: Key, at: nat)

  predicate Recent(now: int, seenAt: int) {
    now - seenAt <= DEDUP_SECONDS
  }

  function Pruned(table: seq<Attempt>, now: int): seq<Attempt> {
    if table == [] then []
    else if Recent(now, table[0].seenAt) then [table[0]] + Pruned(table[1..], now)
    else Pruned(table[1..], now)
  }

  /** Position of `key`, or the length when it is absent. */
  function Find(table: seq<Attempt>, key: Key): (i: nat)
    ensures i <= |table|
    ensures i < |table| ==> table[i].key == key
    ensures forall j :: 0 <= j < i ==> table[j].key != key
  {
    if table == [] || table[0].key == key then 0 else 1 + Find(table[1..], key)
  }

  datatype Outcome = Outcome(table: seq<Attempt>, escalate: bool)

  /** One sighting: expire, then refresh a known key silently or add a new one with an alert. */
  function Sighted(table: seq<Attempt>, s: Sighting): Outcome {
    var kept := Pruned(table, s.at);
    var i := Find(kept, s.key);
    if i < |kept| then Outcome(kept[i := Attempt(s.key, s.at)], false)
    else Outcome([Attempt(s.key, s.at)] + kept, true)
  }

  // ----- The map that never prunes -----

  ghost predicate Timely(h: seq<Sighting>) {
    && (forall i :: 0 <= i < |h| ==> h[i].at < U32_LIMIT)
    && (forall i, j :: 0 <= i < j < |h| ==> h[i].at <= h[j].at)
  }

  function Now(h: seq<Sighting>): nat {
    if h == [] then 0 else h[|h| - 1].at
  }

  /** When `key` was last sighted in the whole history. */
  function LastSighting(h: seq<Sighting>, key: Key): Option<nat> {
    if h == [] then None
    else if h[|h| - 1].key == key then Some(h[|h| - 1].at)
    else LastSighting(h[..|h| - 1], key)
  }

  /** The newest sighting is an alert unless its key was sighted in the 5 seconds before. */
  predicate AlertDue(h: seq<Sighting>)
    requires h != []
  {
    var s := h[|h| - 1];
    var last := LastSighting(h[..|h| - 1], s.key);
    last.None? || s.at - last.value > 5
  }

  // ----- The pruned table over a run -----

  function TableAfter(h: seq<Sighting>): seq<Attempt> {
    if h == [] then [] else Sighted(TableAfter(h[..|h| - 1]), h[|h| - 1]).table
  }

  predicate Escalated(h: seq<Sighting>)
    requires h != []
  {
    Sighted(TableAfter(h[..|h| - 1]), h[|h| - 1]).escalate
  }

  predicate DistinctKeys(table: seq<Attempt>) {
    forall i, j :: 0 <= i < j < |table| ==> table[i].key != table[j].key
  }

  function SeenAt(table: seq<Attempt>, key: Key): Option<nat> {
    var i := Find(table, key);
    if i < |table| then Some(table[i].seenAt) else None
  }

  function Clipped(seen: Option<nat>, now: int): Option<nat> {
    if seen.Some? && Recent(now, seen.value) then seen else None
  }

  /** The table holds exactly the keys of the last 5 seconds, each once, at its latest time. */
  ghost predicate HoldsRecent(table: seq<Attempt>, h: seq<Sighting>) {
    && DistinctKeys(table)
    && forall k: Key :: SeenAt(table, k) == Clipped(LastSighting(h, k), Now(h))
  }

  lemma {:induction false} PrunedMembers(table: seq<Attempt>, now: int)
    ensures forall a :: a in Pruned(table, now) <==> a in table && Recent(now, a.seenAt)
  {
    if table != [] {
      PrunedMembers(table[1..], now);
      assert table == [table[0]] + table[1..];
    }
  }

  lemma {:induction false} PrunedDistinct(table: seq<Attempt>, now: int)
    requires DistinctKeys(table)
    ensures DistinctKeys(Pruned(table, now))
  {
    if table != [] {
      PrunedDistinct(table[1..], now);
      PrunedMembers(table[1..], now);
      var rest := Pruned(table[1..], now);
      forall j | 0 <= j < |rest| ensures rest[j].key != table[0].key {
        assert rest[j] in table[1..];
      }
    }
  }

  lemma SeenIffMember(table: seq<Attempt>, key: Key)
    requires DistinctKeys(table)
    ensures forall t: nat :: SeenAt(table, key) == Some(t) <==> Attempt(key, t) in table
  {
    forall t: nat | Attempt(key, t) in table ensures SeenAt(table, key) == Some(t) {
      var j :| 0 <= j < |table| && table[j] == Attempt(key, t);
    }
  }

  lemma PrunedSeen(table: seq<Attempt>, key: Key, now: int)
    requires DistinctKeys(table)
    ensures SeenAt(Pruned(table, now), key) == Clipped(SeenAt(table, key), now)
  {
    PrunedMembers(table, now);
    PrunedDistinct(table, now);
    SeenIffMember(table, key);
    SeenIffMember(Pruned(table, now), key);
    if SeenAt(table, key).Some? {
      assert Attempt(key, SeenAt(table, key).value) in table;
    }
    if SeenAt(Pruned(table, now), key).Some? {
      assert Attempt(key, SeenAt(Pruned(table, now), key).value) in table;
    }
  }

  lemma SightedSeen(table: seq<Attempt>, s: Sighting, key: Key)
    requires DistinctKeys(table)
    ensures var r := Sighted(table, s);
            && DistinctKeys(r.table)
            && SeenAt(r.table, key) == (if key == s.key then Some(s.at) else Clipped(SeenAt(table, key), s.at))
            && r.escalate == Clipped(SeenAt(table, s.key), s.at).None?
  {
    var kept := Pruned(table, s.at);
    var r := Sighted(table, s).table;
    PrunedDistinct(table, s.at);
    PrunedSeen(table, key, s.at);
    PrunedSeen(table, s.key, s.at);
    var k := Find(kept, s.key);
    assert r[if k < |kept| then k else 0] == Attempt(s.key, s.at);
    SeenIffMember(r, key);
    if key != s.key {
      if SeenAt(kept, key).Some? {
        var i := Find(kept, key);
        assert r[if k < |kept| then i else i + 1] == kept[i];
      }
      if SeenAt(r, key).Some? {
        var i := Find(r, key);
        assert r[i] in kept;
        SeenIffMember(kept, key);
      }
    }
  }

  lemma StepRefines(table: seq<Attempt>, h: seq<Sighting>, s: Sighting)
    requires Timely(h + [s]) && HoldsRecent(table, h)
    ensures HoldsRecent(Sighted(table, s).table, h + [s])
    ensures Sighted(table, s).escalate <==> AlertDue(h + [s])
  {
    var g := h + [s];
    assert g[..|g| - 1] == h;
    assert Now(h) <= s.at by {
      if h != [] {
        assert g[|h| - 1] == h[|h| - 1] && g[|h|] == s;
      }
    }
    SightedSeen(table, s, s.key);
    assert SeenAt(table, s.key) == Clipped(LastSighting(h, s.key), Now(h));
    forall k: Key
      ensures SeenAt(Sighted(table, s).table, k) == Clipped(LastSighting(g, k), Now(g))
    {
      SightedSeen(table, s, k);
      assert SeenAt(table, k) == Clipped(LastSighting(h, k), Now(h));
    }
  }

  lemma {:induction false} RunRefines(h: seq<Sighting>)
    requires Timely(h)
    ensures HoldsRecent(TableAfter(h), h)
  {
    if h != [] {
      var g := h[..|h| - 1];
      RunRefines(g);
      assert h == g + [h[|h| - 1]];
      StepRefines(TableAfter(g), g, h[|h| - 1]);
    }
  }

  /** On every run a SYN escalates exactly when its key was not sighted in the 5 seconds before,
      where every sighting counts, including the silent ones. */
  lemma EscalatesWhenNotSeen(h: seq<Sighting>)
    requires Timely(h) && h != []
    ensures Escalated(h) <==> AlertDue(h)
  {
    var g := h[..|h| - 1];
    RunRefines(g);
    assert h == g + [h[|h| - 1]];
    StepRefines(TableAfter(g), g, h[|h| - 1]);
  }

  /** One more sighting, seen from the object that holds the table. */
  lemma Extended(h: seq<Sighting>, s: Sighting)
    requires Timely(h) && Now(h) <= s.at < U32_LIMIT
    ensures Timely(h + [s])
    ensures TableAfter(h + [s]) == Sighted(TableAfter(h), s).table
    ensures AlertDue(h + [s]) <==> Sighted(TableAfter(h), s).escalate
    ensures forall a :: a in TableAfter(h) ==> a.seenAt <= s.at
  {
    assert (h + [s])[..|h|] == h;
    EscalatesWhenNotSeen(h + [s]);
    RunRefines(h);
    LastSightingPast(h);
    forall a | a in TableAfter(h) ensures a.seenAt <= s.at {
      SeenIffMember(TableAfter(h), a.key);
      assert a == Attempt(a.key, a.seenAt);
      assert SeenAt(TableAfter(h), a.key) == Clipped(LastSighting(h, a.key), Now(h));
    }
  }

  lemma {:induction false} LastSightingPast(h: seq<Sighting>)
    requires Timely(h)
    ensures forall k: Key :: LastSighting(h, k).Some? ==> LastSighting(h, k).value <= Now(h)
  {
    if h != [] {
      LastSightingPast(h[..|h| - 1]);
    }
  }

  // ----- Bursts -----

  /** The times at which `key` was sighted. */
  function Times(h: seq<Sighting>, key: Key): seq<nat> {
    if h == [] then []
    else Times(h[..|h| - 1], key) + if h[|h| - 1].key == key then [h[|h| - 1].at] else []
  }

  /** How many neighbouring times are more than 5 seconds apart. */
  function LongGaps(ts: seq<nat>): nat {
    if |ts| < 2 then 0
    else LongGaps(ts[..|ts| - 1]) + if ts[|ts| - 1] > ts[|ts| - 2] + 5 then 1 else 0
  }

  /** How many alerts the run raised for `key`. */
  function AlertCount(h: seq<Sighting>, key: Key): nat {
    if h == [] then 0
    else AlertCount(h[..|h| - 1], key) + if h[|h| - 1].key == key && Escalated(h) then 1 else 0
  }

  lemma {:induction false} LastTime(h: seq<Sighting>, key: Key)
    ensures LastSighting(h, key) == var ts := Times(h, key); if ts == [] then None else Some(ts[|ts| - 1])
  {
    if h != [] {
      LastTime(h[..|h| - 1], key);
    }
  }

  function Bursts(ts: seq<nat>): nat {
    if ts == [] then 0 else 1 + LongGaps(ts)
  }

  lemma BurstsGrow(ts: seq<nat>, t: nat)
    ensures Bursts(ts + [t]) == Bursts(ts) + if ts == [] || t > ts[|ts| - 1] + 5 then 1 else 0
  {
    assert (ts + [t])[..|ts|] == ts;
  }

  /** A run raises one alert per burst: one for the first sighting of a key and one more for each
      silence of over 5 seconds between two sightings. */
  lemma {:induction false} OneAlertPerBurst(h: seq<Sighting>, key: Key)
    requires Timely(h)
    ensures AlertCount(h, key) == Bursts(Times(h, key))
  {
    hide Escalated, Bursts;
    if h == [] {
      assert Bursts([]) == 0 by {
        NoBursts();
      }
    } else {
      var g := h[..|h| - 1];
      OneAlertPerBurst(g, key);
      EscalatesWhenNotSeen(h);
      LastTime(g, key);
      BurstsGrow(Times(g, key), h[|h| - 1].at);
      assert Times(g, key) + [] == Times(g, key);
    }
  }

  lemma NoBursts()
    ensures Bursts([]) == 0
  {
  }
}

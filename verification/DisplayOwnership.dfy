/** Every snapshot has one owner at every moment and is freed once. */
module DisplayOwnership {
  import opened NetTypes
  import opened ScanHistory
  import opened ScanSnapshot
  import opened Tm1637Device
  import opened DisplayProtocol

  /** All ids ever allocated, once each. */
  function Ids(n: nat): multiset<nat> {
    if n == 0 then multiset{} else Ids(n - 1) + multiset{n - 1}
  }

  function One(o: Option<nat>): multiset<nat> {
    if o.Some? then multiset{o.value} else multiset{}
  }

  /** What the capture thread holds: the snapshot it is about to publish or the one it replaced. */
  function InProducer(pc: ProducerPc): multiset<nat> {
    match pc
    case PRevision(id) => multiset{id}
    case PExchange(id) => multiset{id}
    case PFree(gone) => One(gone)
    case DFree(gone) => One(gone)
    case _ => multiset{}
  }

  function Held(inProducer: multiset<nat>, pending: Option<nat>, latest: Option<nat>, active: Option<nat>,
                frees: seq<nat>): multiset<nat>
  {
    inProducer + One(pending) + One(latest) + One(active) + multiset(frees)
  }

  /** Every place a snapshot can be, with the list of ids passed to free. */
  function Places(s: State): multiset<nat> {
    Held(InProducer(s.p.pc), s.m.pending, s.w.latest, s.w.active, s.e.frees)
  }

  /** Where each thread must have let go of its snapshots. */
  predicate LetGo(s: State) {
    && (s.w.latest.Some? <==> s.w.pc.WAdopt?)
    && (StartingUp(s.w.pc) || s.w.pc.WClose? || s.w.pc.WDone? ==> s.w.active.None?)
    && (s.p.pc.DExchange? || s.p.pc.DFree? || s.p.pc.DDone? ==> s.w.pc.WDone?)
    && (s.p.pc.DFree? || s.p.pc.DDone? ==> s.m.pending.None?)
  }

  predicate Owned(s: State) {
    Places(s) == Ids(|s.e.heap|) && LetGo(s)
  }

  lemma AdoptMoves(x: multiset<nat>, pending: Option<nat>, latest: Option<nat>, active: Option<nat>, frees: seq<nat>)
    ensures Held(x, pending, None, latest, Freed(frees, active)) == Held(x, pending, latest, active, frees)
  {
    assert multiset(Freed(frees, active)) == multiset(frees) + One(active);
  }

  lemma DropMoves(x: multiset<nat>, pending: Option<nat>, latest: Option<nat>, active: Option<nat>, frees: seq<nat>)
    ensures Held(x, pending, latest, None, Freed(frees, active)) == Held(x, pending, latest, active, frees)
  {
    assert multiset(Freed(frees, active)) == multiset(frees) + One(active);
  }

  lemma TakeMoves(x: multiset<nat>, pending: Option<nat>, active: Option<nat>, frees: seq<nat>)
    ensures Held(x, None, pending, active, frees) == Held(x, pending, None, active, frees)
  {
  }

  lemma ReplaceMoves(pending: Option<nat>, incoming: Option<nat>, latest: Option<nat>, active: Option<nat>,
                     frees: seq<nat>)
    ensures Held(One(pending), incoming, latest, active, frees) == Held(One(incoming), pending, latest, active, frees)
  {
  }

  lemma FreeMoves(gone: Option<nat>, pending: Option<nat>, latest: Option<nat>, active: Option<nat>, frees: seq<nat>)
    ensures Held(multiset{}, pending, latest, active, Freed(frees, gone))
         == Held(One(gone), pending, latest, active, frees)
  {
    assert multiset(Freed(frees, gone)) == multiset(frees) + One(gone);
  }

  lemma AllocationAdds(id: nat, pending: Option<nat>, latest: Option<nat>, active: Option<nat>, frees: seq<nat>)
    ensures Held(multiset{id}, pending, latest, active, frees)
         == Held(multiset{}, pending, latest, active, frees) + multiset{id}
  {
  }

  lemma StartUpKeepsOwned(s: State, ok: bool)
    requires Owned(s) && StartUpNext(s, ok).Some?
    ensures Owned(StartUpNext(s, ok).value)
  {
    hide Ids, Held, Freed, InProducer, Encoded, Woken;
    WakingHoldsNothing(s.p.pc);
    WakingStays(s.p.pc);
  }

  lemma IterationKeepsOwned(s: State, ok: bool)
    requires Owned(s) && IterationNext(s, ok).Some?
    ensures Owned(IterationNext(s, ok).value)
  {
    hide Rendered, Ids, Held, Freed, InProducer, EntriesOf, One;
    var x := InProducer(s.p.pc);
    match s.w.pc
    case WExchange => TakeMoves(x, s.m.pending, s.w.active, s.e.frees);
    case WAdopt => AdoptMoves(x, s.m.pending, s.w.latest, s.w.active, s.e.frees);
    case _ =>
  }

  lemma EndKeepsOwned(s: State, ok: bool)
    requires Owned(s) && EndNext(s, ok).Some?
    ensures Owned(EndNext(s, ok).value)
  {
    hide Ids, Held, Freed, InProducer, One;
    if s.w.pc.WFree? {
      DropMoves(InProducer(s.p.pc), s.m.pending, s.w.latest, s.w.active, s.e.frees);
    }
  }

  lemma WorkerKeepsOwned(s: State, ok: bool)
    requires Owned(s) && WorkerNext(s, ok).Some?
    ensures Owned(WorkerNext(s, ok).value)
  {
    hide Owned, StartUpNext, IterationNext, EndNext;
    if StartingUp(s.w.pc) {
      StartUpKeepsOwned(s, ok);
    } else if Ending(s.w.pc) {
      EndKeepsOwned(s, ok);
    } else {
      IterationKeepsOwned(s, ok);
    }
  }

  lemma WakingStays(pc: ProducerPc)
    ensures Woken(pc) == pc || (pc.MWaiting? && Woken(pc).MWaiting?)
  {
  }

  lemma WakingHoldsNothing(pc: ProducerPc)
    ensures InProducer(Woken(pc)) == InProducer(pc)
  {
  }

  lemma CheckKeepsOwned(s: State, memory: bool)
    requires Owned(s) && PublishNext(s, memory).Some? && s.p.pc.PCheck?
    ensures Owned(PublishNext(s, memory).value)
  {
    hide Held, Flattened, TableAfter, Ids;
    AllocationAdds(|s.e.heap|, s.m.pending, s.w.latest, s.w.active, s.e.frees);
    OneMoreId(|s.e.heap|);
  }

  lemma ExchangeKeepsOwned(s: State, memory: bool)
    requires Owned(s) && s.p.pc.PExchange?
    ensures Owned(PublishNext(s, memory).value)
  {
    hide Held, Freed, Flattened, TableAfter, One, Ids;
    OneIs(s.p.pc.id);
    ReplaceMoves(s.m.pending, Some(s.p.pc.id), s.w.latest, s.w.active, s.e.frees);
  }

  lemma FreeKeepsOwned(s: State, memory: bool)
    requires Owned(s) && s.p.pc.PFree?
    ensures Owned(PublishNext(s, memory).value)
  {
    hide Held, Freed, Flattened, TableAfter, One, Ids;
    FreeMoves(s.p.pc.gone, s.m.pending, s.w.latest, s.w.active, s.e.frees);
  }

  lemma PublishKeepsOwned(s: State, memory: bool)
    requires Owned(s) && PublishNext(s, memory).Some? && !s.p.pc.PCheck?
    ensures Owned(PublishNext(s, memory).value)
  {
    hide Held, Freed, Flattened, TableAfter, One, Ids;
    if s.p.pc.PExchange? {
      hide PublishNext, Owned;
      ExchangeKeepsOwned(s, memory);
    } else if s.p.pc.PFree? {
      hide PublishNext, Owned;
      FreeKeepsOwned(s, memory);
    }
  }

  lemma DestroyKeepsOwned(s: State)
    requires Owned(s) && DestroyNext(s).Some?
    ensures Owned(DestroyNext(s).value)
  {
    hide Held, Freed, One, Ids;
    match s.p.pc
    case DFree(gone) => FreeMoves(gone, s.m.pending, s.w.latest, s.w.active, s.e.frees);
    case DExchange =>
      NoneIs();
      ReplaceMoves(s.m.pending, None, s.w.latest, s.w.active, s.e.frees);
    case _ =>
  }

  lemma ProducerKeepsOwned(s: State, memory: bool)
    requires Owned(s) && ProducerNext(s, memory).Some?
    ensures Owned(ProducerNext(s, memory).value)
  {
    hide PublishNext, DestroyNext, StartNext, RecordNext, Held, Ids, One, Freed;
    if InStart(s.p.pc) || InRecord(s.p.pc) {
      OtherCallsKeepOwned(s, memory);
    } else if s.p.pc.PCheck? {
      CheckKeepsOwned(s, memory);
    } else if InPublish(s.p.pc) {
      PublishKeepsOwned(s, memory);
    } else {
      DestroyKeepsOwned(s);
    }
  }

  lemma StartKeepsOwned(s: State)
    requires Owned(s) && StartNext(s).Some?
    ensures Owned(StartNext(s).value)
  {
    hide Held, Ids, One, Freed;
  }

  lemma RecordKeepsOwned(s: State)
    requires Owned(s) && RecordNext(s).Some?
    ensures Owned(RecordNext(s).value)
  {
    hide Held, Ids, One, Freed;
  }

  lemma OtherCallsKeepOwned(s: State, memory: bool)
    requires Owned(s) && (InStart(s.p.pc) || InRecord(s.p.pc)) && ProducerNext(s, memory).Some?
    ensures Owned(ProducerNext(s, memory).value)
  {
    hide PublishNext, DestroyNext, StartNext, RecordNext, Owned;
    if InStart(s.p.pc) {
      StartKeepsOwned(s);
    } else {
      RecordKeepsOwned(s);
    }
  }

  lemma OneMoreId(n: nat)
    ensures Ids(n + 1) == Ids(n) + multiset{n}
  {
  }

  lemma OneIs(id: nat)
    ensures One(Some(id)) == multiset{id}
  {
  }

  lemma NoneIs()
    ensures One(None) == multiset{}
  {
  }

  lemma StepKeepsOwned(s: State, step: Step)
    requires Owned(s) && Next(s, step).Some?
    ensures Owned(Next(s, step).value)
  {
    hide WorkerNext, ProducerNext, Held, Ids;
    match step
    case WorkerStep(ok) => WorkerKeepsOwned(s, ok);
    case ProducerStep(memory) => ProducerKeepsOwned(s, memory);
    case SpuriousWake =>
    case Tick(_, _) =>
    case Observe(_, _) =>
    case Record(_) =>
    case Publish =>
    case Destroy =>
  }

  /** The state after a schedule, or None when some step of it could not be taken. */
  function After(window: u32, threshold: nat, schedule: seq<Step>): Option<State> {
    if schedule == [] then Some(Initial(window, threshold))
    else
      var n := |schedule| - 1;
      var before := After(window, threshold, schedule[..n]);
      if before.None? then None else Next(before.value, schedule[n])
  }

  lemma {:induction false} EveryScheduleOwned(window: u32, threshold: nat, schedule: seq<Step>)
    requires After(window, threshold, schedule).Some?
    ensures Owned(After(window, threshold, schedule).value)
  {
    hide Next, Owned;
    if schedule == [] {
      InitialOwned(window, threshold);
    } else {
      var n := |schedule| - 1;
      EveryScheduleOwned(window, threshold, schedule[..n]);
      StepKeepsOwned(After(window, threshold, schedule[..n]).value, schedule[n]);
    }
  }

  lemma InitialOwned(window: u32, threshold: nat)
    ensures Owned(Initial(window, threshold))
  {
  }

  lemma {:induction false} IdsOnce(n: nat, id: nat)
    ensures Ids(n)[id] == if id < n then 1 else 0
  {
    if n > 0 {
      IdsOnce(n - 1, id);
    }
  }

  /** Under every schedule a snapshot that was allocated is in exactly one place, and an id that
      was not allocated is nowhere. */
  lemma ExactlyOnePlace(window: u32, threshold: nat, schedule: seq<Step>, id: nat)
    requires After(window, threshold, schedule).Some?
    ensures var s := After(window, threshold, schedule).value;
            Places(s)[id] == if id < |s.e.heap| then 1 else 0
  {
    EveryScheduleOwned(window, threshold, schedule);
    IdsOnce(|After(window, threshold, schedule).value.e.heap|, id);
  }

  /** What a thread may read, pass on or free: it is allocated and was not freed yet. */
  predicate Usable(s: State, id: nat) {
    id < |s.e.heap| && id !in s.e.frees
  }

  /** Under every schedule the snapshots the two threads hold or share - the worker's two, the
      pending one, and the one the capture thread is about to publish or to free - are usable, and
      no snapshot is freed twice. */
  lemma NoUseAfterFree(window: u32, threshold: nat, schedule: seq<Step>)
    requires After(window, threshold, schedule).Some?
    ensures var s := After(window, threshold, schedule).value;
            && (s.w.active.Some? ==> Usable(s, s.w.active.value))
            && (s.w.latest.Some? ==> Usable(s, s.w.latest.value))
            && (s.m.pending.Some? ==> Usable(s, s.m.pending.value))
            && (forall id :: id in InProducer(s.p.pc) ==> Usable(s, id))
            && (forall id :: multiset(s.e.frees)[id] <= 1)
  {
    var s := After(window, threshold, schedule).value;
    hide After;
    forall id: nat ensures Places(s)[id] == if id < |s.e.heap| then 1 else 0 {
      ExactlyOnePlace(window, threshold, schedule, id);
    }
    forall id: nat ensures multiset(s.e.frees)[id] <= 1 {
      assert Places(s)[id] <= 1;
    }
    NotFreed(s, One(s.w.active));
    NotFreed(s, One(s.w.latest));
    NotFreed(s, One(s.m.pending));
    NotFreed(s, InProducer(s.p.pc));
  }

  lemma NotFreed(s: State, held: multiset<nat>)
    requires forall id: nat :: Places(s)[id] == if id < |s.e.heap| then 1 else 0
    requires || held == One(s.w.active) || held == One(s.w.latest)
             || held == One(s.m.pending) || held == InProducer(s.p.pc)
    ensures forall id :: id in held ==> Usable(s, id)
  {
    hide InProducer, One;
    forall id | id in held ensures Usable(s, id) {
      assert Places(s)[id] >= held[id] + multiset(s.e.frees)[id];
      assert id in s.e.frees <==> multiset(s.e.frees)[id] > 0;
    }
  }

  /** When destroy has returned every snapshot ever allocated has been freed exactly once. */
  lemma AllFreedAtTheEnd(window: u32, threshold: nat, schedule: seq<Step>)
    requires After(window, threshold, schedule).Some?
    requires After(window, threshold, schedule).value.p.pc.DDone?
    ensures var s := After(window, threshold, schedule).value;
            multiset(s.e.frees) == Ids(|s.e.heap|)
  {
    EveryScheduleOwned(window, threshold, schedule);
  }
}

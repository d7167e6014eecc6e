/** Snapshots reach the screen in order: a stale one never replaces a newer one. */
module DisplayFreshness {
  import opened NetTypes
  import opened ScanTable
  import opened ScanHistory
  import opened ScanSnapshot
  import opened DisplayProtocol
  import opened DisplayOwnership

  /** The revision of the snapshot in a place; 0 for an empty place. */
  function Rev(heap: seq<Snap>, o: Option<nat>): nat {
    if o.Some? && o.value < |heap| then heap[o.value].revision else 0
  }

  /** A snapshot is what the detector held at its revision. */
  predicate Faithful(snap: Snap, h: seq<Syn>, window: u32, threshold: nat) {
    && 1 <= snap.revision <= |h|
    && snap.entries == Flattened(TableAfter(h[..snap.revision], window, threshold))
  }

  predicate AllFaithful(heap: seq<Snap>, h: seq<Syn>, window: u32, threshold: nat) {
    forall i :: 0 <= i < |heap| ==> Faithful(heap[i], h, window, threshold)
  }

  predicate Allocated(heap: seq<Snap>, o: Option<nat>) {
    o.Some? ==> o.value < |heap| && heap[o.value].revision > 0
  }

  /** On the way from `pending` over `latest` to `active` every snapshot is newer than those ahead
      of it, and none is newer than `top`. */
  predicate InLine(heap: seq<Snap>, pending: Option<nat>, latest: Option<nat>, active: Option<nat>, top: nat) {
    && Allocated(heap, pending) && Allocated(heap, latest) && Allocated(heap, active)
    && (latest.Some? ==> Rev(heap, active) < Rev(heap, latest))
    && (pending.Some? ==> Rev(heap, active) < Rev(heap, pending) && Rev(heap, latest) < Rev(heap, pending))
    && Rev(heap, pending) <= top && Rev(heap, latest) <= top && Rev(heap, active) <= top
  }

  /** The revision of the last snapshot in the line. */
  function Newest(heap: seq<Snap>, pending: Option<nat>, latest: Option<nat>, active: Option<nat>): nat {
    if pending.Some? then Rev(heap, pending) else if latest.Some? then Rev(heap, latest) else Rev(heap, active)
  }

  /** The snapshot the capture thread is publishing is the current detector, not published yet. */
  predicate Publishing(s: State) {
    match s.p.pc
    case PRevision(id) => Allocated(s.e.heap, Some(id)) && s.p.published < Rev(s.e.heap, Some(id)) == |s.p.history|
    case PExchange(id) => Allocated(s.e.heap, Some(id)) && s.p.published == Rev(s.e.heap, Some(id)) == |s.p.history|
    case _ => s.p.published <= |s.p.history|
  }

  /** Published and handed over. */
  function HandedOver(s: State): int {
    if s.p.pc.PExchange? then s.p.published - 1 else s.p.published
  }

  predicate InOrder(s: State) {
    && Publishing(s)
    && HandedOver(s) >= 0
    && InLine(s.e.heap, s.m.pending, s.w.latest, s.w.active, HandedOver(s))
    && (s.w.pc.WClose? || s.w.pc.WDone? || s.p.pc.PExchange?
        || Newest(s.e.heap, s.m.pending, s.w.latest, s.w.active) == s.p.published)
  }

  // ----- Every step -----

  lemma HeapGrows(heap: seq<Snap>, snap: Snap, pending: Option<nat>, latest: Option<nat>, active: Option<nat>, top: nat)
    requires InLine(heap, pending, latest, active, top)
    ensures InLine(heap + [snap], pending, latest, active, top)
    ensures Newest(heap + [snap], pending, latest, active) == Newest(heap, pending, latest, active)
    ensures Rev(heap + [snap], active) == Rev(heap, active)
  {
  }

  lemma WorkerKeepsInOrder(s: State, ok: bool)
    requires InOrder(s) && LetGo(s) && WorkerNext(s, ok).Some?
    ensures InOrder(WorkerNext(s, ok).value)
    ensures WorkerNext(s, ok).value.e.heap == s.e.heap && WorkerNext(s, ok).value.p.history == s.p.history
  {
    hide Rendered, EntriesOf, Freed, StartUpNext, IterationNext, EndNext;
    if StartingUp(s.w.pc) {
      StartUpHoldsNothing(s, ok);
    } else if Ending(s.w.pc) {
      EndKeepsInOrder(s, ok);
    } else {
      IterationKeepsInOrder(s, ok);
    }
  }

  lemma StartUpHoldsNothing(s: State, ok: bool)
    requires StartUpNext(s, ok).Some?
    ensures var t := StartUpNext(s, ok).value;
            && t.e.heap == s.e.heap && t.m.pending == s.m.pending && t.w.latest == s.w.latest
               && t.w.active == s.w.active
            && !t.w.pc.WClose? && !t.w.pc.WDone?
            && t.p.history == s.p.history && t.p.published == s.p.published
            && (t.p.pc == s.p.pc || (s.p.pc.MWaiting? && t.p.pc.MWaiting?))
  {
  }

  lemma EndKeepsInOrder(s: State, ok: bool)
    requires InOrder(s) && LetGo(s) && EndNext(s, ok).Some?
    ensures InOrder(EndNext(s, ok).value)
    ensures EndNext(s, ok).value.e.heap == s.e.heap && EndNext(s, ok).value.p == s.p
  {
    hide Freed;
  }

  lemma IterationKeepsInOrder(s: State, ok: bool)
    requires InOrder(s) && LetGo(s) && IterationNext(s, ok).Some?
    ensures InOrder(IterationNext(s, ok).value)
    ensures IterationNext(s, ok).value.e.heap == s.e.heap && IterationNext(s, ok).value.p == s.p
  {
    hide Rendered, EntriesOf, Freed, InOrder;
    IterationMoves(s, ok);
    var t := IterationNext(s, ok).value;
    MovesKeepInOrder(s, t);
  }

  /** An iteration moves snapshots up the line and changes nothing else of it. */
  predicate Moved(s: State, t: State) {
    || (t.m.pending, t.w.latest, t.w.active) == (s.m.pending, s.w.latest, s.w.active)
    || (s.w.latest.None? && (t.m.pending, t.w.latest, t.w.active) == (None, s.m.pending, s.w.active))
    || (s.w.latest.Some? && (t.m.pending, t.w.latest, t.w.active) == (s.m.pending, None, s.w.latest))
  }

  lemma IterationMoves(s: State, ok: bool)
    requires LetGo(s) && IterationNext(s, ok).Some?
    ensures var t := IterationNext(s, ok).value;
            && Moved(s, t) && t.e.heap == s.e.heap && t.p == s.p
            && !s.w.pc.WClose? && !s.w.pc.WDone?
  {
    hide Rendered, EntriesOf, Freed;
  }

  lemma MovesKeepInOrder(s: State, t: State)
    requires InOrder(s) && Moved(s, t) && t.e.heap == s.e.heap && t.p == s.p && !s.w.pc.WClose? && !s.w.pc.WDone?
    ensures InOrder(t)
    ensures Rev(s.e.heap, s.w.active) <= Rev(t.e.heap, t.w.active)
  {
  }

  lemma PublishKeepsInOrder(s: State, memory: bool)
    requires InOrder(s) && PublishNext(s, memory).Some?
    ensures InOrder(PublishNext(s, memory).value)
  {
    hide Flattened, TableAfter, Freed;
    var t := PublishNext(s, memory).value;
    if s.p.pc.PCheck? {
      if |s.e.heap| < |t.e.heap| {
        HeapGrows(s.e.heap, t.e.heap[|s.e.heap|], s.m.pending, s.w.latest, s.w.active, HandedOver(s));
      }
    }
  }

  lemma DestroyKeepsInOrder(s: State)
    requires InOrder(s) && LetGo(s) && DestroyNext(s).Some?
    ensures InOrder(DestroyNext(s).value)
  {
    hide Freed;
  }

  /** Outside publishing and destroying, the capture thread leaves the line alone. */
  lemma OtherStepsLeaveLine(s: State, step: Step)
    requires Next(s, step).Some? && !step.WorkerStep?
    requires step.ProducerStep? ==> InStart(s.p.pc) || InRecord(s.p.pc)
    ensures var t := Next(s, step).value;
            && t.e.heap == s.e.heap && t.m.pending == s.m.pending && t.w == s.w
            && t.p.published == s.p.published && s.p.history <= t.p.history
            && (t.p == s.p || (!s.p.pc.PExchange? && !t.p.pc.PRevision? && !t.p.pc.PExchange?))
            && (t.p.history == s.p.history || s.p.pc.PIdle?)
  {
    hide PublishNext, DestroyNext, WorkerNext;
  }

  lemma ProducerKeepsInOrder(s: State, memory: bool)
    requires InOrder(s) && LetGo(s) && ProducerNext(s, memory).Some?
    ensures InOrder(ProducerNext(s, memory).value)
  {
    hide PublishNext, DestroyNext, StartNext, RecordNext, InOrder;
    if InPublish(s.p.pc) {
      PublishKeepsInOrder(s, memory);
    } else if !InStart(s.p.pc) && !InRecord(s.p.pc) {
      DestroyKeepsInOrder(s);
    } else {
      OtherKeepsInOrder(s, ProducerStep(memory));
    }
  }

  lemma OtherKeepsInOrder(s: State, step: Step)
    requires InOrder(s) && Next(s, step).Some? && !step.WorkerStep?
    requires step.ProducerStep? ==> InStart(s.p.pc) || InRecord(s.p.pc)
    ensures InOrder(Next(s, step).value)
  {
    hide Next;
    OtherStepsLeaveLine(s, step);
  }

  lemma StepKeepsInOrder(s: State, step: Step)
    requires InOrder(s) && LetGo(s) && Next(s, step).Some?
    ensures InOrder(Next(s, step).value)
  {
    hide WorkerNext, ProducerNext, InOrder;
    match step
    case WorkerStep(ok) => WorkerKeepsInOrder(s, ok);
    case ProducerStep(memory) => ProducerKeepsInOrder(s, memory);
    case _ => OtherKeepsInOrder(s, step);
  }

  // ----- What the snapshots hold -----

  /** A step adds at most the detector's present contents to the heap. */
  lemma StepGrowsHeap(s: State, step: Step)
    requires InOrder(s) && LetGo(s) && Next(s, step).Some?
    ensures var t := Next(s, step).value;
            || (t.e.heap == s.e.heap && s.p.history <= t.p.history)
            || (t.p.history == s.p.history && s.p.history != []
                && t.e.heap == s.e.heap
                   + [Snap(|s.p.history|, Flattened(TableAfter(s.p.history, s.window, s.threshold)))])
    ensures Next(s, step).value.window == s.window && Next(s, step).value.threshold == s.threshold
  {
    hide WorkerNext, Flattened, TableAfter, StartNext, RecordNext, PublishNext, DestroyNext, InLine, Newest;
    if step.WorkerStep? {
      WorkerKeepsInOrder(s, step.ok);
      WorkerKeepsSettings(s, step.ok);
    } else if step.ProducerStep? && !InStart(s.p.pc) && !InRecord(s.p.pc) {
      PublishOrDestroyGrowsHeap(s, step.memory);
    } else {
      OtherStepsLeaveLine(s, step);
      OtherStepsKeepSettings(s, step);
    }
  }

  lemma WorkerKeepsSettings(s: State, ok: bool)
    requires WorkerNext(s, ok).Some?
    ensures WorkerNext(s, ok).value.window == s.window && WorkerNext(s, ok).value.threshold == s.threshold
  {
    hide Rendered, EntriesOf, Freed, Woken;
  }

  lemma OtherStepsKeepSettings(s: State, step: Step)
    requires Next(s, step).Some? && !step.WorkerStep?
    requires step.ProducerStep? ==> InStart(s.p.pc) || InRecord(s.p.pc)
    ensures Next(s, step).value.window == s.window && Next(s, step).value.threshold == s.threshold
  {
    hide PublishNext, DestroyNext, WorkerNext;
  }

  lemma PublishOrDestroyGrowsHeap(s: State, memory: bool)
    requires Publishing(s) && ProducerNext(s, memory).Some? && !InStart(s.p.pc) && !InRecord(s.p.pc)
    ensures var t := ProducerNext(s, memory).value;
            || (t.e.heap == s.e.heap && t.p.history == s.p.history)
            || (t.p.history == s.p.history && s.p.history != []
                && t.e.heap == s.e.heap
                   + [Snap(|s.p.history|, Flattened(TableAfter(s.p.history, s.window, s.threshold)))])
    ensures ProducerNext(s, memory).value.window == s.window && ProducerNext(s, memory).value.threshold == s.threshold
  {
    hide Flattened, TableAfter, Freed, Rev;
  }

  lemma StaysFaithful(snap: Snap, h: seq<Syn>, longer: seq<Syn>, window: u32, threshold: nat)
    requires Faithful(snap, h, window, threshold) && h <= longer
    ensures Faithful(snap, longer, window, threshold)
  {
    assert longer[..snap.revision] == h[..snap.revision];
  }

  lemma StepKeepsFaithful(s: State, step: Step)
    requires InOrder(s) && LetGo(s) && Next(s, step).Some? && AllFaithful(s.e.heap, s.p.history, s.window, s.threshold)
    ensures var t := Next(s, step).value;
            AllFaithful(t.e.heap, t.p.history, t.window, t.threshold)
  {
    hide Next, InOrder, Faithful;
    var t := Next(s, step).value;
    StepGrowsHeap(s, step);
    forall i | 0 <= i < |t.e.heap| ensures Faithful(t.e.heap[i], t.p.history, t.window, t.threshold) {
      if i < |s.e.heap| {
        StaysFaithful(s.e.heap[i], s.p.history, t.p.history, s.window, s.threshold);
      } else {
        CurrentIsFaithful(s.p.history, s.window, s.threshold);
      }
    }
  }

  lemma CurrentIsFaithful(h: seq<Syn>, window: u32, threshold: nat)
    requires h != []
    ensures Faithful(Snap(|h|, Flattened(TableAfter(h, window, threshold))), h, window, threshold)
  {
    assert h[..|h|] == h;
  }

  // ----- Every run -----

  lemma {:induction false} EveryScheduleInOrder(window: u32, threshold: nat, schedule: seq<Step>)
    requires After(window, threshold, schedule).Some?
    ensures var s := After(window, threshold, schedule).value;
            && s.window == window && s.threshold == threshold
            && InOrder(s) && LetGo(s) && AllFaithful(s.e.heap, s.p.history, window, threshold)
  {
    hide Next, InOrder, LetGo, AllFaithful, Places;
    if schedule == [] {
      InitialInOrder(window, threshold);
    } else {
      var n := |schedule| - 1;
      EveryScheduleInOrder(window, threshold, schedule[..n]);
      var s := After(window, threshold, schedule[..n]).value;
      StepKeepsInOrder(s, schedule[n]);
      StepGrowsHeap(s, schedule[n]);
      StepKeepsFaithful(s, schedule[n]);
    }
    EveryScheduleOwned(window, threshold, schedule);
  }

  lemma InitialInOrder(window: u32, threshold: nat)
    ensures InOrder(Initial(window, threshold)) && AllFaithful([], [], window, threshold)
  {
  }

  /** What a place shows is what the detector held at the revision of that place. */
  lemma EntriesAreHistory(heap: seq<Snap>, o: Option<nat>, h: seq<Syn>, window: u32, threshold: nat)
    requires AllFaithful(heap, h, window, threshold) && Allocated(heap, o)
    ensures Rev(heap, o) <= |h|
    ensures EntriesOf(heap, o) == Flattened(TableAfter(h[..Rev(heap, o)], window, threshold))
  {
    if o.Some? {
      assert Faithful(heap[o.value], h, window, threshold);
    }
  }

  /** Over any continuation of a schedule the snapshot on the screen never goes back, up to the
      moment the worker gives it up for good. */
  lemma {:induction false} ActiveNeverGoesBack(window: u32, threshold: nat, schedule: seq<Step>, more: seq<Step>)
    requires After(window, threshold, schedule + more).Some?
    ensures After(window, threshold, schedule).Some?
    ensures var s, t := After(window, threshold, schedule).value, After(window, threshold, schedule + more).value;
            t.w.pc.WClose? || t.w.pc.WDone? || Rev(s.e.heap, s.w.active) <= Rev(t.e.heap, t.w.active) <= t.p.published
  {
    hide Next, InOrder, LetGo, AllFaithful;
    EveryScheduleInOrder(window, threshold, schedule + more);
    InOrderBounds(After(window, threshold, schedule + more).value);
    if more == [] {
      assert schedule + more == schedule;
    } else {
      var n := |more| - 1;
      assert (schedule + more)[..|schedule| + n] == schedule + more[..n];
      ActiveNeverGoesBack(window, threshold, schedule, more[..n]);
      EveryScheduleInOrder(window, threshold, schedule + more[..n]);
      StepNeverGoesBack(After(window, threshold, schedule + more[..n]).value, more[n]);
    }
  }

  lemma InOrderBounds(s: State)
    requires InOrder(s)
    ensures Rev(s.e.heap, s.w.active) <= s.p.published <= |s.p.history|
    ensures Allocated(s.e.heap, s.w.active)
  {
  }

  lemma StepNeverGoesBack(s: State, step: Step)
    requires InOrder(s) && LetGo(s) && Next(s, step).Some?
    ensures var t := Next(s, step).value;
            && (s.w.pc.WClose? || s.w.pc.WDone? ==> t.w.pc.WClose? || t.w.pc.WDone?)
            && (t.w.pc.WClose? || t.w.pc.WDone? || Rev(s.e.heap, s.w.active) <= Rev(t.e.heap, t.w.active))
  {
    hide StartUpNext, EndNext, IterationNext, ProducerNext, InOrder, Rev;
    var t := Next(s, step).value;
    if step.WorkerStep? {
      WorkerNeverGoesBack(s, step.ok);
    } else {
      ProducerLeavesWorker(s, step);
      StepGrowsHeap(s, step);
      OlderStays(s, t.e.heap);
    }
  }

  lemma OlderStays(s: State, heap: seq<Snap>)
    requires InOrder(s) && s.e.heap <= heap
    ensures Rev(heap, s.w.active) == Rev(s.e.heap, s.w.active)
  {
  }

  lemma ProducerLeavesWorker(s: State, step: Step)
    requires Next(s, step).Some? && !step.WorkerStep?
    ensures Next(s, step).value.w == s.w
  {
    hide Flattened, TableAfter, Freed, WorkerNext;
  }

  lemma WorkerNeverGoesBack(s: State, ok: bool)
    requires InOrder(s) && LetGo(s) && WorkerNext(s, ok).Some?
    ensures var t := WorkerNext(s, ok).value;
            && (s.w.pc.WClose? || s.w.pc.WDone? ==> t.w.pc.WClose? || t.w.pc.WDone?)
            && (t.w.pc.WClose? || t.w.pc.WDone? || Rev(s.e.heap, s.w.active) <= Rev(t.e.heap, t.w.active))
  {
    hide StartUpNext, EndNext, IterationNext, InOrder, LetGo, Rev;
    if StartingUp(s.w.pc) {
      StartUpHoldsNothing(s, ok);
    } else if Ending(s.w.pc) {
      EndHoldsOn(s, ok);
    } else {
      IterationMoves(s, ok);
      MovesKeepInOrder(s, IterationNext(s, ok).value);
    }
  }

  lemma EndHoldsOn(s: State, ok: bool)
    requires EndNext(s, ok).Some?
    ensures var t := EndNext(s, ok).value;
            && (s.w.pc.WClose? || s.w.pc.WDone? ==> t.w.pc.WClose? || t.w.pc.WDone?)
            && (t.w.pc.WClose? || t.w.pc.WDone? || (t.w.active == s.w.active && t.e.heap == s.e.heap))
  {
    hide Freed;
  }

  /** Where the latest published snapshot is. */
  function Last(s: State): Option<nat> {
    if s.m.pending.Some? then s.m.pending else if s.w.latest.Some? then s.w.latest else s.w.active
  }

  /** Publication is skipped exactly when the latest published snapshot is still what the detector
      holds: while the worker runs, skipping never leaves the screen behind. */
  lemma SkipIsHarmless(window: u32, threshold: nat, schedule: seq<Step>, memory: bool)
    requires After(window, threshold, schedule).Some?
    requires After(window, threshold, schedule).value.p.pc.PCheck?
    requires var pc := After(window, threshold, schedule).value.w.pc; !pc.WClose? && !pc.WDone?
    ensures var s := After(window, threshold, schedule).value;
            var t := PublishNext(s, memory).value;
            && (t.p.pc.PIdle? <==> Rev(s.e.heap, Last(s)) == |s.p.history|)
            && (t.p.pc.PIdle? ==> EntriesOf(s.e.heap, Last(s)) == Flattened(TableAfter(s.p.history, window, threshold)))
  {
    var s := After(window, threshold, schedule).value;
    hide After, TableAfter, Flattened;
    EveryScheduleInOrder(window, threshold, schedule);
    EntriesAreHistory(s.e.heap, Last(s), s.p.history, window, threshold);
    assert s.p.history[..|s.p.history|] == s.p.history;
  }

  /** When the worker sleeps with nothing pending and no publication in mid-air, it has shown the
      revision published last. */
  lemma NothingPendingMeansCurrent(window: u32, threshold: nat, schedule: seq<Step>)
    requires After(window, threshold, schedule).Some?
    requires var s := After(window, threshold, schedule).value;
             && !s.w.pc.WAdopt? && !s.w.pc.WClose? && !s.w.pc.WDone? && s.m.pending.None? && !s.p.pc.PExchange?
    ensures var s := After(window, threshold, schedule).value;
            Rev(s.e.heap, s.w.active) == s.p.published
  {
    hide After;
    EveryScheduleInOrder(window, threshold, schedule);
  }

  predicate OnlyWorker(steps: seq<Step>) {
    forall i :: 0 <= i < |steps| ==> steps[i].WorkerStep? || steps[i].Tick?
  }

  lemma QuietStep(s: State, step: Step)
    requires Next(s, step).Some? && (step.WorkerStep? || step.Tick?) && s.p.pc.PIdle?
    ensures var t := Next(s, step).value;
            t.p == s.p && (t.m.pending == s.m.pending || t.m.pending.None?)
            && (s.w.pc.WExchange? && step.WorkerStep? ==> t.m.pending.None?)
  {
    hide Rendered, EntriesOf, Freed, ProducerNext, EndNext, StartUpNext;
    if step.WorkerStep? {
      if StartingUp(s.w.pc) {
        QuietStartUp(s, step.ok);
      } else if Ending(s.w.pc) {
        QuietEnd(s, step.ok);
      }
    }
  }

  lemma QuietStartUp(s: State, ok: bool)
    requires StartUpNext(s, ok).Some? && s.p.pc.PIdle?
    ensures StartUpNext(s, ok).value.p == s.p && StartUpNext(s, ok).value.m.pending == s.m.pending
  {
  }

  lemma QuietEnd(s: State, ok: bool)
    requires EndNext(s, ok).Some?
    ensures EndNext(s, ok).value.p == s.p && EndNext(s, ok).value.m.pending == s.m.pending
  {
  }

  lemma {:induction false} QuietRun(window: u32, threshold: nat, schedule: seq<Step>, more: seq<Step>)
    requires After(window, threshold, schedule + more).Some? && OnlyWorker(more)
    ensures After(window, threshold, schedule).Some?
    ensures var s, t := After(window, threshold, schedule).value, After(window, threshold, schedule + more).value;
            && (s.p.pc.PIdle? ==> t.p == s.p)
            && (s.p.pc.PIdle? && (s.m.pending.None? || (more != [] && s.w.pc.WExchange? && more[0].WorkerStep?))
                ==> t.m.pending.None?)
  {
    hide Next;
    if more == [] {
      assert schedule + more == schedule;
    } else {
      var n := |more| - 1;
      assert (schedule + more)[..|schedule| + n] == schedule + more[..n];
      QuietRun(window, threshold, schedule, more[..n]);
      var u := After(window, threshold, schedule + more[..n]).value;
      if u.p.pc.PIdle? {
        QuietStep(u, more[n]);
      }
      if n == 0 {
        assert schedule + more[..0] == schedule;
      } else {
        assert more[..n][0] == more[0];
      }
    }
  }

  /** While the capture thread is quiet, one pass of the worker brings the screen up to the
      published revision: from the exchange on, as soon as the pointer is adopted. */
  lemma OneIterationCatchesUp(window: u32, threshold: nat, schedule: seq<Step>, more: seq<Step>)
    requires After(window, threshold, schedule + more).Some? && OnlyWorker(more) && more != [] && more[0].WorkerStep?
    requires After(window, threshold, schedule).Some?
    requires var s := After(window, threshold, schedule).value; s.w.pc.WExchange? && s.p.pc.PIdle?
    requires var t := After(window, threshold, schedule + more).value;
             !t.w.pc.WAdopt? && !t.w.pc.WClose? && !t.w.pc.WDone?
    ensures var s, t := After(window, threshold, schedule).value, After(window, threshold, schedule + more).value;
            Rev(t.e.heap, t.w.active) == t.p.published == s.p.published
  {
    hide After;
    QuietRun(window, threshold, schedule, more);
    NothingPendingMeansCurrent(window, threshold, schedule + more);
  }
}

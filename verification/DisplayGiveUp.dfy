/** How the display is given up: after which failures, and what stays untouched from then on. */
module DisplayGiveUp {
  import opened NetTypes
  import opened ScanTable
  import opened ScanHistory
  import opened ScanSnapshot
  import opened DisplayProtocol
  import opened DisplayOwnership
  import opened DisplayLifecycle
  import opened DisplayFreshness
  import K = DisplayClock

  // ----- A failure of a clock, a write or the timer -----

  predicate CanFail(pc: WorkerPc) {
    pc.WWall? || pc.WMono? || pc.WWrite? || pc.WSleep?
  }

  lemma {:induction false} EndingIsForGood(window: u32, threshold: nat, schedule: seq<Step>, more: seq<Step>)
    requires After(window, threshold, schedule + more).Some?
    ensures After(window, threshold, schedule).Some?
    ensures Ending(After(window, threshold, schedule).value.w.pc)
            ==> Ending(After(window, threshold, schedule + more).value.w.pc)
  {
    hide Next;
    if more == [] {
      assert schedule + more == schedule;
    } else {
      var n := |more| - 1;
      assert (schedule + more)[..|schedule| + n] == schedule + more[..n];
      EndingIsForGood(window, threshold, schedule, more[..n]);
      StepKeepsEnding(After(window, threshold, schedule + more[..n]).value, more[n]);
    }
  }

  lemma StepKeepsEnding(s: State, step: Step)
    requires Next(s, step).Some?
    ensures Ending(s.w.pc) ==> Ending(Next(s, step).value.w.pc)
  {
    hide IterationNext, StartUpNext, ProducerNext;
    if !step.WorkerStep? {
      ProducerLeavesWorker(s, step);
    }
  }

  /** When a clock, a write or the timer fails, the worker leaves its loop and never comes back. */
  lemma FailureIsFinal(window: u32, threshold: nat, schedule: seq<Step>, more: seq<Step>)
    requires After(window, threshold, schedule).Some? && CanFail(After(window, threshold, schedule).value.w.pc)
    requires After(window, threshold, schedule + [WorkerStep(false)] + more).Some?
    ensures Ending(After(window, threshold, schedule + [WorkerStep(false)] + more).value.w.pc)
  {
    var failed := schedule + [WorkerStep(false)];
    assert failed[..|schedule|] == schedule;
    FailureEndsTheLoop(After(window, threshold, schedule).value);
    EndingIsForGood(window, threshold, failed, more);
  }

  lemma FailureEndsTheLoop(s: State)
    requires CanFail(s.w.pc)
    ensures Next(s, WorkerStep(false)).Some? && Ending(Next(s, WorkerStep(false)).value.w.pc)
  {
  }

  // ----- A failed allocation -----

  /** A publish call on its way, whatever memory answers. */
  predicate Settles(s: State, h: seq<Syn>) {
    && s.p.history == h && (InPublish(s.p.pc) || s.p.pc.PIdle?)
    && (s.p.pc.PExchange? || s.p.pc.PFree? ==> s.p.published == |h|)
    && (s.p.pc.PIdle? ==> s.p.published == |h| || Ending(s.w.pc) || s.m.snapshotFailed)
  }

  lemma WorkerKeepsSettling(s: State, ok: bool, h: seq<Syn>)
    requires Settles(s, h) && !StartingUp(s.w.pc) && WorkerNext(s, ok).Some?
    ensures Settles(WorkerNext(s, ok).value, h)
  {
    hide Rendered, EntriesOf, Freed, IterationNext;
    if !Ending(s.w.pc) {
      IterationFrames(s, ok);
    }
  }

  lemma CallSettles(s: State, memory: bool, h: seq<Syn>)
    requires Settles(s, h) && Orderly(s) && InPublish(s.p.pc)
    ensures PublishNext(s, memory).Some? && Settles(PublishNext(s, memory).value, h)
  {
    hide Flattened, TableAfter, Freed;
  }

  lemma StepSettles(s: State, step: Step, h: seq<Syn>)
    requires Settles(s, h) && Orderly(s) && Next(s, step).Some? && NoCalls([step])
    ensures Settles(Next(s, step).value, h)
  {
    assert [step][0] == step;
    assert !StartingUp(s.w.pc);
    hide WorkerNext, PublishNext, Orderly;
    if step.WorkerStep? {
      WorkerKeepsSettling(s, step.ok, h);
    } else if step.ProducerStep? {
      CallSettles(s, step.memory, h);
    }
  }

  /** Whatever memory answers, a publish call returns with the detector's contents published, or
      with the failure on record, or because the worker has given the display up. */
  lemma {:induction false} PublishSettles(window: u32, threshold: nat, before: seq<Step>, call: seq<Step>)
    requires After(window, threshold, before + call).Some? && NoCalls(call)
    ensures After(window, threshold, before).Some?
    ensures var s, t := After(window, threshold, before).value, After(window, threshold, before + call).value;
            s.p.pc.PAvailable? ==>
              && Settles(t, s.p.history)
              && (t.p.pc.PIdle? ==> t.p.published == |s.p.history| || Ending(t.w.pc) || t.m.snapshotFailed)
  {
    hide Next, Orderly;
    if call == [] {
      assert before + call == before;
    } else {
      var n := |call| - 1;
      assert (before + call)[..|before| + n] == before + call[..n];
      PublishSettles(window, threshold, before, call[..n]);
      EveryScheduleOrderly(window, threshold, before + call[..n]);
      var s, u := After(window, threshold, before).value, After(window, threshold, before + call[..n]).value;
      if s.p.pc.PAvailable? {
        assert NoCalls([call[n]]);
        StepSettles(u, call[n], s.p.history);
      }
    }
  }

  /** The failure is on record and the worker has started. */
  predicate Failed(s: State) {
    s.m.snapshotFailed && !StartingUp(s.w.pc)
  }

  lemma WorkerHeedsFailure(s: State, ok: bool)
    requires Failed(s) && WorkerNext(s, ok).Some?
    ensures var t := WorkerNext(s, ok).value;
            Failed(t) && (Ending(t.w.pc) || (!Ending(s.w.pc) && K.Ahead(t.w.pc, 1) < K.Ahead(s.w.pc, 1)))
  {
    hide Rendered, EntriesOf, Freed;
  }

  lemma StepHeedsFailure(s: State, step: Step)
    requires Failed(s) && Next(s, step).Some?
    ensures var t := Next(s, step).value;
            && Failed(t)
            && (Ending(t.w.pc) || (!Ending(s.w.pc)
                && K.Ahead(t.w.pc, 1) + (if step.WorkerStep? then 1 else 0) <= K.Ahead(s.w.pc, 1)))
  {
    hide WorkerNext, K.Ahead;
    if step.WorkerStep? {
      WorkerHeedsFailure(s, step.ok);
    } else {
      ProducerLeavesWorker(s, step);
      FailureStays(s, step);
    }
  }

  lemma FailureStays(s: State, step: Step)
    requires s.m.snapshotFailed && Next(s, step).Some? && !step.WorkerStep?
    ensures Next(s, step).value.m.snapshotFailed
  {
    hide Flattened, TableAfter, Freed, WorkerNext;
  }

  /** Once an allocation has failed, the worker gives the display up after at most eleven of its own
      steps, whatever else happens. */
  lemma {:induction false} FailureDisablesTheDisplay(window: u32, threshold: nat, schedule: seq<Step>, more: seq<Step>)
    requires After(window, threshold, schedule + more).Some?
    ensures After(window, threshold, schedule).Some?
    ensures var s, t := After(window, threshold, schedule).value, After(window, threshold, schedule + more).value;
            Failed(s) ==>
              && Failed(t)
              && (Ending(t.w.pc) || K.Ahead(t.w.pc, 1) + K.WorkerSteps(more) <= K.Ahead(s.w.pc, 1) <= 10)
              && (K.WorkerSteps(more) >= 11 ==> Ending(t.w.pc))
  {
    hide Next, Failed;
    if more == [] {
      assert schedule + more == schedule;
    } else {
      var n := |more| - 1;
      assert (schedule + more)[..|schedule| + n] == schedule + more[..n];
      FailureDisablesTheDisplay(window, threshold, schedule, more[..n]);
      if Failed(After(window, threshold, schedule).value) {
        StepHeedsFailure(After(window, threshold, schedule + more[..n]).value, more[n]);
      }
    }
  }

  // ----- Nothing is counted or published any more -----

  /** The display is unavailable, and no call is past its availability check. */
  predicate Off(s: State) {
    && !StartingUp(s.w.pc) && (!s.m.available || s.m.snapshotFailed)
    && !s.p.pc.RLoad? && !s.p.pc.RStore? && !InStart(s.p.pc)
    && (InPublish(s.p.pc) ==> s.p.pc.PAvailable? || s.p.pc.PFailed?)
    && (s.p.pc.RFailed? || s.p.pc.PFailed? ==> s.m.snapshotFailed)
  }

  /** Counters, events and published snapshots are the same. */
  predicate Untouched(s: State, t: State) {
    && t.m.icmp == s.m.icmp && t.m.ssh == s.m.ssh
    && t.e.icmpEvents == s.e.icmpEvents && t.e.sshEvents == s.e.sshEvents
    && t.p.published == s.p.published && t.e.heap == s.e.heap
  }

  lemma WorkerStaysOff(s: State, ok: bool)
    requires Off(s) && WorkerNext(s, ok).Some?
    ensures Off(WorkerNext(s, ok).value) && Untouched(s, WorkerNext(s, ok).value)
  {
    hide Rendered, EntriesOf, Freed, IterationNext;
    if !Ending(s.w.pc) {
      IterationFrames(s, ok);
      IterationLeavesAlone(s, ok);
    }
  }

  lemma IterationLeavesAlone(s: State, ok: bool)
    requires IterationNext(s, ok).Some?
    ensures Untouched(s, IterationNext(s, ok).value)
  {
    hide Rendered, EntriesOf, Freed;
  }

  lemma CaptureStaysOff(s: State, step: Step)
    requires Off(s) && Next(s, step).Some? && !step.WorkerStep?
    ensures Off(Next(s, step).value) && Untouched(s, Next(s, step).value)
  {
    hide Flattened, TableAfter, Freed, WorkerNext;
  }

  /** Once the display is unavailable, events are neither counted nor snapshots made, for good. */
  lemma {:induction false} UnavailableMeansUntouched(window: u32, threshold: nat, schedule: seq<Step>, more: seq<Step>)
    requires After(window, threshold, schedule + more).Some?
    ensures After(window, threshold, schedule).Some?
    ensures var s, t := After(window, threshold, schedule).value, After(window, threshold, schedule + more).value;
            && (Off(s) ==> Off(t) && Untouched(s, t))
            && (s.p.pc.PIdle? && (!s.m.available || s.m.snapshotFailed) ==> Off(s))
  {
    hide Next;
    EveryScheduleOrderly(window, threshold, schedule + more);
    if more == [] {
      assert schedule + more == schedule;
    } else {
      var n := |more| - 1;
      assert (schedule + more)[..|schedule| + n] == schedule + more[..n];
      UnavailableMeansUntouched(window, threshold, schedule, more[..n]);
      if Off(After(window, threshold, schedule).value) {
        var u := After(window, threshold, schedule + more[..n]).value;
        if more[n].WorkerStep? {
          WorkerIsNext(u, more[n]);
          WorkerStaysOff(u, more[n].ok);
        } else {
          CaptureStaysOff(u, more[n]);
        }
      }
    }
  }

  lemma WorkerIsNext(s: State, step: Step)
    requires step.WorkerStep?
    ensures Next(s, step) == WorkerNext(s, step.ok)
  {
    hide WorkerNext;
  }
}

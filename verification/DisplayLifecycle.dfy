/** Start-up handshake and shutdown of the display worker. */
module DisplayLifecycle {
  import opened NetTypes
  import opened ScanHistory
  import opened ScanSnapshot
  import opened DisplayProtocol
  import opened DisplayOwnership

  predicate WorkerHolds(pc: WorkerPc) {
    pc.WInitAvailable? || pc.WInitialized? || pc.WInitSignal? || pc.WInitUnlock?
  }

  predicate ProducerHolds(pc: ProducerPc) {
    pc.MTest? || pc.MUnlock?
  }

  /** The worker has set the flag the capture thread waits for. */
  predicate Reported(pc: WorkerPc) {
    !StartingUp(pc) || pc.WInitSignal? || pc.WInitUnlock?
  }

  predicate Stopped(pc: ProducerPc) {
    pc.DJoin? || pc.DExchange? || pc.DFree? || pc.DDone?
  }

  /** The worker has not withdrawn the display yet. */
  predicate Serving(pc: WorkerPc) {
    !Ending(pc) || pc.WUnavailable?
  }

  predicate Orderly(s: State) {
    && (s.m.mutex == Some(Worker) <==> WorkerHolds(s.w.pc))
    && (s.m.mutex == Some(Producer) <==> ProducerHolds(s.p.pc))
    && (s.m.initialized <==> Reported(s.w.pc))
    && (s.p.pc == MWaiting(false) && s.m.initialized ==> s.w.pc.WInitSignal?)
    && (!InStart(s.p.pc) || s.p.pc.MUnlock? ==> !StartingUp(s.w.pc))
    && (s.m.running <==> !Stopped(s.p.pc))
    && (s.m.available <==> s.w.ready && (s.w.pc.WInitialized? || (Reported(s.w.pc) && Serving(s.w.pc))))
    && (!StartingUp(s.w.pc) && !Ending(s.w.pc) ==> s.w.ready)
  }

  lemma WorkerKeepsOrderly(s: State, ok: bool)
    requires Orderly(s) && WorkerNext(s, ok).Some?
    ensures Orderly(WorkerNext(s, ok).value)
  {
    hide Rendered, EntriesOf, StartUpNext, IterationNext, EndNext;
    if StartingUp(s.w.pc) {
      StartUpKeepsOrderly(s, ok);
    } else {
      LoopKeepsOrderly(s, ok);
    }
  }

  lemma StartUpKeepsOrderly(s: State, ok: bool)
    requires Orderly(s) && StartUpNext(s, ok).Some?
    ensures Orderly(StartUpNext(s, ok).value)
  {
  }

  /** After start-up the worker touches neither the mutex nor the flag. */
  lemma LoopKeepsOrderly(s: State, ok: bool)
    requires Orderly(s) && !StartingUp(s.w.pc) && WorkerNext(s, ok).Some?
    ensures Orderly(WorkerNext(s, ok).value)
    ensures WorkerNext(s, ok).value.p == s.p
    ensures !s.m.running ==> Remaining(WorkerNext(s, ok).value.w.pc) < Remaining(s.w.pc)
  {
    hide Rendered, EntriesOf, Freed, IterationNext;
    if !Ending(s.w.pc) {
      IterationKeepsOrderly(s, ok);
      if !s.m.running {
        IterationWindsDown(s, ok);
      }
    }
  }

  lemma IterationKeepsOrderly(s: State, ok: bool)
    requires Orderly(s) && IterationNext(s, ok).Some?
    ensures Orderly(IterationNext(s, ok).value)
    ensures IterationNext(s, ok).value.p == s.p
  {
    hide Rendered, EntriesOf, Freed, IterationNext;
    IterationFrames(s, ok);
  }

  lemma IterationFrames(s: State, ok: bool)
    requires IterationNext(s, ok).Some?
    ensures var t := IterationNext(s, ok).value;
            && t.p == s.p && t.m == s.m.(pending := t.m.pending) && t.w.ready == s.w.ready
            && !StartingUp(s.w.pc) && !Ending(s.w.pc)
            && (t.w.pc.WUnavailable? || (!StartingUp(t.w.pc) && !Ending(t.w.pc)))
  {
    hide Rendered, EntriesOf, Freed;
  }

  lemma IterationWindsDown(s: State, ok: bool)
    requires IterationNext(s, ok).Some? && !s.m.running
    ensures Remaining(IterationNext(s, ok).value.w.pc) < Remaining(s.w.pc)
  {
    hide Rendered, EntriesOf, Freed;
  }

  lemma ProducerKeepsOrderly(s: State, memory: bool)
    requires Orderly(s) && ProducerNext(s, memory).Some?
    ensures Orderly(ProducerNext(s, memory).value)
  {
    hide PublishNext, RecordNext;
    if InRecord(s.p.pc) || InPublish(s.p.pc) {
      CallsKeepOrderly(s, memory);
    }
  }

  /** Recording and publishing touch nothing of the life cycle. */
  lemma CallsKeepOrderly(s: State, memory: bool)
    requires Orderly(s) && (InRecord(s.p.pc) || InPublish(s.p.pc)) && ProducerNext(s, memory).Some?
    ensures Orderly(ProducerNext(s, memory).value)
  {
    hide PublishNext, RecordNext;
    if InRecord(s.p.pc) {
      RecordFrames(s);
    } else {
      PublishFrames(s, memory);
    }
  }

  lemma RecordFrames(s: State)
    requires InRecord(s.p.pc)
    ensures RecordNext(s).Some?
    ensures var t := RecordNext(s).value;
            && t.w == s.w && (InRecord(t.p.pc) || t.p.pc.PIdle?)
            && t.m == s.m.(icmp := t.m.icmp, ssh := t.m.ssh)
  {
  }

  lemma PublishFrames(s: State, memory: bool)
    requires InPublish(s.p.pc)
    ensures PublishNext(s, memory).Some?
    ensures var t := PublishNext(s, memory).value;
            && t.w == s.w && (InPublish(t.p.pc) || t.p.pc.PIdle?)
            && t.m == s.m.(snapshotFailed := t.m.snapshotFailed, pending := t.m.pending)
  {
    hide Flattened, TableAfter, Freed;
  }

  lemma StepKeepsOrderly(s: State, step: Step)
    requires Orderly(s) && Next(s, step).Some?
    ensures Orderly(Next(s, step).value)
  {
    hide WorkerNext, ProducerNext;
    match step
    case WorkerStep(ok) => WorkerKeepsOrderly(s, ok);
    case ProducerStep(memory) => ProducerKeepsOrderly(s, memory);
    case _ =>
  }

  lemma {:induction false} EveryScheduleOrderly(window: u32, threshold: nat, schedule: seq<Step>)
    requires After(window, threshold, schedule).Some?
    ensures Orderly(After(window, threshold, schedule).value)
  {
    hide Next;
    if schedule != [] {
      var n := |schedule| - 1;
      EveryScheduleOrderly(window, threshold, schedule[..n]);
      StepKeepsOrderly(After(window, threshold, schedule[..n]).value, schedule[n]);
    }
  }

  /** How far start-up is from its end: what the worker still has to do before it has reported and
      let go of the mutex, and how far the capture thread is behind that. */
  function StartUpLeft(w: WorkerPc, p: ProducerPc): nat {
    4 * (if StartingUp(w) then Remaining(w) - 14 else 0)
    + match p
      case MLock => 3
      case MWaiting(woken) => if woken then 3 else 1
      case MTest => 2
      case MUnlock => 1
      case _ => 0
  }

  /** Start-up cannot hang: until the capture thread is past it one of the threads can move, and it
      is past it only after the worker has reported. */
  lemma StartUpNeverStuck(window: u32, threshold: nat, schedule: seq<Step>, ok: bool)
    requires After(window, threshold, schedule).Some?
    ensures var s := After(window, threshold, schedule).value;
            if InStart(s.p.pc) then StartNext(s).Some? || StartUpNext(s, ok).Some? else s.m.initialized
  {
    var s := After(window, threshold, schedule).value;
    hide After;
    EveryScheduleOrderly(window, threshold, schedule);
    assert s.m.mutex.Some? ==> s.m.mutex.value == Worker || s.m.mutex.value == Producer;
  }

  /** And it ends: every step either thread takes in it brings its end nearer, except that a
      spurious wake-up can cost two steps. */
  lemma StartUpNearsItsEnd(s: State, step: Step)
    requires Orderly(s) && Next(s, step).Some? && InStart(s.p.pc)
    ensures var t := Next(s, step).value;
            var before, left := StartUpLeft(s.w.pc, s.p.pc), StartUpLeft(t.w.pc, t.p.pc);
            && (step.ProducerStep? || (step.WorkerStep? && StartingUp(s.w.pc)) ==> left < before)
            && (step.SpuriousWake? ==> left <= before + 2)
            && (step.Tick? || (step.WorkerStep? && !StartingUp(s.w.pc)) ==> left == before)
  {
    hide IterationNext, EndNext, PublishNext, RecordNext, DestroyNext, Remaining;
    if step.WorkerStep? {
      if StartingUp(s.w.pc) {
        WorkerNearsReport(s, step.ok);
      } else {
        LoopKeepsOrderly(s, step.ok);
        LoopStaysStarted(s, step.ok);
      }
    }
  }

  lemma WorkerNearsReport(s: State, ok: bool)
    requires Orderly(s) && StartUpNext(s, ok).Some? && InStart(s.p.pc)
    ensures var t := StartUpNext(s, ok).value; StartUpLeft(t.w.pc, t.p.pc) < StartUpLeft(s.w.pc, s.p.pc)
  {
  }

  lemma LoopStaysStarted(s: State, ok: bool)
    requires !StartingUp(s.w.pc) && WorkerNext(s, ok).Some?
    ensures !StartingUp(WorkerNext(s, ok).value.w.pc)
  {
    hide IterationNext;
    if !Ending(s.w.pc) {
      IterationFrames(s, ok);
    }
  }

  predicate NoCalls(steps: seq<Step>) {
    forall i :: 0 <= i < |steps| ==> !steps[i].Observe? && !steps[i].Record? && !steps[i].Publish? && !steps[i].Destroy?
  }

  function ProducerSteps(steps: seq<Step>): nat {
    if steps == [] then 0
    else ProducerSteps(steps[..|steps| - 1]) + if steps[|steps| - 1].ProducerStep? then 1 else 0
  }

  /** How many of its own steps a record or publish call still takes at most. */
  function CallLeft(pc: ProducerPc): nat {
    match pc
    case RAvailable(_) => 4 case RFailed(_) => 3 case RLoad(_) => 2 case RStore(_, _) => 1
    case PAvailable => 6 case PFailed => 5 case PCheck => 4 case PMarkFailed => 1
    case PRevision(_) => 3 case PExchange(_) => 2 case PFree(_) => 1
    case _ => 0
  }

  /** The capture thread is in a record or publish call, or between calls. */
  predicate InCall(pc: ProducerPc) {
    InRecord(pc) || InPublish(pc) || pc.PIdle?
  }

  lemma CallStep(s: State, step: Step)
    requires InCall(s.p.pc) && Next(s, step).Some? && NoCalls([step])
    ensures InCall(Next(s, step).value.p.pc)
    ensures CallLeft(Next(s, step).value.p.pc) + (if step.ProducerStep? then 1 else 0) <= CallLeft(s.p.pc)
  {
    assert [step][0] == step;
    hide WorkerNext, Freed, Flattened, TableAfter;
    if step.WorkerStep? {
      WorkerLeavesCall(s, step.ok);
    }
  }

  lemma WorkerLeavesCall(s: State, ok: bool)
    requires WorkerNext(s, ok).Some?
    ensures WorkerNext(s, ok).value.p == s.p || (s.p.pc.MWaiting? && WorkerNext(s, ok).value.p.pc.MWaiting?)
  {
    hide Rendered, EntriesOf, Freed, IterationNext;
    if !StartingUp(s.w.pc) && !Ending(s.w.pc) {
      IterationFrames(s, ok);
    }
  }

  /** The capture thread never waits for the display: in a record or publish call its next step can
      always be taken, and whatever the worker does in between, the call returns after at most six
      steps of its own. */
  lemma {:induction false} CaptureNeverBlocks(window: u32, threshold: nat, schedule: seq<Step>,
                                              more: seq<Step>, memory: bool)
    requires After(window, threshold, schedule + more).Some? && NoCalls(more)
    ensures After(window, threshold, schedule).Some?
    ensures var s, t := After(window, threshold, schedule).value, After(window, threshold, schedule + more).value;
            InCall(s.p.pc) ==>
              && InCall(t.p.pc)
              && (t.p.pc.PIdle? || ProducerNext(t, memory).Some?)
              && CallLeft(t.p.pc) + ProducerSteps(more) <= CallLeft(s.p.pc) <= 6
              && (ProducerSteps(more) == CallLeft(s.p.pc) ==> t.p.pc.PIdle?)
  {
    hide Next;
    if more == [] {
      assert schedule + more == schedule;
    } else {
      var n := |more| - 1;
      assert (schedule + more)[..|schedule| + n] == schedule + more[..n];
      CaptureNeverBlocks(window, threshold, schedule, more[..n], memory);
      var u := After(window, threshold, schedule + more[..n]).value;
      if InCall(u.p.pc) {
        CallStep(u, more[n]);
      }
    }
  }

  /** How many steps the worker is still away from its end once it was told to stop. */
  function Remaining(pc: WorkerPc): nat {
    match pc
    case WDone => 0 case WClose => 1 case WFree => 2 case WUnavailable => 3
    case WRunning => 4 case WSleep => 5 case WWrite => 6 case WRender => 7
    case WSsh => 8 case WIcmp => 9 case WMono => 10 case WWall => 11
    case WAdopt => 12 case WExchange => 13 case WFailed => 14 case WInitUnlock => 15
    case WInitSignal => 16 case WInitialized => 17 case WInitAvailable => 18
    case WInitLock => 19 case WFirstWrite => 20 case WOpen => 21
  }

  lemma WorkerWindsDown(s: State, ok: bool)
    requires Orderly(s) && s.p.pc.DJoin? && !s.w.pc.WDone?
    ensures WorkerNext(s, ok).Some?
    ensures WorkerNext(s, ok).value.p.pc.DJoin? && Remaining(WorkerNext(s, ok).value.w.pc) < Remaining(s.w.pc)
  {
    hide IterationNext, EndNext;
    assert !StartingUp(s.w.pc);
    AlwaysMoves(s, ok);
    LoopKeepsOrderly(s, ok);
  }

  lemma AlwaysMoves(s: State, ok: bool)
    requires !StartingUp(s.w.pc) && !s.w.pc.WDone?
    ensures WorkerNext(s, ok).Some?
  {
  }

  /** While destroy waits to join, the worker can always move, whatever the device and the clocks
      answer, and every move brings it nearer to its end: destroy returns. */
  lemma DestroyReturns(window: u32, threshold: nat, schedule: seq<Step>, ok: bool)
    requires After(window, threshold, schedule).Some?
    requires After(window, threshold, schedule).value.p.pc.DJoin?
    ensures var s := After(window, threshold, schedule).value;
            if s.w.pc.WDone? then DestroyNext(s).Some?
            else WorkerNext(s, ok).Some? && WorkerNext(s, ok).value.p.pc.DJoin?
                 && Remaining(WorkerNext(s, ok).value.w.pc) < Remaining(s.w.pc)
  {
    var s := After(window, threshold, schedule).value;
    hide After;
    EveryScheduleOrderly(window, threshold, schedule);
    if !s.w.pc.WDone? {
      WorkerWindsDown(s, ok);
    }
  }
}

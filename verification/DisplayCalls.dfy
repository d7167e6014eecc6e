/** What the calls of the capture thread achieve, whatever the worker does meanwhile. */
module DisplayCalls {
  import opened NetTypes
  import opened ScanTable
  import opened ScanHistory
  import opened ScanSnapshot
  import opened Tm1637Device
  import opened DisplayProtocol
  import opened DisplayOwnership
  import opened DisplayCounters
  import opened DisplayLifecycle
  import opened DisplayFreshness

  // ----- A publish call that finds memory -----

  /** The worker and the clocks run freely; allocations succeed. */
  predicate WithMemory(steps: seq<Step>) {
    forall i :: 0 <= i < |steps| ==> steps[i].WorkerStep? || steps[i].Tick? || steps[i] == ProducerStep(true)
  }

  /** A publish call on its way: once past the availability check nothing stops it. */
  predicate GoesThrough(s: State, h: seq<Syn>) {
    && s.p.history == h && !s.m.snapshotFailed
    && (InPublish(s.p.pc) || s.p.pc.PIdle?) && !s.p.pc.PMarkFailed?
    && (s.p.pc.PExchange? || s.p.pc.PFree? ==> s.p.published == |h|)
    && (s.p.pc.PIdle? ==> s.p.published == |h| || Ending(s.w.pc))
  }

  lemma WorkerKeepsCall(s: State, ok: bool, h: seq<Syn>)
    requires GoesThrough(s, h) && !StartingUp(s.w.pc) && WorkerNext(s, ok).Some?
    ensures GoesThrough(WorkerNext(s, ok).value, h)
    ensures !StartingUp(WorkerNext(s, ok).value.w.pc)
  {
    hide Rendered, EntriesOf, Freed, IterationNext;
    if !Ending(s.w.pc) {
      IterationFrames(s, ok);
    }
  }

  lemma CallKeepsGoing(s: State, h: seq<Syn>)
    requires GoesThrough(s, h) && Orderly(s) && InPublish(s.p.pc)
    ensures PublishNext(s, true).Some? && GoesThrough(PublishNext(s, true).value, h)
  {
    hide Flattened, TableAfter, Freed;
  }

  lemma StepGoesThrough(s: State, step: Step, h: seq<Syn>)
    requires GoesThrough(s, h) && Orderly(s) && Next(s, step).Some? && WithMemory([step])
    ensures GoesThrough(Next(s, step).value, h)
  {
    assert [step][0] == step;
    hide WorkerNext, PublishNext, Orderly;
    PastStartUp(s);
    if step.WorkerStep? {
      WorkerKeepsCall(s, step.ok, h);
    } else if step.ProducerStep? {
      CallKeepsGoing(s, h);
    }
  }

  lemma PastStartUp(s: State)
    requires Orderly(s) && !InStart(s.p.pc)
    ensures !StartingUp(s.w.pc)
    ensures !Ending(s.w.pc) ==> s.m.available
  {
  }

  /** A publish call entered while no allocation has failed leaves the detector's present contents
      published when it returns - unless the worker has given the display up. */
  lemma {:induction false} PublishPublishes(window: u32, threshold: nat, before: seq<Step>, call: seq<Step>)
    requires After(window, threshold, before + call).Some? && WithMemory(call)
    ensures After(window, threshold, before).Some?
    ensures var s, t := After(window, threshold, before).value, After(window, threshold, before + call).value;
            s.p.pc.PAvailable? && !s.m.snapshotFailed ==> GoesThrough(t, s.p.history)
  {
    hide Next, Orderly;
    if call == [] {
      assert before + call == before;
    } else {
      var n := |call| - 1;
      assert (before + call)[..|before| + n] == before + call[..n];
      PublishPublishes(window, threshold, before, call[..n]);
      var s, u := After(window, threshold, before).value, After(window, threshold, before + call[..n]).value;
      EveryScheduleOrderly(window, threshold, before + call[..n]);
      if s.p.pc.PAvailable? && !s.m.snapshotFailed {
        assert [call[n]][0] == call[n];
        StepGoesThrough(u, call[n], s.p.history);
      }
    }
  }

  // ----- An iteration while the capture thread is quiet -----

  /** What the worker has sampled so far in this iteration is what the counters hold. */
  predicate Sampled(s: State) {
    && (s.w.pc.WSsh? || s.w.pc.WRender? || s.w.pc.WWrite? || s.w.pc.WSleep? ==> s.w.icmp == s.m.icmp)
    && (s.w.pc.WRender? || s.w.pc.WWrite? || s.w.pc.WSleep? ==> s.w.ssh == s.m.ssh)
  }

  lemma IterationSamples(s: State, ok: bool)
    requires Sampled(s) && IterationNext(s, ok).Some?
    ensures Sampled(IterationNext(s, ok).value)
  {
    hide Rendered, EntriesOf, Freed;
  }

  lemma WorkerSamples(s: State, ok: bool)
    requires Sampled(s) && !StartingUp(s.w.pc) && WorkerNext(s, ok).Some?
    ensures Sampled(WorkerNext(s, ok).value) && !StartingUp(WorkerNext(s, ok).value.w.pc)
  {
    hide IterationNext, EndNext;
    LoopStaysStarted(s, ok);
    if Ending(s.w.pc) {
      EndSamples(s, ok);
    } else {
      IterationSamples(s, ok);
    }
  }

  lemma EndSamples(s: State, ok: bool)
    requires EndNext(s, ok).Some?
    ensures Sampled(EndNext(s, ok).value)
  {
    hide Freed;
  }

  /** While only the worker runs, the counters stand still and are sampled as they are. */
  lemma {:induction false} QuietRunSamples(window: u32, threshold: nat, schedule: seq<Step>, more: seq<Step>)
    requires After(window, threshold, schedule + more).Some? && OnlyWorker(more)
    ensures After(window, threshold, schedule).Some?
    ensures var s, t := After(window, threshold, schedule).value, After(window, threshold, schedule + more).value;
            s.w.pc.WExchange? ==>
              && Sampled(t) && !StartingUp(t.w.pc)
              && t.m.icmp == s.m.icmp && t.m.ssh == s.m.ssh
              && t.e.icmpEvents == s.e.icmpEvents && t.e.sshEvents == s.e.sshEvents
  {
    hide Next, Sampled;
    if more == [] {
      assert schedule + more == schedule;
      ExchangeSamplesNothing(After(window, threshold, schedule).value);
    } else {
      var n := |more| - 1;
      assert (schedule + more)[..|schedule| + n] == schedule + more[..n];
      QuietRunSamples(window, threshold, schedule, more[..n]);
      var u := After(window, threshold, schedule + more[..n]).value;
      if After(window, threshold, schedule).value.w.pc.WExchange? {
        QuietStepSamples(u, more[n]);
      }
    }
  }

  lemma ExchangeSamplesNothing(s: State)
    ensures s.w.pc.WExchange? ==> Sampled(s) && !StartingUp(s.w.pc)
  {
  }

  lemma QuietStepSamples(s: State, step: Step)
    requires Sampled(s) && !StartingUp(s.w.pc) && Next(s, step).Some? && (step.WorkerStep? || step.Tick?)
    ensures var t := Next(s, step).value;
            && Sampled(t) && !StartingUp(t.w.pc)
            && t.m.icmp == s.m.icmp && t.m.ssh == s.m.ssh
            && t.e.icmpEvents == s.e.icmpEvents && t.e.sshEvents == s.e.sshEvents
  {
    hide WorkerNext;
    if step.WorkerStep? {
      WorkerSamples(s, step.ok);
      WorkerKeepsCounters(s, step.ok);
    }
  }

  // ----- What was called -----

  /** A call of the capture thread; an observation carries the time it was stamped with. */
  datatype Call = Observed(syn: Syn) | Recorded(c: Counter) | Published | Destroyed

  function Made(s: State, step: Step): seq<Call> {
    match step
    case Observe(src, port) => [Observed(Syn(src, port, s.e.clock))]
    case Record(c) => [Recorded(c)]
    case Publish => [Published]
    case Destroy => [Destroyed]
    case _ => []
  }

  /** The calls of a schedule, in order. */
  function Calls(window: u32, threshold: nat, schedule: seq<Step>): seq<Call> {
    if schedule == [] then []
    else
      var n := |schedule| - 1;
      var s := After(window, threshold, schedule[..n]);
      Calls(window, threshold, schedule[..n]) + if s.Some? then Made(s.value, schedule[n]) else []
  }

  function SynsIn(calls: seq<Call>): seq<Syn> {
    if calls == [] then []
    else
      var last := calls[|calls| - 1];
      SynsIn(calls[..|calls| - 1]) + if last.Observed? then [last.syn] else []
  }

  function RecordedIn(calls: seq<Call>, c: Counter): nat {
    if calls == [] then 0
    else RecordedIn(calls[..|calls| - 1], c) + if calls[|calls| - 1] == Recorded(c) then 1 else 0
  }

  lemma {:induction false} CallsConcat(a: seq<Call>, b: seq<Call>, c: Counter)
    ensures SynsIn(a + b) == SynsIn(a) + SynsIn(b)
    ensures RecordedIn(a + b, c) == RecordedIn(a, c) + RecordedIn(b, c)
  {
    if b == [] {
      assert a + b == a;
    } else {
      CallsConcat(a, b[..|b| - 1], c);
      assert (a + b)[..|a + b| - 1] == a + b[..|b| - 1];
    }
  }

  lemma OneCall(call: Call, c: Counter)
    ensures SynsIn([call]) == if call.Observed? then [call.syn] else []
    ensures RecordedIn([call], c) == if call == Recorded(c) then 1 else 0
    ensures SynsIn([]) == [] && RecordedIn([], c) == 0
  {
    assert [call][..0] == [];
  }

  /** A record call that has not been counted or turned away yet. */
  function Pending(pc: ProducerPc, c: Counter): nat {
    if (pc.RAvailable? || pc.RFailed?) && pc.c == c then 1 else 0
  }

  function EventsOf(e: World, c: Counter): nat {
    if c.Icmp? then e.icmpEvents else e.sshEvents
  }

  /** The detector has observed the SYNs of the calls; and as long as the display is available
      every record call was let through. */
  predicate Tallied(s: State, calls: seq<Call>, c: Counter) {
    && s.p.history == SynsIn(calls)
    && (InStart(s.p.pc) ==> calls == [] && EventsOf(s.e, c) == 0)
    && EventsOf(s.e, c) + Pending(s.p.pc, c) <= RecordedIn(calls, c)
    && (s.m.available && !s.m.snapshotFailed ==> EventsOf(s.e, c) + Pending(s.p.pc, c) == RecordedIn(calls, c))
  }

  lemma WorkerKeepsTally(s: State, ok: bool, calls: seq<Call>, c: Counter)
    requires Tallied(s, calls, c) && Orderly(s) && WorkerNext(s, ok).Some?
    ensures Tallied(WorkerNext(s, ok).value, calls, c)
  {
    hide SynsIn, RecordedIn, StartUpNext, EndNext, IterationNext;
    if StartingUp(s.w.pc) {
      StartUpKeepsTally(s, ok, calls, c);
    } else if Ending(s.w.pc) {
      EndKeepsTally(s, ok, calls, c);
    } else {
      IterationFrames(s, ok);
      WorkerKeepsCounters(s, ok);
    }
  }

  lemma StartUpKeepsTally(s: State, ok: bool, calls: seq<Call>, c: Counter)
    requires Tallied(s, calls, c) && Orderly(s) && StartUpNext(s, ok).Some?
    ensures Tallied(StartUpNext(s, ok).value, calls, c)
  {
    hide RecordedIn, SynsIn;
    NothingRecorded(c);
  }

  lemma NothingRecorded(c: Counter)
    ensures RecordedIn([], c) == 0 && SynsIn([]) == []
  {
  }

  lemma EndKeepsTally(s: State, ok: bool, calls: seq<Call>, c: Counter)
    requires Tallied(s, calls, c) && EndNext(s, ok).Some?
    ensures Tallied(EndNext(s, ok).value, calls, c)
  {
    hide RecordedIn, SynsIn, Freed;
  }

  lemma RecordKeepsTally(s: State, calls: seq<Call>, c: Counter)
    requires Tallied(s, calls, c) && InRecord(s.p.pc)
    ensures RecordNext(s).Some? && Tallied(RecordNext(s).value, calls, c)
  {
    hide RecordedIn, SynsIn;
  }

  lemma OtherCallsKeepTally(s: State, memory: bool, calls: seq<Call>, c: Counter)
    requires Tallied(s, calls, c) && !InRecord(s.p.pc) && ProducerNext(s, memory).Some?
    ensures Tallied(ProducerNext(s, memory).value, calls, c)
  {
    hide RecordedIn, SynsIn, RecordNext, Flattened, TableAfter, Freed;
    if InStart(s.p.pc) {
    } else if InPublish(s.p.pc) {
    } else {
    }
  }

  lemma CallIsTallied(s: State, step: Step, calls: seq<Call>, c: Counter)
    requires Tallied(s, calls, c) && Next(s, step).Some?
    requires step.Observe? || step.Record? || step.Publish? || step.Destroy?
    ensures Tallied(Next(s, step).value, calls + Made(s, step), c)
  {
    hide RecordedIn, SynsIn;
    CallsConcat(calls, Made(s, step), c);
    OneCall(Made(s, step)[0], c);
  }

  lemma StepKeepsTally(s: State, step: Step, calls: seq<Call>, c: Counter)
    requires Tallied(s, calls, c) && Orderly(s) && Next(s, step).Some?
    ensures Tallied(Next(s, step).value, calls + Made(s, step), c)
  {
    hide Tallied, WorkerNext, ProducerNext, RecordNext, Orderly;
    match step
    case Observe(_, _) => CallIsTallied(s, step, calls, c);
    case Record(_) => CallIsTallied(s, step, calls, c);
    case Publish => CallIsTallied(s, step, calls, c);
    case Destroy => CallIsTallied(s, step, calls, c);
    case WorkerStep(ok) =>
      assert calls + [] == calls;
      WorkerKeepsTally(s, ok, calls, c);
    case ProducerStep(memory) =>
      assert calls + [] == calls;
      if InRecord(s.p.pc) {
        RecordKeepsTally(s, calls, c);
        RecordIsNext(s, memory);
      } else {
        OtherCallsKeepTally(s, memory, calls, c);
      }
    case _ =>
      assert calls + [] == calls;
      WaitingKeepsTally(s, step, calls, c);
  }

  lemma RecordIsNext(s: State, memory: bool)
    requires InRecord(s.p.pc)
    ensures ProducerNext(s, memory) == RecordNext(s)
  {
    hide RecordNext;
  }

  lemma WaitingKeepsTally(s: State, step: Step, calls: seq<Call>, c: Counter)
    requires Tallied(s, calls, c) && Next(s, step).Some? && (step.SpuriousWake? || step.Tick?)
    ensures Tallied(Next(s, step).value, calls, c)
  {
    hide RecordedIn, SynsIn;
  }

  /** Under every schedule the detector's history is what was observed, and the events counted are
      the record calls, all of them as long as the display is available. */
  lemma {:induction false} EveryScheduleTallied(window: u32, threshold: nat, schedule: seq<Step>, c: Counter)
    requires After(window, threshold, schedule).Some?
    ensures Tallied(After(window, threshold, schedule).value, Calls(window, threshold, schedule), c)
  {
    hide Next, Tallied, Orderly, Made;
    if schedule == [] {
      InitiallyTallied(window, threshold, c);
    } else {
      var n := |schedule| - 1;
      EveryScheduleTallied(window, threshold, schedule[..n], c);
      EveryScheduleOrderly(window, threshold, schedule[..n]);
      var s := After(window, threshold, schedule[..n]).value;
      StepKeepsTally(s, schedule[n], Calls(window, threshold, schedule[..n]), c);
    }
  }

  lemma InitiallyTallied(window: u32, threshold: nat, c: Counter)
    ensures Tallied(Initial(window, threshold), [], c)
  {
  }
}

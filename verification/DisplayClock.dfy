/** When the worker samples its clocks, and that it keeps iterating. */
module DisplayClock {
  import opened NetTypes
  import opened ScanTable
  import opened ScanHistory
  import opened ScanSnapshot
  import opened Tm1637Device
  import opened DisplayProtocol
  import opened DisplayOwnership
  import opened DisplayLifecycle
  import opened DisplayFreshness
  import S = DisplayScreen

  // ----- The samples of an iteration -----

  /** The clocks have reached `clock` and `nanos`, and what this iteration has sampled so far was
      sampled since. */
  predicate SampledSince(s: State, clock: nat, nanos: nat) {
    && clock <= s.e.clock && nanos <= s.e.nanos
    && (S.Sampled(s.w.pc) ==> clock <= s.w.wall <= s.e.clock)
    && (S.Sampled(s.w.pc) && !s.w.pc.WMono? ==> nanos <= s.w.mono <= s.e.nanos)
  }

  lemma IterationSamplesNow(s: State, ok: bool, clock: nat, nanos: nat)
    requires SampledSince(s, clock, nanos) && IterationNext(s, ok).Some?
    ensures SampledSince(IterationNext(s, ok).value, clock, nanos)
  {
    hide Rendered, EntriesOf, Freed;
  }

  lemma OtherWorkSamplesNothing(s: State, ok: bool, clock: nat, nanos: nat)
    requires SampledSince(s, clock, nanos) && WorkerNext(s, ok).Some? && (StartingUp(s.w.pc) || Ending(s.w.pc))
    ensures SampledSince(WorkerNext(s, ok).value, clock, nanos)
  {
    hide Freed, IterationNext;
  }

  lemma ClocksAdvance(s: State, step: Step)
    requires Next(s, step).Some? && !step.WorkerStep?
    ensures var t := Next(s, step).value; s.e.clock <= t.e.clock && s.e.nanos <= t.e.nanos && t.w == s.w
  {
    hide Flattened, TableAfter, Freed, WorkerNext;
  }

  lemma StepSamplesNow(s: State, step: Step, clock: nat, nanos: nat)
    requires SampledSince(s, clock, nanos) && Next(s, step).Some?
    ensures SampledSince(Next(s, step).value, clock, nanos)
  {
    hide WorkerNext, ProducerNext, IterationNext, StartingUp, Ending;
    if step.WorkerStep? {
      if StartingUp(s.w.pc) || Ending(s.w.pc) {
        OtherWorkSamplesNothing(s, step.ok, clock, nanos);
      } else {
        S.WorkerInLoop(s, step.ok);
        IterationSamplesNow(s, step.ok, clock, nanos);
      }
    } else {
      ClocksAdvance(s, step);
    }
  }

  /** From the worker's exchange on, whatever the capture thread does, the times it samples lie
      between the clocks at the exchange and the clocks now: every iteration samples afresh. */
  lemma {:induction false} SamplesAreFresh(window: u32, threshold: nat, schedule: seq<Step>, more: seq<Step>)
    requires After(window, threshold, schedule + more).Some?
    ensures After(window, threshold, schedule).Some?
    ensures var s, t := After(window, threshold, schedule).value, After(window, threshold, schedule + more).value;
            s.w.pc.WExchange? ==>
              && (t.w.pc.WSleep? ==> s.e.clock <= t.w.wall <= t.e.clock && s.e.nanos <= t.w.mono <= t.e.nanos)
              && SampledSince(t, s.e.clock, s.e.nanos)
  {
    hide Next;
    if more == [] {
      assert schedule + more == schedule;
    } else {
      var n := |more| - 1;
      assert (schedule + more)[..|schedule| + n] == schedule + more[..n];
      SamplesAreFresh(window, threshold, schedule, more[..n]);
      var s, u := After(window, threshold, schedule).value, After(window, threshold, schedule + more[..n]).value;
      if s.w.pc.WExchange? {
        StepSamplesNow(u, more[n], s.e.clock, s.e.nanos);
      }
    }
  }

  // ----- The first write -----

  /** The worker is past its first write, which it made at `start`. */
  predicate Wrote(s: State, start: nat) {
    !s.w.pc.WOpen? && !s.w.pc.WFirstWrite? && s.w.start == start <= s.e.nanos
  }

  lemma StepKeepsStart(s: State, step: Step, start: nat)
    requires Wrote(s, start) && Next(s, step).Some?
    ensures Wrote(Next(s, step).value, start)
  {
    hide WorkerNext, ProducerNext;
    if step.WorkerStep? {
      WorkerKeepsStart(s, step.ok, start);
    } else {
      ClocksAdvance(s, step);
    }
  }

  lemma WorkerKeepsStart(s: State, ok: bool, start: nat)
    requires Wrote(s, start) && WorkerNext(s, ok).Some?
    ensures Wrote(WorkerNext(s, ok).value, start)
  {
    hide Rendered, EntriesOf, Freed, IterationNext;
    if !StartingUp(s.w.pc) && !Ending(s.w.pc) {
      IterationKeepsStart(s, ok, start);
    }
  }

  lemma IterationKeepsStart(s: State, ok: bool, start: nat)
    requires Wrote(s, start) && IterationNext(s, ok).Some?
    ensures Wrote(IterationNext(s, ok).value, start)
  {
    hide Rendered, EntriesOf, Freed;
  }

  lemma {:induction false} StartStays(window: u32, threshold: nat, schedule: seq<Step>, more: seq<Step>, start: nat)
    requires After(window, threshold, schedule + more).Some?
    ensures After(window, threshold, schedule).Some?
    ensures Wrote(After(window, threshold, schedule).value, start)
            ==> Wrote(After(window, threshold, schedule + more).value, start)
  {
    hide Next, Wrote;
    if more == [] {
      assert schedule + more == schedule;
    } else {
      var n := |more| - 1;
      assert (schedule + more)[..|schedule| + n] == schedule + more[..n];
      StartStays(window, threshold, schedule, more[..n], start);
      if Wrote(After(window, threshold, schedule).value, start) {
        StepKeepsStart(After(window, threshold, schedule + more[..n]).value, more[n], start);
      }
    }
  }

  /** The pages are timed from the first write, once and for all. */
  lemma StartIsTheFirstWrite(window: u32, threshold: nat, schedule: seq<Step>, ok: bool, more: seq<Step>)
    requires After(window, threshold, schedule).Some? && After(window, threshold, schedule).value.w.pc.WFirstWrite?
    requires After(window, threshold, schedule + [WorkerStep(ok)] + more).Some?
    ensures After(window, threshold, schedule + [WorkerStep(ok)] + more).value.w.start
         == After(window, threshold, schedule).value.e.nanos
  {
    var s := After(window, threshold, schedule).value;
    var step := schedule + [WorkerStep(ok)];
    assert step[..|schedule|] == schedule;
    FirstWriteStarts(s, ok);
    StartStays(window, threshold, step, more, s.e.nanos);
  }

  lemma FirstWriteStarts(s: State, ok: bool)
    requires s.w.pc.WFirstWrite?
    ensures Next(s, WorkerStep(ok)).Some? && Wrote(Next(s, WorkerStep(ok)).value, s.e.nanos)
  {
  }

  lemma {:induction false} StartWasBefore(window: u32, threshold: nat, schedule: seq<Step>)
    requires After(window, threshold, schedule).Some?
    ensures var s := After(window, threshold, schedule).value; s.w.start <= s.e.nanos
  {
    hide Next;
    if schedule != [] {
      var n := |schedule| - 1;
      StartWasBefore(window, threshold, schedule[..n]);
      StepKeepsStartPast(After(window, threshold, schedule[..n]).value, schedule[n]);
    }
  }

  lemma StepKeepsStartPast(s: State, step: Step)
    requires s.w.start <= s.e.nanos && Next(s, step).Some?
    ensures var t := Next(s, step).value; t.w.start <= t.e.nanos
  {
    hide ProducerNext, IterationNext, EndNext;
    if !step.WorkerStep? {
      ClocksAdvance(s, step);
    } else if !s.w.pc.WOpen? && !s.w.pc.WFirstWrite? {
      StepKeepsStart(s, step, s.w.start);
    }
  }

  // ----- The worker keeps iterating -----

  /** Nothing fails and nobody stops the worker. */
  predicate Smooth(steps: seq<Step>) {
    forall i :: 0 <= i < |steps| ==>
      !steps[i].Destroy? && steps[i] != WorkerStep(false) && steps[i] != ProducerStep(false)
  }

  /** The worker is in its loop, and no reason to leave it has come up. */
  predicate Going(s: State) {
    && !StartingUp(s.w.pc) && !Ending(s.w.pc) && s.m.running && !s.m.snapshotFailed
    && !s.p.pc.PMarkFailed? && !s.p.pc.DStop? && !Stopped(s.p.pc)
  }

  /** The place of a step in the loop. */
  function Place(pc: WorkerPc): nat {
    match pc
    case WRunning => 0 case WFailed => 1 case WExchange => 2 case WAdopt => 3 case WWall => 4 case WMono => 5
    case WIcmp => 6 case WSsh => 7 case WRender => 8 case WWrite => 9 case _ => 10
  }

  /** At most how many steps the worker needs to come to a place. */
  function Ahead(pc: WorkerPc, place: nat): nat
    requires place <= 10
  {
    if Place(pc) <= place then place - Place(pc) else place + 11 - Place(pc)
  }

  function WorkerSteps(steps: seq<Step>): nat {
    if steps == [] then 0
    else WorkerSteps(steps[..|steps| - 1]) + if steps[|steps| - 1].WorkerStep? then 1 else 0
  }

  lemma IterationGoesOn(s: State)
    requires Going(s)
    ensures IterationNext(s, true).Some?
    ensures var t := IterationNext(s, true).value;
            && Going(t)
            && (!s.w.pc.WExchange? ==> Ahead(t.w.pc, 2) < Ahead(s.w.pc, 2))
            && (!s.w.pc.WSleep? ==> Ahead(t.w.pc, 10) < Ahead(s.w.pc, 10))
  {
    hide Rendered, EntriesOf, Freed;
  }

  lemma CaptureLetsItGo(s: State, step: Step)
    requires Going(s) && Next(s, step).Some? && !step.WorkerStep? && Smooth([step])
    ensures Going(Next(s, step).value) && Next(s, step).value.w == s.w
  {
    assert [step][0] == step;
    hide Flattened, TableAfter, Freed, WorkerNext;
  }

  lemma StepGoesOn(s: State, step: Step, place: nat)
    requires Going(s) && Next(s, step).Some? && Smooth([step]) && (place == 2 || place == 10)
    requires Place(s.w.pc) != place
    ensures var t := Next(s, step).value;
            Going(t) && Ahead(t.w.pc, place) + (if step.WorkerStep? then 1 else 0) <= Ahead(s.w.pc, place)
  {
    assert [step][0] == step;
    hide IterationNext, ProducerNext;
    if step.WorkerStep? {
      S.WorkerInLoop(s, true);
      IterationGoesOn(s);
    } else {
      CaptureLetsItGo(s, step);
    }
  }

  /** The worker has come to a place somewhere in `more`. */
  ghost predicate Passes(window: u32, threshold: nat, schedule: seq<Step>, more: seq<Step>, place: nat) {
    exists j :: 0 <= j <= |more| && IsAt(window, threshold, schedule + more[..j], place)
  }

  predicate IsAt(window: u32, threshold: nat, schedule: seq<Step>, place: nat) {
    var s := After(window, threshold, schedule);
    s.Some? && Going(s.value) && Place(s.value.w.pc) == place
  }

  lemma {:induction false} LoopGoesOn(window: u32, threshold: nat, schedule: seq<Step>, more: seq<Step>, place: nat)
    requires After(window, threshold, schedule + more).Some? && Smooth(more) && (place == 2 || place == 10)
    ensures After(window, threshold, schedule).Some?
    ensures var s, t := After(window, threshold, schedule).value, After(window, threshold, schedule + more).value;
            Going(s) ==>
              || Passes(window, threshold, schedule, more, place)
              || (Going(t) && Ahead(t.w.pc, place) + WorkerSteps(more) <= Ahead(s.w.pc, place))
  {
    hide Next, Going, Ahead, Place;
    if more == [] {
      assert schedule + more == schedule;
    } else {
      var n := |more| - 1;
      assert (schedule + more)[..|schedule| + n] == schedule + more[..n];
      LoopGoesOn(window, threshold, schedule, more[..n], place);
      var s, u := After(window, threshold, schedule).value, After(window, threshold, schedule + more[..n]).value;
      if Going(s) {
        if Passes(window, threshold, schedule, more[..n], place) {
          PassedBefore(window, threshold, schedule, more, place);
        } else {
          assert more[..n][..n] == more[..n];
          assert !IsAt(window, threshold, schedule + more[..n], place);
          assert Smooth([more[n]]);
          StepGoesOn(u, more[n], place);
        }
      }
    }
  }

  lemma PassedBefore(window: u32, threshold: nat, schedule: seq<Step>, more: seq<Step>, place: nat)
    requires more != [] && Passes(window, threshold, schedule, more[..|more| - 1], place)
    ensures Passes(window, threshold, schedule, more, place)
  {
    hide IsAt;
    var j :| 0 <= j <= |more[..|more| - 1]| && IsAt(window, threshold, schedule + more[..|more| - 1][..j], place);
    assert more[..|more| - 1][..j] == more[..j];
  }

  ghost predicate Exchanges(window: u32, threshold: nat, schedule: seq<Step>) {
    After(window, threshold, schedule).Some? && After(window, threshold, schedule).value.w.pc.WExchange?
  }

  ghost predicate Sleeps(window: u32, threshold: nat, schedule: seq<Step>) {
    After(window, threshold, schedule).Some? && After(window, threshold, schedule).value.w.pc.WSleep?
  }

  lemma PlacesAre(window: u32, threshold: nat, schedule: seq<Step>)
    ensures IsAt(window, threshold, schedule, 2) ==> Exchanges(window, threshold, schedule)
    ensures IsAt(window, threshold, schedule, 10) ==> Sleeps(window, threshold, schedule)
  {
    hide After;
  }

  lemma ComesTo(window: u32, threshold: nat, schedule: seq<Step>, more: seq<Step>, place: nat)
    requires After(window, threshold, schedule + more).Some? && Smooth(more) && WorkerSteps(more) >= 10
    requires After(window, threshold, schedule).Some? && Going(After(window, threshold, schedule).value)
    requires place == 2 || place == 10
    ensures Passes(window, threshold, schedule, more, place)
  {
    hide After, Going, Place, WorkerSteps;
    LoopGoesOn(window, threshold, schedule, more, place);
    var s, t := After(window, threshold, schedule).value, After(window, threshold, schedule + more).value;
    AheadIsBounded(s.w.pc, place);
    AheadIsBounded(t.w.pc, place);
    assert more[..|more|] == more;
    assert || IsAt(window, threshold, schedule + more[..|more|], place)
           || Passes(window, threshold, schedule, more, place);
  }

  lemma AheadIsBounded(pc: WorkerPc, place: nat)
    requires place == 2 || place == 10
    ensures Ahead(pc, place) <= 10
    ensures Ahead(pc, place) == 0 <==> Place(pc) == place
  {
  }

  /** `n` steps of the worker in which nothing fails. */
  function GoodSteps(n: nat): seq<Step> {
    seq(n, _ => WorkerStep(true))
  }

  lemma {:induction false} GoodStepsCount(n: nat)
    ensures WorkerSteps(GoodSteps(n)) == n && Smooth(GoodSteps(n)) && OnlyWorker(GoodSteps(n))
  {
    if n > 0 {
      GoodStepsCount(n - 1);
      assert GoodSteps(n)[..n - 1] == GoodSteps(n - 1);
    }
  }

  /** The worker alone can always go on. */
  lemma {:induction false} CanGoOn(window: u32, threshold: nat, schedule: seq<Step>, n: nat)
    requires After(window, threshold, schedule).Some? && Going(After(window, threshold, schedule).value)
    ensures After(window, threshold, schedule + GoodSteps(n)).Some?
    ensures Going(After(window, threshold, schedule + GoodSteps(n)).value)
  {
    hide Going, Next;
    if n == 0 {
      assert schedule + GoodSteps(0) == schedule;
    } else {
      CanGoOn(window, threshold, schedule, n - 1);
      assert (schedule + GoodSteps(n))[..|schedule| + n - 1] == schedule + GoodSteps(n - 1);
      GoodStep(After(window, threshold, schedule + GoodSteps(n - 1)).value);
    }
  }

  lemma GoodStep(s: State)
    requires Going(s)
    ensures Next(s, WorkerStep(true)).Some? && Going(Next(s, WorkerStep(true)).value)
  {
    hide IterationNext;
    S.WorkerInLoop(s, true);
    IterationGoesOn(s);
  }

  /** As long as nothing fails and nobody stops it, the worker comes to an exchange and to a sleep
      within ten steps of its own, whatever the capture thread does in between. */
  lemma WorkerComesAround(window: u32, threshold: nat, schedule: seq<Step>, more: seq<Step>)
    requires After(window, threshold, schedule + more).Some? && Smooth(more) && WorkerSteps(more) >= 10
    requires After(window, threshold, schedule).Some? && Going(After(window, threshold, schedule).value)
    ensures exists j :: 0 <= j <= |more| && Exchanges(window, threshold, schedule + more[..j])
    ensures exists j :: 0 <= j <= |more| && Sleeps(window, threshold, schedule + more[..j])
  {
    hide After, Going, Place, WorkerSteps, IsAt, Exchanges, Sleeps;
    ComesTo(window, threshold, schedule, more, 2);
    ComesTo(window, threshold, schedule, more, 10);
    var j :| 0 <= j <= |more| && IsAt(window, threshold, schedule + more[..j], 2);
    var k :| 0 <= k <= |more| && IsAt(window, threshold, schedule + more[..k], 10);
    PlacesAre(window, threshold, schedule + more[..j]);
    PlacesAre(window, threshold, schedule + more[..k]);
  }
}

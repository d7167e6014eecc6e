/** The two event counters: single writer, split load and store, saturating. */
module DisplayCounters {
  import opened NetTypes
  import opened DisplayProtocol
  import opened DisplayOwnership

  function Saturated(events: nat): nat {
    if events >= 0x1_0000_0000_0000_0000 then 0xFFFF_FFFF_FFFF_FFFF else events
  }

  /** An event that was let through but whose store is still to come. */
  function Underway(pc: ProducerPc, c: Counter): nat {
    if (pc.RLoad? || pc.RStore?) && pc.c == c then 1 else 0
  }

  predicate Counted(s: State) {
    && Underway(s.p.pc, Icmp) <= s.e.icmpEvents && Underway(s.p.pc, Ssh) <= s.e.sshEvents
    && s.m.icmp == Saturated(s.e.icmpEvents - Underway(s.p.pc, Icmp))
    && s.m.ssh == Saturated(s.e.sshEvents - Underway(s.p.pc, Ssh))
    && (s.p.pc.RStore? ==> s.p.pc.value == CounterValue(s.m, s.p.pc.c) && s.p.pc.value < U64_MAX)
    && s.w.icmp <= s.m.icmp && s.w.ssh <= s.m.ssh
  }

  lemma RecordKeepsCounted(s: State)
    requires Counted(s) && RecordNext(s).Some?
    ensures Counted(RecordNext(s).value) && RecordNext(s).value.w == s.w
  {
  }

  /** Apart from recording, the capture thread touches neither the counters nor the worker. */
  lemma OtherCallsKeepCounters(s: State, memory: bool)
    requires ProducerNext(s, memory).Some? && !InRecord(s.p.pc)
    ensures var t := ProducerNext(s, memory).value;
            && t.m.icmp == s.m.icmp && t.m.ssh == s.m.ssh && t.w == s.w && !InRecord(t.p.pc)
            && t.e.icmpEvents == s.e.icmpEvents && t.e.sshEvents == s.e.sshEvents
  {
    hide RecordNext;
    if InStart(s.p.pc) {
    } else if InPublish(s.p.pc) {
    } else {
    }
  }

  /** The worker reads the counters and changes neither them nor what was recorded. */
  lemma WorkerKeepsCounters(s: State, ok: bool)
    requires WorkerNext(s, ok).Some?
    ensures var t := WorkerNext(s, ok).value;
            && t.m.icmp == s.m.icmp && t.m.ssh == s.m.ssh
            && (t.p.pc == s.p.pc || (s.p.pc.MWaiting? && t.p.pc.MWaiting?))
            && t.e.icmpEvents == s.e.icmpEvents && t.e.sshEvents == s.e.sshEvents
            && (t.w.icmp == s.w.icmp || t.w.icmp == s.m.icmp) && (t.w.ssh == s.w.ssh || t.w.ssh == s.m.ssh)
  {
    hide Rendered, EntriesOf, IterationNext;
    if !StartingUp(s.w.pc) && !Ending(s.w.pc) {
      IterationKeepsCounters(s, ok);
    }
  }

  lemma IterationKeepsCounters(s: State, ok: bool)
    requires IterationNext(s, ok).Some?
    ensures var t := IterationNext(s, ok).value;
            && t.m == s.m.(pending := t.m.pending) && t.p == s.p
            && t.e.icmpEvents == s.e.icmpEvents && t.e.sshEvents == s.e.sshEvents
            && (t.w.icmp == s.w.icmp || t.w.icmp == s.m.icmp) && (t.w.ssh == s.w.ssh || t.w.ssh == s.m.ssh)
  {
    hide Rendered, EntriesOf, Freed;
  }

  lemma StepKeepsCounted(s: State, step: Step)
    requires Counted(s) && Next(s, step).Some?
    ensures Counted(Next(s, step).value)
    ensures s.w.icmp <= Next(s, step).value.w.icmp && s.w.ssh <= Next(s, step).value.w.ssh
  {
    hide WorkerNext, RecordNext, StartNext, PublishNext, DestroyNext;
    match step
    case WorkerStep(ok) => WorkerKeepsCounters(s, ok);
    case ProducerStep(memory) =>
      if InRecord(s.p.pc) {
        RecordKeepsCounted(s);
      } else {
        OtherCallsKeepCounters(s, memory);
      }
    case _ =>
  }

  lemma {:induction false} EveryScheduleCounted(window: u32, threshold: nat, schedule: seq<Step>)
    requires After(window, threshold, schedule).Some?
    ensures Counted(After(window, threshold, schedule).value)
  {
    hide Next;
    if schedule != [] {
      var n := |schedule| - 1;
      EveryScheduleCounted(window, threshold, schedule[..n]);
      StepKeepsCounted(After(window, threshold, schedule[..n]).value, schedule[n]);
    }
  }

  /** Under every schedule, whenever the capture thread is between calls each counter is the
      number of its events recorded while the display was available, up to the largest value. */
  lemma CountersAreExact(window: u32, threshold: nat, schedule: seq<Step>)
    requires After(window, threshold, schedule).Some?
    requires After(window, threshold, schedule).value.p.pc.PIdle?
    ensures var s := After(window, threshold, schedule).value;
            s.m.icmp == Saturated(s.e.icmpEvents) && s.m.ssh == Saturated(s.e.sshEvents)
  {
    EveryScheduleCounted(window, threshold, schedule);
  }

  /** Over any continuation of a schedule the values the worker reads never go down, and never
      exceed the number of events recorded. */
  lemma {:induction false} ReadsNeverFall(window: u32, threshold: nat, schedule: seq<Step>, more: seq<Step>)
    requires After(window, threshold, schedule + more).Some?
    ensures After(window, threshold, schedule).Some?
    ensures var s, t := After(window, threshold, schedule).value, After(window, threshold, schedule + more).value;
            && s.w.icmp <= t.w.icmp <= t.e.icmpEvents
            && s.w.ssh <= t.w.ssh <= t.e.sshEvents
  {
    hide Next;
    EveryScheduleCounted(window, threshold, schedule + more);
    if more == [] {
      assert schedule + more == schedule;
    } else {
      var n := |more| - 1;
      assert (schedule + more)[..|schedule| + n] == schedule + more[..n];
      ReadsNeverFall(window, threshold, schedule, more[..n]);
      EveryScheduleCounted(window, threshold, schedule + more[..n]);
      StepKeepsCounted(After(window, threshold, schedule + more[..n]).value, more[n]);
    }
  }
}

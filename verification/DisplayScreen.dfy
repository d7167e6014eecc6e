/** From the history to the digits: what the display shows after every iteration. */
module DisplayScreen {
  import opened NetTypes
  import opened ScanTable
  import opened ScanHistory
  import opened ScanSnapshot
  import opened Tm1637Device
  import opened DisplayProtocol
  import opened DisplayOwnership
  import opened DisplayFreshness

  /** The worker has sampled the wall clock in this iteration. */
  predicate Sampled(pc: WorkerPc) {
    pc.WMono? || pc.WIcmp? || pc.WSsh? || pc.WRender? || pc.WWrite? || pc.WSleep?
  }

  /** The clock is never behind the history; a sampled time is never behind the snapshot shown. */
  ghost predicate Timed(s: State) {
    && Timely(s.p.history) && Now(s.p.history) <= s.e.clock < U32_LIMIT
    && (Sampled(s.w.pc) ==> s.w.wall <= s.e.clock
                            && (0 < Rev(s.e.heap, s.w.active) <= |s.p.history|
                                ==> s.p.history[Rev(s.e.heap, s.w.active) - 1].at <= s.w.wall))
  }

  /** The frame for the values the worker sampled. */
  function Frame(s: State): seq<byte> {
    Rendered(s.window, s.w.icmp, s.w.ssh, EntriesOf(s.e.heap, s.w.active), ElapsedMs(s.w.start, s.w.mono), s.w.wall)
  }

  /** `previous` is what the device shows, and before the sleep it is the frame just rendered. */
  predicate Screened(s: State) {
    && (!StartingUp(s.w.pc) && !Ending(s.w.pc) ==> s.w.ready && s.e.shown == Some(s.w.previous))
    && (StartingUp(s.w.pc) && !s.w.pc.WOpen? && !s.w.pc.WFirstWrite? && s.w.ready ==> s.e.shown == Some(s.w.previous))
    && (StartingUp(s.w.pc) && !s.w.pc.WOpen? ==> s.w.previous == Encoded(1, 0))
    && (s.w.pc.WWrite? || s.w.pc.WSleep? ==> s.w.segments == Frame(s))
    && (s.w.pc.WSleep? ==> s.w.previous == s.w.segments)
  }

  // ----- The cached frame -----

  lemma StartUpKeepsScreened(s: State, ok: bool)
    requires Screened(s) && StartUpNext(s, ok).Some?
    ensures Screened(StartUpNext(s, ok).value)
  {
    hide Frame, Encoded;
  }

  lemma IterationKeepsScreened(s: State, ok: bool)
    requires Screened(s) && IterationNext(s, ok).Some?
    ensures Screened(IterationNext(s, ok).value)
  {
    hide Rendered, EntriesOf, Freed, Encoded;
  }

  lemma WorkerKeepsScreened(s: State, ok: bool)
    requires Screened(s) && WorkerNext(s, ok).Some?
    ensures Screened(WorkerNext(s, ok).value)
  {
    hide Screened, StartUpNext, IterationNext;
    if StartingUp(s.w.pc) {
      StartUpKeepsScreened(s, ok);
    } else if Ending(s.w.pc) {
      EndKeepsScreened(s, ok);
    } else {
      IterationKeepsScreened(s, ok);
    }
  }

  lemma EndKeepsScreened(s: State, ok: bool)
    requires EndNext(s, ok).Some?
    ensures Screened(EndNext(s, ok).value)
  {
    hide Freed, Frame, Encoded;
  }

  /** The capture thread neither writes to the device nor changes an entry the worker reads. */
  lemma ProducerLeavesScreen(s: State, step: Step)
    requires InOrder(s) && Next(s, step).Some? && !step.WorkerStep?
    ensures var t := Next(s, step).value;
            && t.w == s.w && t.e.shown == s.e.shown && s.e.heap <= t.e.heap && t.window == s.window
            && (step.Observe? || t.p.history == s.p.history)
  {
    hide Flattened, TableAfter, Freed, WorkerNext, InOrder;
  }

  lemma StepKeepsScreened(s: State, step: Step)
    requires Screened(s) && InOrder(s) && Next(s, step).Some?
    ensures Screened(Next(s, step).value)
  {
    hide WorkerNext, ProducerNext, CallNext, InOrder, Rendered, StartingUp, Ending, Encoded;
    if step.WorkerStep? {
      WorkerKeepsScreened(s, step.ok);
    } else {
      ProducerLeavesScreen(s, step);
      InOrderBounds(s);
    }
  }

  // ----- The clock -----

  lemma LaterIsLater(h: seq<Syn>, i: nat)
    requires Timely(h) && 0 < i <= |h|
    ensures h[i - 1].at <= Now(h)
  {
  }

  lemma IterationKeepsTimed(s: State, ok: bool)
    requires Timed(s) && InOrder(s) && IterationNext(s, ok).Some?
    ensures Timed(IterationNext(s, ok).value)
  {
    hide Rendered, EntriesOf, Freed, InOrder, Timely, Now;
    InOrderBounds(s);
    if 0 < Rev(s.e.heap, s.w.active) {
      LaterIsLater(s.p.history, Rev(s.e.heap, s.w.active));
    }
  }

  lemma OtherWorkKeepsTimed(s: State, ok: bool)
    requires Timed(s) && WorkerNext(s, ok).Some? && (StartingUp(s.w.pc) || Ending(s.w.pc))
    ensures Timed(WorkerNext(s, ok).value)
  {
    hide Freed, Timely, Now, IterationNext;
  }

  lemma StepKeepsTimed(s: State, step: Step)
    requires Timed(s) && InOrder(s) && Next(s, step).Some?
    ensures Timed(Next(s, step).value)
  {
    hide WorkerNext, ProducerNext, InOrder, StartingUp, Ending, IterationNext;
    if step.WorkerStep? {
      if StartingUp(s.w.pc) || Ending(s.w.pc) {
        OtherWorkKeepsTimed(s, step.ok);
      } else {
        assert WorkerNext(s, step.ok) == IterationNext(s, step.ok) by { WorkerInLoop(s, step.ok); }
        IterationKeepsTimed(s, step.ok);
      }
    } else {
      ProducerLeavesScreen(s, step);
      ProducerKeepsClock(s, step);
      InOrderBounds(s);
    }
  }

  lemma WorkerInLoop(s: State, ok: bool)
    requires !StartingUp(s.w.pc) && !Ending(s.w.pc)
    ensures WorkerNext(s, ok) == IterationNext(s, ok)
  {
    hide IterationNext;
  }

  lemma ProducerKeepsClock(s: State, step: Step)
    requires Next(s, step).Some? && !step.WorkerStep?
    requires Timely(s.p.history) && Now(s.p.history) <= s.e.clock < U32_LIMIT
    ensures var t := Next(s, step).value;
            && s.e.clock <= t.e.clock < U32_LIMIT && Timely(t.p.history) && Now(t.p.history) <= t.e.clock
            && s.p.history <= t.p.history
  {
    hide Flattened, TableAfter, Freed, WorkerNext;
  }

  // ----- Every run -----

  lemma {:induction false} EveryScheduleScreened(window: u32, threshold: nat, schedule: seq<Step>)
    requires After(window, threshold, schedule).Some?
    ensures Screened(After(window, threshold, schedule).value) && Timed(After(window, threshold, schedule).value)
  {
    hide Next, InOrder, LetGo, AllFaithful, Screened, Timed;
    if schedule == [] {
      InitialScreened(window, threshold);
    } else {
      var n := |schedule| - 1;
      EveryScheduleScreened(window, threshold, schedule[..n]);
      EveryScheduleInOrder(window, threshold, schedule[..n]);
      StepKeepsScreened(After(window, threshold, schedule[..n]).value, schedule[n]);
      StepKeepsTimed(After(window, threshold, schedule[..n]).value, schedule[n]);
    }
  }

  lemma InitialScreened(window: u32, threshold: nat)
    ensures Screened(Initial(window, threshold)) && Timed(Initial(window, threshold))
  {
  }

  /** When the worker reports success, the display already shows page 1 with the number 0. */
  lemma StartUpShowsZero(window: u32, threshold: nat, schedule: seq<Step>)
    requires After(window, threshold, schedule).Some?
    requires var w := After(window, threshold, schedule).value.w;
             StartingUp(w.pc) && !w.pc.WOpen? && !w.pc.WFirstWrite? && w.ready
    ensures var s := After(window, threshold, schedule).value;
            && s.e.shown.Some? && |s.e.shown.value| == 4 && Shown(s.e.shown.value) == Some((1, 0))
  {
    hide After, Shown, Encoded;
    EveryScheduleScreened(window, threshold, schedule);
    DigitsRoundTrip(1, 0);
    FourDigits(1, 0);
  }

  /** Writing only when the frame changed cannot be told from writing every time: whenever the
      worker goes to sleep the device shows the frame of the values it sampled. */
  lemma ScreenShowsFrame(window: u32, threshold: nat, schedule: seq<Step>)
    requires After(window, threshold, schedule).Some?
    requires After(window, threshold, schedule).value.w.pc.WSleep?
    ensures var s := After(window, threshold, schedule).value;
            s.e.shown == Some(Rendered(window, s.w.icmp, s.w.ssh, EntriesOf(s.e.heap, s.w.active),
                                       ElapsedMs(s.w.start, s.w.mono), s.w.wall))
  {
    hide After, Rendered;
    EveryScheduleScreened(window, threshold, schedule);
    EveryScheduleInOrder(window, threshold, schedule);
  }

  /** Pages turn every second after the first write. */
  function PageOf(w: WorkerState): nat {
    if w.mono < w.start then 1 else (w.mono - w.start) / 1_000_000_000 % 3 + 1
  }

  lemma PageOfElapsed(start: nat, mono: nat)
    ensures ElapsedMs(start, mono) / 1000 == if mono < start then 0 else (mono - start) / 1_000_000_000
  {
  }

  lemma PageIsOneOfThree(w: WorkerState)
    ensures 1 <= PageOf(w) <= 3
  {
  }

  /** The value a page shows. */
  function ValueOf(page: nat, icmp: nat, ssh: nat, entries: seq<SnapshotPort>, now: nat, window: u32): nat {
    if page == 1 then icmp else if page == 2 then ssh else Pass(entries, now, window).maximum
  }

  lemma RenderedIs(window: u32, w: WorkerState, entries: seq<SnapshotPort>)
    ensures Rendered(window, w.icmp, w.ssh, entries, ElapsedMs(w.start, w.mono), w.wall)
         == Encoded(PageOf(w), ValueOf(PageOf(w), w.icmp, w.ssh, entries, w.wall, window))
  {
    PageOfElapsed(w.start, w.mono);
    hide ElapsedMs, Encoded, Pass;
  }

  /** Whenever the worker sleeps, the digits read as the page of the sampled time and, up to 999,
      the value of that page. */
  lemma ScreenReads(window: u32, threshold: nat, schedule: seq<Step>)
    requires After(window, threshold, schedule).Some?
    requires After(window, threshold, schedule).value.w.pc.WSleep?
    ensures var s := After(window, threshold, schedule).value;
            var value := ValueOf(PageOf(s.w), s.w.icmp, s.w.ssh, EntriesOf(s.e.heap, s.w.active), s.w.wall, window);
            && s.e.shown.Some? && |s.e.shown.value| == 4
            && s.e.shown.value == Encoded(PageOf(s.w), value)
            && Shown(s.e.shown.value) == Some((PageOf(s.w), Cut(value)))
  {
    var s := After(window, threshold, schedule).value;
    hide After, Shown, Encoded, Rendered, ElapsedMs, PageOf, ValueOf;
    ScreenShowsFrame(window, threshold, schedule);
    var entries := EntriesOf(s.e.heap, s.w.active);
    RenderedIs(window, s.w, entries);
    PageIsOneOfThree(s.w);
    DigitsRoundTrip(PageOf(s.w), ValueOf(PageOf(s.w), s.w.icmp, s.w.ssh, entries, s.w.wall, window));
    FourDigits(PageOf(s.w), ValueOf(PageOf(s.w), s.w.icmp, s.w.ssh, entries, s.w.wall, window));
  }

  /** In the k-th second after the first write the first digit shows page k mod 3, counted from 1. */
  lemma PagesTurnEverySecond(window: u32, threshold: nat, schedule: seq<Step>, k: nat)
    requires After(window, threshold, schedule).Some?
    requires var w := After(window, threshold, schedule).value.w;
             w.pc.WSleep? && k * 1_000_000_000 <= w.mono - w.start < (k + 1) * 1_000_000_000
    ensures var s := After(window, threshold, schedule).value;
            && s.e.shown.Some? && |s.e.shown.value| == 4
            && Shown(s.e.shown.value).Some? && Shown(s.e.shown.value).value.0 == k % 3 + 1
  {
    hide After, Shown, Encoded, ValueOf;
    ScreenReads(window, threshold, schedule);
    var w := After(window, threshold, schedule).value.w;
    SecondsCount(w.mono - w.start, k);
  }

  lemma SecondsCount(nanos: nat, k: nat)
    requires k * 1_000_000_000 <= nanos < (k + 1) * 1_000_000_000
    ensures nanos / 1_000_000_000 == k
  {
  }

  /** Pages 1 and 2 read as the two counters the worker sampled, cut off at 999. */
  lemma CounterPagesRead(window: u32, threshold: nat, schedule: seq<Step>)
    requires After(window, threshold, schedule).Some?
    requires After(window, threshold, schedule).value.w.pc.WSleep?
    requires PageOf(After(window, threshold, schedule).value.w) != 3
    ensures var s := After(window, threshold, schedule).value;
            var page := PageOf(s.w);
            && s.e.shown.Some? && |s.e.shown.value| == 4
            && Shown(s.e.shown.value) == Some((page, Cut(if page == 1 then s.w.icmp else s.w.ssh)))
  {
    hide After, Shown, Encoded, PageOf;
    ScreenReads(window, threshold, schedule);
    PageIsOneOfThree(After(window, threshold, schedule).value.w);
  }

  /** Page 3, when the snapshot shown is the detector's present contents: the digits read as the
      largest number of ports any source touched in the window before the sampled time, over the
      whole history, cut off at 999. */
  lemma ScanPageReadsHistory(window: u32, threshold: nat, schedule: seq<Step>)
    requires After(window, threshold, schedule).Some?
    requires var s := After(window, threshold, schedule).value;
             && s.w.pc.WSleep? && s.m.pending.None? && !s.p.pc.PExchange?
             && s.p.published == |s.p.history| && PageOf(s.w) == 3
    ensures var s := After(window, threshold, schedule).value;
            && s.e.shown.Some? && |s.e.shown.value| == 4
            && exists m: nat :: && LargestScan(m, s.p.history, s.w.wall, window)
                                && Shown(s.e.shown.value) == Some((3, Cut(m)))
  {
    var s := After(window, threshold, schedule).value;
    hide After, Shown, Encoded, Flattened, TableAfter, Pass, PageOf;
    ScreenReads(window, threshold, schedule);
    NothingPendingMeansCurrent(window, threshold, schedule);
    EveryScheduleInOrder(window, threshold, schedule);
    EveryScheduleScreened(window, threshold, schedule);
    EntriesAreHistory(s.e.heap, s.w.active, s.p.history, window, threshold);
    assert s.p.history[..|s.p.history|] == s.p.history;
    var m := Pass(EntriesOf(s.e.heap, s.w.active), s.w.wall, window).maximum;
    SnapshotShowsHistory(s.p.history, window, threshold, s.w.wall);
    assert LargestScan(m, s.p.history, s.w.wall, window) && Shown(s.e.shown.value) == Some((3, Cut(m)));
  }

  lemma {:induction false} LastSynPast(h: seq<Syn>, src: Ipv4, port: u16)
    requires Timely(h)
    ensures LastSyn(h, src, port).Some? ==> LastSyn(h, src, port).value <= Now(h)
  {
    if h != [] {
      LastSynPast(h[..|h| - 1], src, port);
    }
  }

  /** Once the window has passed over the newest SYN no port is left, for any source. */
  lemma WindowEmpties(h: seq<Syn>, now: int, window: u32, m: nat)
    requires Timely(h) && now - Now(h) > window && LargestScan(m, h, now, window)
    ensures m == 0
  {
    forall s: Ipv4 ensures |WindowPorts(h, s, now, window)| == 0 {
      forall p: u16 ensures p !in WindowPorts(h, s, now, window) {
        LastSynPast(h, s, p);
      }
      assert WindowPorts(h, s, now, window) == {};
    }
  }

  /** Page 3 ages down to 0 by itself: no packet has to arrive for it. */
  lemma ScanPageAgesOut(window: u32, threshold: nat, schedule: seq<Step>)
    requires After(window, threshold, schedule).Some?
    requires var s := After(window, threshold, schedule).value;
             && s.w.pc.WSleep? && s.m.pending.None? && !s.p.pc.PExchange?
             && s.p.published == |s.p.history| && PageOf(s.w) == 3
             && s.w.wall - Now(s.p.history) > window
    ensures var s := After(window, threshold, schedule).value;
            && s.e.shown.Some? && |s.e.shown.value| == 4
            && Shown(s.e.shown.value) == Some((3, 0))
  {
    var s := After(window, threshold, schedule).value;
    hide After, Shown, LargestScan;
    ScanPageReadsHistory(window, threshold, schedule);
    EveryScheduleScreened(window, threshold, schedule);
    var m: nat :| LargestScan(m, s.p.history, s.w.wall, window) && Shown(s.e.shown.value) == Some((3, Cut(m)));
    WindowEmpties(s.p.history, s.w.wall, window, m);
  }
}

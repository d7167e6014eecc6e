/** From captured frames to the digits: the components joined. */
module EndToEnd {
  import opened NetTypes
  import opened ScanTable
  import opened ScanHistory
  import opened ScanSnapshot
  import opened Tm1637Device
  import opened DisplayProtocol
  import opened DisplayOwnership
  import opened DisplayFreshness
  import opened DisplayCalls
  import DisplayCounters
  import DisplayGiveUp
  import DisplayLifecycle
  import K = DisplayClock
  import S = DisplayScreen
  import W = Tm1637
  import R = PipelineRuns
  import Pipeline
  import RulesEngine
  import ScanDetector
  import D = SshDedup

  /** Somebody looking at the display sees this page and this number. */
  predicate Reads(s: State, page: nat, value: nat) {
    s.e.shown.Some? && |s.e.shown.value| == 4 && Shown(s.e.shown.value) == Some((page, value))
  }

  /** What the screen shows at the end `t` of an iteration that began with the exchange at `s`. Its
      samples were taken in between. Every second after the first write the page turns; pages 1 and
      2 show the counters; page 3 shows the largest number of ports any source touched in the window
      before some moment between `s` and `t`, over the whole history, and 0 when at `s` the window
      had already passed the newest SYN. */
  ghost predicate PagesRead(s: State, t: State, icmp: nat, ssh: nat, h: seq<Syn>) {
    && s.e.nanos <= t.w.mono <= t.e.nanos && t.w.start <= t.w.mono
    && var page := (t.w.mono - t.w.start) / 1_000_000_000 % 3 + 1;
       && (page == 1 ==> Reads(t, 1, Cut(icmp)))
       && (page == 2 ==> Reads(t, 2, Cut(ssh)))
       && (page == 3 ==> ScanRead(s.e.clock, t, h))
       && (page == 3 && s.e.clock - Now(h) > t.window ==> Reads(t, 3, 0))
  }

  ghost predicate ScanRead(from: nat, t: State, h: seq<Syn>) {
    exists now: nat, m: nat :: from <= now <= t.e.clock && LargestScan(m, h, now, t.window) && Reads(t, 3, Cut(m))
  }

  /** The same, with the page as the program computes it. */
  lemma ShowsPages(s: State, t: State, icmp: nat, ssh: nat, h: seq<Syn>)
    requires s.e.nanos <= t.w.mono <= t.e.nanos && t.w.start <= t.w.mono
    requires S.PageOf(t.w) == 1 ==> Reads(t, 1, Cut(icmp))
    requires S.PageOf(t.w) == 2 ==> Reads(t, 2, Cut(ssh))
    requires S.PageOf(t.w) == 3 ==> ScanRead(s.e.clock, t, h)
    requires S.PageOf(t.w) == 3 && s.e.clock - Now(h) > t.window ==> Reads(t, 3, 0)
    ensures PagesRead(s, t, icmp, ssh, h)
  {
    hide Reads, ScanRead, Now, Cut;
  }

  lemma ScanPageShows(window: u32, threshold: nat, all: seq<Step>, from: nat)
    requires After(window, threshold, all).Some?
    requires var t := After(window, threshold, all).value;
             && t.w.pc.WSleep? && t.m.pending.None? && !t.p.pc.PExchange? && t.p.published == |t.p.history|
             && S.PageOf(t.w) == 3 && from <= t.w.wall <= t.e.clock && t.window == window
    ensures var t := After(window, threshold, all).value;
            && ScanRead(from, t, t.p.history)
            && (from - Now(t.p.history) > window ==> Reads(t, 3, 0))
  {
    var t := After(window, threshold, all).value;
    hide After, Shown, LargestScan, S.PageOf, Cut;
    S.ScanPageReadsHistory(window, threshold, all);
    var m: nat :| LargestScan(m, t.p.history, t.w.wall, window) && Shown(t.e.shown.value) == Some((3, Cut(m)));
    assert Reads(t, 3, Cut(m));
    if from - Now(t.p.history) > window {
      S.ScanPageAgesOut(window, threshold, all);
    }
  }

  /** While the capture thread is quiet and everything is published, one iteration of the worker,
      from its exchange to its sleep, shows on every page what it should. */
  lemma QuietIterationShows(window: u32, threshold: nat, schedule: seq<Step>, more: seq<Step>)
    requires After(window, threshold, schedule).Some? && After(window, threshold, schedule + more).Some?
    requires OnlyWorker(more) && more != [] && more[0].WorkerStep?
    requires var s := After(window, threshold, schedule).value;
             s.w.pc.WExchange? && s.p.pc.PIdle? && s.p.published == |s.p.history|
    requires After(window, threshold, schedule + more).value.w.pc.WSleep?
    ensures var s, t := After(window, threshold, schedule).value, After(window, threshold, schedule + more).value;
            t.p == s.p && t.window == window && PagesRead(s, t, s.m.icmp, s.m.ssh, s.p.history)
  {
    var all := schedule + more;
    var s, t := After(window, threshold, schedule).value, After(window, threshold, all).value;
    hide After, Shown, OnlyWorker, S.PageOf, PagesRead, ScanRead, Cut, Now;
    QuietRun(window, threshold, schedule, more);
    QuietRunSamples(window, threshold, schedule, more);
    EveryScheduleInOrder(window, threshold, all);
    K.SamplesAreFresh(window, threshold, schedule, more);
    StartIsPast(window, threshold, schedule, more);
    S.PageIsOneOfThree(t.w);
    if S.PageOf(t.w) == 3 {
      ScanPageShows(window, threshold, all, s.e.clock);
    } else {
      S.CounterPagesRead(window, threshold, all);
    }
    ShowsPages(s, t, s.m.icmp, s.m.ssh, s.p.history);
  }

  lemma StartIsPast(window: u32, threshold: nat, schedule: seq<Step>, more: seq<Step>)
    requires After(window, threshold, schedule).Some? && After(window, threshold, schedule + more).Some?
    requires After(window, threshold, schedule).value.w.pc.WExchange?
    ensures After(window, threshold, schedule + more).value.w.start <= After(window, threshold, schedule).value.e.nanos
  {
    hide After;
    K.StartWasBefore(window, threshold, schedule);
    K.StartStays(window, threshold, schedule, more, After(window, threshold, schedule).value.w.start);
  }

  // ----- A publication and what the worker makes of it -----

  /** The capture thread enters a publish call at the end of `before`, with no allocation failed so
      far, and runs it to its end in `call`, in any interleaving with the worker; then it is quiet,
      the worker comes to an exchange in `wait` and to sleep in `iteration`. */
  ghost predicate Published(window: u32, threshold: nat, before: seq<Step>, call: seq<Step>, wait: seq<Step>,
                            iteration: seq<Step>)
  {
    && WithMemory(call) && OnlyWorker(wait) && OnlyWorker(iteration) && iteration != [] && iteration[0].WorkerStep?
    && After(window, threshold, before).Some? && After(window, threshold, before + call).Some?
    && After(window, threshold, before + call + wait).Some?
    && After(window, threshold, before + call + wait + iteration).Some?
    && After(window, threshold, before).value.p.pc.PAvailable?
       && !After(window, threshold, before).value.m.snapshotFailed
    && After(window, threshold, before + call).value.p.pc.PIdle?
    && After(window, threshold, before + call + wait).value.w.pc.WExchange?
    && After(window, threshold, before + call + wait + iteration).value.w.pc.WSleep?
  }

  lemma {:induction false} FlagStays(window: u32, threshold: nat, schedule: seq<Step>, more: seq<Step>)
    requires After(window, threshold, schedule + more).Some? && OnlyWorker(more)
    ensures After(window, threshold, schedule).Some?
    ensures After(window, threshold, schedule + more).value.m.snapshotFailed
            == After(window, threshold, schedule).value.m.snapshotFailed
  {
    hide Next;
    if more == [] {
      assert schedule + more == schedule;
    } else {
      var n := |more| - 1;
      assert (schedule + more)[..|schedule| + n] == schedule + more[..n];
      FlagStays(window, threshold, schedule, more[..n]);
      WorkerKeepsFlag(After(window, threshold, schedule + more[..n]).value, more[n]);
    }
  }

  lemma WorkerKeepsFlag(s: State, step: Step)
    requires Next(s, step).Some? && (step.WorkerStep? || step.Tick?)
    ensures Next(s, step).value.m.snapshotFailed == s.m.snapshotFailed
  {
    hide IterationNext;
    if step.WorkerStep? && !StartingUp(s.w.pc) && !Ending(s.w.pc) {
      DisplayLifecycle.IterationFrames(s, step.ok);
    }
  }

  /** A published detector reaches the screen: after the call returned and the worker has made one
      iteration, every page shows what it should, for the detector as it was when the call began. */
  lemma PublishedIsShown(window: u32, threshold: nat, before: seq<Step>, call: seq<Step>, wait: seq<Step>,
                         iteration: seq<Step>)
    requires Published(window, threshold, before, call, wait, iteration)
    ensures var h := After(window, threshold, before).value.p.history;
            var s, t := After(window, threshold, before + call + wait).value,
                        After(window, threshold, before + call + wait + iteration).value;
            && s.p.pc.PIdle? && !s.m.snapshotFailed
            && t.window == window && t.p.history == h && PagesRead(s, t, s.m.icmp, s.m.ssh, h)
  {
    hide After, PagesRead;
    PublishPublishes(window, threshold, before, call);
    DisplayGiveUp.EndingIsForGood(window, threshold, before + call, wait);
    QuietRun(window, threshold, before + call, wait);
    FlagStays(window, threshold, before + call, wait);
    QuietIterationShows(window, threshold, before + call + wait, iteration);
  }

  /** And it can always be followed up: when the call has returned and the worker is still going,
      ten steps of the worker bring it to an exchange and ten more to its sleep. */
  lemma PublicationIsFollowedUp(window: u32, threshold: nat, before: seq<Step>, call: seq<Step>)
    requires After(window, threshold, before).Some? && After(window, threshold, before + call).Some? && WithMemory(call)
    requires var s := After(window, threshold, before).value; s.p.pc.PAvailable? && !s.m.snapshotFailed
    requires var t := After(window, threshold, before + call).value; t.p.pc.PIdle? && K.Going(t)
    ensures exists wait, iteration :: Published(window, threshold, before, call, wait, iteration)
                                      && |wait| <= 10 && |iteration| <= 10
  {
    hide After, K.Going;
    var wait := RunsTo(window, threshold, before + call, 2);
    var iteration := RunsTo(window, threshold, before + call + wait, 10);
    QuietRun(window, threshold, before + call, wait);
    assert before + call + wait + [] == before + call + wait;
    assert Published(window, threshold, before, call, wait, iteration);
  }

  lemma RunsTo(window: u32, threshold: nat, schedule: seq<Step>, place: nat) returns (steps: seq<Step>)
    requires After(window, threshold, schedule).Some? && K.Going(After(window, threshold, schedule).value)
    requires place == 2 || place == 10
    ensures OnlyWorker(steps) && |steps| <= 10 && (steps != [] ==> steps[0].WorkerStep?)
    ensures After(window, threshold, schedule + steps).Some?
    ensures K.Going(After(window, threshold, schedule + steps).value)
    ensures K.Place(After(window, threshold, schedule + steps).value.w.pc) == place
    ensures place == 2 ==> After(window, threshold, schedule + steps).value.w.pc.WExchange?
    ensures place == 10 ==> After(window, threshold, schedule + steps).value.w.pc.WSleep?
  {
    hide After, K.Going, K.Place;
    var all := K.GoodSteps(10);
    K.GoodStepsCount(10);
    K.CanGoOn(window, threshold, schedule, 10);
    K.ComesTo(window, threshold, schedule, all, place);
    var j :| 0 <= j <= |all| && K.IsAt(window, threshold, schedule + all[..j], place);
    steps := all[..j];
    K.PlacesAre(window, threshold, schedule + steps);
  }

  // ----- Captured frames -----

  /** The calls the events of a packet cause: those that move a counter. */
  function RecordCalls(events: seq<RulesEngine.Event>): seq<Call> {
    if events == [] then []
    else
      var c := R.Moves(events[|events| - 1]);
      RecordCalls(events[..|events| - 1]) + if c.Some? then [Recorded(c.value)] else []
  }

  /** What `process_packet` calls for one capture: record, observe, publish. */
  function PacketCalls(c: R.Capture, ssh: seq<D.Sighting>): seq<Call> {
    var p := R.InfoOf(c);
    RecordCalls(Pipeline.PacketEvents(p, c.at, Pipeline.SshAfter(ssh, p, c.at)))
    + (if ScanDetector.Qualifies(p) then [Observed(Syn(p.srcIpv4, p.dstPort, c.at))] else [])
    + [DisplayCalls.Published]
  }

  function CallsOf(run: seq<R.Capture>): seq<Call> {
    if run == [] then []
    else CallsOf(run[..|run| - 1]) + PacketCalls(run[|run| - 1], R.SightingsOf(run[..|run| - 1]))
  }

  lemma {:induction false} RecordCallsCount(events: seq<RulesEngine.Event>, c: Counter)
    ensures RecordedIn(RecordCalls(events), c) == R.Moved(events, c) && SynsIn(RecordCalls(events)) == []
  {
    hide R.Moves;
    if events == [] {
      NothingRecorded(c);
    } else {
      var before := RecordCalls(events[..|events| - 1]);
      RecordCallsCount(events[..|events| - 1], c);
      var m := R.Moves(events[|events| - 1]);
      if m.Some? {
        CallsConcat(before, [Recorded(m.value)], c);
        OneCall(Recorded(m.value), c);
      } else {
        assert before + [] == before;
      }
    }
  }

  lemma PacketCallsAre(c: R.Capture, ssh: seq<D.Sighting>, k: Counter)
    ensures var p := R.InfoOf(c);
            && RecordedIn(PacketCalls(c, ssh), k)
               == R.Moved(Pipeline.PacketEvents(p, c.at, Pipeline.SshAfter(ssh, p, c.at)), k)
            && SynsIn(PacketCalls(c, ssh))
               == if ScanDetector.Qualifies(p) then [Syn(p.srcIpv4, p.dstPort, c.at)] else []
  {
    var p := R.InfoOf(c);
    hide R.InfoOf, ScanDetector.Qualifies, RulesEngine.ConsultsTable, SynsIn, RecordedIn, RecordCalls, R.Moved;
    var own := Pipeline.PacketEvents(p, c.at, Pipeline.SshAfter(ssh, p, c.at));
    var observed := Observed(Syn(p.srcIpv4, p.dstPort, c.at));
    var second: seq<Call> := if ScanDetector.Qualifies(p) then [observed] else [];
    RecordCallsCount(own, k);
    OneCall(DisplayCalls.Published, k);
    OneCall(observed, k);
    CallsConcat(RecordCalls(own), second, k);
    CallsConcat(RecordCalls(own) + second, [DisplayCalls.Published], k);
  }

  lemma PacketCallsCount(c: R.Capture, ssh: seq<D.Sighting>, scan: seq<Syn>)
    ensures var p := R.InfoOf(c);
            && scan + SynsIn(PacketCalls(c, ssh)) == Pipeline.ScanAfter(scan, p, c.at)
            && RecordedIn(PacketCalls(c, ssh), Icmp) == (if R.EchoRequest(p) then 1 else 0)
            && RecordedIn(PacketCalls(c, ssh), Ssh) == R.AlertsDue(Pipeline.SshAfter(ssh, p, c.at)) - R.AlertsDue(ssh)
  {
    hide R.InfoOf, ScanDetector.Qualifies, R.AlertsDue, R.EchoRequest, SynsIn, RecordedIn, PacketCalls, R.Moved;
    R.InfoIsConsistent(c);
    R.OwnMoves(R.InfoOf(c), c.at, ssh);
    PacketCallsAre(c, ssh, Icmp);
    PacketCallsAre(c, ssh, Ssh);
    assert scan + [] == scan;
  }

  /** The calls of a run are the SYNs the detector counts, the accepted Echo Requests and the SSH
      SYNs that repeat nothing. */
  lemma {:induction false} RunCallsCount(run: seq<R.Capture>)
    ensures SynsIn(CallsOf(run)) == R.SynsOf(run)
    ensures RecordedIn(CallsOf(run), Icmp) == R.EchoRequests(run)
    ensures RecordedIn(CallsOf(run), Ssh) == R.AlertsDue(R.SightingsOf(run))
  {
    hide R.InfoOf, R.EchoRequest, R.AlertsDue, SynsIn, RecordedIn, PacketCalls, Pipeline.ScanAfter, Pipeline.SshAfter;
    if run == [] {
      NothingRecorded(Icmp);
      NothingRecorded(Ssh);
      R.MovedNothing();
    } else {
      var n := |run| - 1;
      RunCallsCount(run[..n]);
      PacketCallsCount(run[n], R.SightingsOf(run[..n]), R.SynsOf(run[..n]));
      CallsConcat(CallsOf(run[..n]), PacketCalls(run[n], R.SightingsOf(run[..n])), Icmp);
      CallsConcat(CallsOf(run[..n]), PacketCalls(run[n], R.SightingsOf(run[..n])), Ssh);
    }
  }

  function PublishedIn(calls: seq<Call>): nat {
    if calls == [] then 0
    else PublishedIn(calls[..|calls| - 1]) + if calls[|calls| - 1] == DisplayCalls.Published then 1 else 0
  }

  lemma {:induction false} NoPublishAmong(calls: seq<Call>)
    requires DisplayCalls.Published !in calls
    ensures PublishedIn(calls) == 0
  {
    if calls != [] {
      NoPublishAmong(calls[..|calls| - 1]);
    }
  }

  lemma {:induction false} PublishedConcat(a: seq<Call>, b: seq<Call>)
    ensures PublishedIn(a + b) == PublishedIn(a) + PublishedIn(b)
  {
    if b == [] {
      assert a + b == a;
    } else {
      PublishedConcat(a, b[..|b| - 1]);
      assert (a + b)[..|a + b| - 1] == a + b[..|b| - 1];
    }
  }

  lemma {:induction false} RecordsOnly(events: seq<RulesEngine.Event>)
    ensures forall call :: call in RecordCalls(events) ==> call.Recorded?
  {
    hide R.Moves;
    if events != [] {
      RecordsOnly(events[..|events| - 1]);
    }
  }

  lemma OnlyLastPublishes(c: R.Capture, ssh: seq<D.Sighting>)
    ensures var calls := PacketCalls(c, ssh);
            calls != [] && calls[|calls| - 1] == DisplayCalls.Published && PublishedIn(calls) == 1
  {
    var p := R.InfoOf(c);
    var calls := PacketCalls(c, ssh);
    hide RecordCalls, R.InfoOf, ScanDetector.Qualifies, RulesEngine.ConsultsTable;
    RecordsOnly(Pipeline.PacketEvents(p, c.at, Pipeline.SshAfter(ssh, p, c.at)));
    NoPublishAmong(calls[..|calls| - 1]);
  }

  /** Every capture ends in one publish call, after its own record and observe calls. */
  lemma {:induction false} EveryCaptureIsPublished(run: seq<R.Capture>)
    ensures PublishedIn(CallsOf(run)) == |run|
    ensures run != [] ==> CallsOf(run) != [] && CallsOf(run)[|CallsOf(run)| - 1] == DisplayCalls.Published
  {
    hide PacketCalls;
    if run != [] {
      var n := |run| - 1;
      EveryCaptureIsPublished(run[..n]);
      OnlyLastPublishes(run[n], R.SightingsOf(run[..n]));
      PublishedConcat(CallsOf(run[..n]), PacketCalls(run[n], R.SightingsOf(run[..n])));
    }
  }

  lemma {:induction false} NoMoreCalls(window: u32, threshold: nat, schedule: seq<Step>, more: seq<Step>)
    requires DisplayLifecycle.NoCalls(more)
    ensures Calls(window, threshold, schedule + more) == Calls(window, threshold, schedule)
  {
    hide After;
    if more == [] {
      assert schedule + more == schedule;
    } else {
      var n := |more| - 1;
      assert (schedule + more)[..|schedule| + n] == schedule + more[..n];
      NoMoreCalls(window, threshold, schedule, more[..n]);
      assert !more[n].Observe? && !more[n].Record? && !more[n].Publish? && !more[n].Destroy?;
    }
  }

  /** With the display available, the counters hold what the calls recorded. */
  lemma CountersHold(window: u32, threshold: nat, schedule: seq<Step>)
    requires After(window, threshold, schedule).Some?
    requires var s := After(window, threshold, schedule).value; s.p.pc.PIdle? && s.m.available && !s.m.snapshotFailed
    ensures var s, calls := After(window, threshold, schedule).value, Calls(window, threshold, schedule);
            && s.m.icmp == DisplayCounters.Saturated(RecordedIn(calls, Icmp))
            && s.m.ssh == DisplayCounters.Saturated(RecordedIn(calls, Ssh))
  {
    hide After, Calls, RecordedIn, SynsIn;
    EveryScheduleTallied(window, threshold, schedule, Icmp);
    EveryScheduleTallied(window, threshold, schedule, Ssh);
    DisplayCounters.CountersAreExact(window, threshold, schedule);
  }

  lemma CutSaturated(n: nat)
    ensures Cut(DisplayCounters.Saturated(n)) == Cut(n)
  {
  }

  lemma ReadsTheSame(s: State, t: State, icmp: nat, ssh: nat, h: seq<Syn>)
    requires PagesRead(s, t, DisplayCounters.Saturated(icmp), DisplayCounters.Saturated(ssh), h)
    ensures PagesRead(s, t, icmp, ssh, h)
  {
    hide Reads, ScanRead, Now;
    CutSaturated(icmp);
    CutSaturated(ssh);
  }

  /** The whole program. The calls of the capture thread up to a last publish call are those that
      `process_packet` makes for a run of captured frames. Once that call has returned and the
      worker has made one iteration, page 1 reads as the number of accepted Echo Requests in the
      run, page 2 as the number of SSH SYNs that repeat nothing seen in the 5 seconds before, and
      page 3 as the largest number of ports any source touched in the window - all cut off at
      999. */
  lemma PagesReadTheCaptures(window: u32, threshold: nat, run: seq<R.Capture>,
                             before: seq<Step>, call: seq<Step>, wait: seq<Step>, iteration: seq<Step>)
    requires Published(window, threshold, before, call, wait, iteration)
    requires Calls(window, threshold, before) == CallsOf(run)
    ensures PagesRead(After(window, threshold, before + call + wait).value,
                      After(window, threshold, before + call + wait + iteration).value,
                      R.EchoRequests(run), R.AlertsDue(R.SightingsOf(run)), R.SynsOf(run))
  {
    hide After, PagesRead, Calls, CallsOf;
    var s := After(window, threshold, before + call + wait).value;
    PublishedIsShown(window, threshold, before, call, wait, iteration);
    assert DisplayLifecycle.NoCalls(call) && DisplayLifecycle.NoCalls(wait);
    NoMoreCalls(window, threshold, before, call);
    NoMoreCalls(window, threshold, before + call, wait);
    DisplayLifecycle.EveryScheduleOrderly(window, threshold, before + call + wait);
    PastStartUp(s);
    CountersHold(window, threshold, before + call + wait);
    EveryScheduleTallied(window, threshold, before, Icmp);
    RunCallsCount(run);
    ReadsTheSame(s, After(window, threshold, before + call + wait + iteration).value,
                 R.EchoRequests(run), R.AlertsDue(R.SightingsOf(run)), R.SynsOf(run));
  }

  /** And on the chip: whenever the worker sleeps, a successful refresh with the segments it holds
      leaves the chip's registers at those segments, lit, whatever the chip decoded before. */
  lemma ScreenIsOnTheChip(window: u32, threshold: nat, schedule: seq<Step>, c: Chip, brightness: nat,
                          w: W.Wire, v: W.Wire, sent: nat)
    requires After(window, threshold, schedule).Some? && After(window, threshold, schedule).value.w.pc.WSleep?
    requires var s := After(window, threshold, schedule).value;
             && s.e.shown.Some? && |s.e.shown.value| == 4 && brightness <= 7
             && W.RefreshDone(s.e.shown.value, brightness, w, v, true, sent)
    ensures var d := ChipAfter(c, v.device.events);
            d.digits == After(window, threshold, schedule).value.e.shown.value && d.light == Some(brightness)
  {
    var s := After(window, threshold, schedule).value;
    hide After, W.RefreshDone, ChipAfter, Encoded, Masked, Pass, S.PageOf, S.ValueOf, Shown;
    S.ScreenReads(window, threshold, schedule);
    S.PageIsOneOfThree(s.w);
    var value := S.ValueOf(S.PageOf(s.w), s.w.icmp, s.w.ssh, EntriesOf(s.e.heap, s.w.active), s.w.wall, window);
    MaskKeeps(S.PageOf(s.w), value);
    W.WrittenIsOnTheChip(c, s.e.shown.value, brightness, w, v, sent);
  }

  /** The driver's mask takes no segment of an encoded page away. */
  lemma MaskKeeps(page: nat, value: nat)
    requires 1 <= page <= 3
    ensures var e := Encoded(page, value);
            && |e| == 4 && [e[0] % 128, e[1] % 128, e[2] % 128, e[3] % 128] == e
  {
    hide Encoded, Shown;
    DigitsRoundTrip(page, value);
    FourDigits(page, value);
  }
}

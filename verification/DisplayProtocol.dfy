/** The display controller: one capture thread and one display worker over shared atomics.

    Every atomic operation is sequentially consistent, so a run is an interleaving of the steps
    below; the two program counters say which step each thread takes next. What the program does
    not control - allocation, clocks, the timer, the hardware - is an argument of the step. */
module DisplayProtocol {
  import opened NetTypes
  import opened ScanTable
  import opened ScanHistory
  import opened ScanSnapshot
  import opened Tm1637Device

  datatype Counter = Icmp | Ssh
  datatype Thread = Producer | Worker

  datatype WorkerPc =
    // start-up
    | WOpen | WFirstWrite | WInitLock | WInitAvailable | WInitialized | WInitSignal | WInitUnlock
    // one iteration
    | WRunning | WFailed | WExchange | WAdopt | WWall | WMono | WIcmp | WSsh | WRender | WWrite | WSleep
    // the end
    | WUnavailable | WFree | WClose | WDone

  datatype ProducerPc =
    // start_controller
    | MLock | MTest | MWaiting(woken: bool) | MUnlock
    | PIdle
    // record_event
    | RAvailable(c: Counter) | RFailed(c: Counter) | RLoad(c: Counter) | RStore(c: Counter, value: nat)
    // publish_scan
    | PAvailable | PFailed | PCheck | PMarkFailed | PRevision(id: nat) | PExchange(id: nat) | PFree(gone: Option<nat>)
    // destroy
    | DStop | DJoin | DExchange | DFree(gone: Option<nat>) | DDone

  datatype Snap = Snap(revision: nat, entries: seq<SnapshotPort>)

  /** The atomics, the start-up mutex and flag. */
  datatype Shared = Shared(available: bool, running: bool, snapshotFailed: bool, icmp: nat, ssh: nat,
                           pending: Option<nat>, mutex: Option<Thread>, initialized: bool)

  datatype WorkerState = WorkerState(pc: WorkerPc, ready: bool, active: Option<nat>, latest: Option<nat>,
                                     previous: seq<byte>, segments: seq<byte>,
                                     start: nat, wall: nat, mono: nat, icmp: nat, ssh: nat)

  datatype ProducerState = ProducerState(pc: ProducerPc, published: nat, history: seq<Syn>)

  /** Snapshots ever allocated and ids passed to free; the clocks; what the device shows, when
      known; how many events were recorded while the display was available. */
  datatype World = World(heap: seq<Snap>, frees: seq<nat>, clock: nat, nanos: nat,
                         shown: Option<seq<byte>>, icmpEvents: nat, sshEvents: nat)

  datatype State = State(window: u32, threshold: nat, m: Shared, w: WorkerState, p: ProducerState, e: World)

  datatype Step =
    | Observe(src: Ipv4, port: u16) | Record(c: Counter) | Publish | Destroy
    | ProducerStep(memory: bool)
    | WorkerStep(ok: bool)
    | SpuriousWake
    | Tick(seconds: nat, nanos: nat)

  function Initial(window: u32, threshold: nat): State {
    State(window, threshold,
          Shared(false, true, false, 0, 0, None, None, false),
          WorkerState(WOpen, false, None, None, [], [], 0, 0, 0, 0, 0),
          ProducerState(MLock, 0, []),
          World([], [], 0, 0, None, 0, 0))
  }

  function Freed(frees: seq<nat>, o: Option<nat>): seq<nat> {
    if o.Some? then frees + [o.value] else frees
  }

  function Woken(pc: ProducerPc): ProducerPc {
    if pc.MWaiting? then MWaiting(true) else pc
  }

  /** `elapsed_ms`, with both clock readings in nanoseconds. */
  function ElapsedMs(start: nat, now: nat): nat {
    if now > start then (now - start) / 1_000_000 else 0
  }

  /** `display_render` */
  function Rendered(window: u32, icmp: nat, ssh: nat, entries: seq<SnapshotPort>, elapsed: nat, now: nat): seq<byte> {
    var page := elapsed / 1000 % 3 + 1;
    Encoded(page, if page == 1 then icmp else if page == 2 then ssh else Pass(entries, now, window).maximum)
  }

  function EntriesOf(heap: seq<Snap>, o: Option<nat>): seq<SnapshotPort> {
    if o.Some? && o.value < |heap| then heap[o.value].entries else []
  }

  /** The worker's start-up: opens the device, shows the first page, reports under the mutex. */
  function StartUpNext(s: State, ok: bool): Option<State> {
    var m, w, e := s.m, s.w, s.e;
    match w.pc
    case WOpen => Some(s.(w := w.(pc := if ok then WFirstWrite else WInitLock, ready := ok, previous := Encoded(1, 0))))
    case WFirstWrite =>
      Some(s.(w := w.(pc := WInitLock, ready := ok, start := e.nanos),
              e := e.(shown := if ok then Some(w.previous) else None)))
    case WInitLock =>
      if m.mutex.None? then Some(s.(m := m.(mutex := Some(Worker)), w := w.(pc := WInitAvailable))) else None
    case WInitAvailable => Some(s.(m := m.(available := w.ready), w := w.(pc := WInitialized)))
    case WInitialized => Some(s.(m := m.(initialized := true), w := w.(pc := WInitSignal)))
    case WInitSignal => Some(s.(p := s.p.(pc := Woken(s.p.pc)), w := w.(pc := WInitUnlock)))
    case WInitUnlock =>
      Some(s.(m := m.(mutex := None), w := w.(pc := if w.ready then WRunning else WUnavailable)))
    case _ => None
  }

  /** One iteration of the worker's loop, atomic operation by atomic operation. */
  function IterationNext(s: State, ok: bool): Option<State> {
    var m, w, e := s.m, s.w, s.e;
    match w.pc
    case WRunning => Some(s.(w := w.(pc := if m.running then WFailed else WUnavailable)))
    case WFailed => Some(s.(w := w.(pc := if m.snapshotFailed then WUnavailable else WExchange)))
    case WExchange =>
      Some(s.(m := m.(pending := None), w := w.(latest := m.pending, pc := if m.pending.Some? then WAdopt else WWall)))
    case WAdopt =>
      Some(s.(w := w.(active := w.latest, latest := None, pc := WWall), e := e.(frees := Freed(e.frees, w.active))))
    case WWall => Some(s.(w := if ok then w.(wall := e.clock, pc := WMono) else w.(pc := WUnavailable)))
    case WMono => Some(s.(w := if ok then w.(mono := e.nanos, pc := WIcmp) else w.(pc := WUnavailable)))
    case WIcmp => Some(s.(w := w.(icmp := m.icmp, pc := WSsh)))
    case WSsh => Some(s.(w := w.(ssh := m.ssh, pc := WRender)))
    case WRender =>
      var segments := Rendered(s.window, w.icmp, w.ssh, EntriesOf(e.heap, w.active),
                               ElapsedMs(w.start, w.mono), w.wall);
      Some(s.(w := w.(segments := segments, pc := if segments == w.previous then WSleep else WWrite)))
    case WWrite =>
      if ok then Some(s.(w := w.(previous := w.segments, pc := WSleep), e := e.(shown := Some(w.segments))))
      else Some(s.(w := w.(pc := WUnavailable), e := e.(shown := None)))
    case WSleep => Some(s.(w := w.(pc := if ok then WRunning else WUnavailable)))
    case _ => None
  }

  /** The worker after its loop. */
  function EndNext(s: State, ok: bool): Option<State> {
    var m, w, e := s.m, s.w, s.e;
    match w.pc
    case WUnavailable => Some(s.(m := m.(available := false), w := w.(pc := WFree)))
    case WFree => Some(s.(w := w.(active := None, pc := WClose), e := e.(frees := Freed(e.frees, w.active))))
    case WClose => Some(s.(w := w.(pc := WDone), e := e.(shown := None)))
    case _ => None
  }

  predicate StartingUp(pc: WorkerPc) {
    || pc.WOpen? || pc.WFirstWrite? || pc.WInitLock? || pc.WInitAvailable?
    || pc.WInitialized? || pc.WInitSignal? || pc.WInitUnlock?
  }

  predicate Ending(pc: WorkerPc) {
    pc.WUnavailable? || pc.WFree? || pc.WClose? || pc.WDone?
  }

  function WorkerNext(s: State, ok: bool): Option<State> {
    if StartingUp(s.w.pc) then StartUpNext(s, ok) else if Ending(s.w.pc) then EndNext(s, ok) else IterationNext(s, ok)
  }

  function CounterValue(m: Shared, c: Counter): nat {
    if c.Icmp? then m.icmp else m.ssh
  }

  /** The end of `start_controller`: waits until the worker has reported. */
  function StartNext(s: State): Option<State> {
    var m, p := s.m, s.p;
    match p.pc
    case MLock => if m.mutex.None? then Some(s.(m := m.(mutex := Some(Producer)), p := p.(pc := MTest))) else None
    case MTest =>
      if m.initialized then Some(s.(p := p.(pc := MUnlock)))
      else Some(s.(m := m.(mutex := None), p := p.(pc := MWaiting(false))))
    case MWaiting(woken) =>
      if woken && m.mutex.None? then Some(s.(m := m.(mutex := Some(Producer)), p := p.(pc := MTest))) else None
    case MUnlock => Some(s.(m := m.(mutex := None), p := p.(pc := PIdle)))
    case _ => None
  }

  /** `display_controller_record_event`, for an event that moves a counter. */
  function RecordNext(s: State): Option<State> {
    var m, p, e := s.m, s.p, s.e;
    match p.pc
    case RAvailable(c) => Some(s.(p := p.(pc := if m.available then RFailed(c) else PIdle)))
    case RFailed(c) =>
      if m.snapshotFailed then Some(s.(p := p.(pc := PIdle)))
      else Some(s.(p := p.(pc := RLoad(c)),
                   e := if c.Icmp? then e.(icmpEvents := e.icmpEvents + 1) else e.(sshEvents := e.sshEvents + 1)))
    case RLoad(c) =>
      var value := CounterValue(m, c);
      Some(s.(p := p.(pc := if value != U64_MAX then RStore(c, value) else PIdle)))
    case RStore(c, value) =>
      Some(s.(m := if c.Icmp? then m.(icmp := value + 1) else m.(ssh := value + 1), p := p.(pc := PIdle)))
    case _ => None
  }

  /** `display_controller_publish_scan` */
  function PublishNext(s: State, memory: bool): Option<State> {
    var m, p, e := s.m, s.p, s.e;
    match p.pc
    case PAvailable => Some(s.(p := p.(pc := if m.available then PFailed else PIdle)))
    case PFailed => Some(s.(p := p.(pc := if m.snapshotFailed then PIdle else PCheck)))
    case PCheck =>
      if |p.history| == p.published then Some(s.(p := p.(pc := PIdle)))
      else if !memory then Some(s.(p := p.(pc := PMarkFailed)))
      else
        var snap := Snap(|p.history|, Flattened(TableAfter(p.history, s.window, s.threshold)));
        Some(s.(p := p.(pc := PRevision(|e.heap|)), e := e.(heap := e.heap + [snap])))
    case PMarkFailed => Some(s.(m := m.(snapshotFailed := true), p := p.(pc := PIdle)))
    case PRevision(id) => Some(s.(p := p.(published := |p.history|, pc := PExchange(id))))
    case PExchange(id) => Some(s.(m := m.(pending := Some(id)), p := p.(pc := PFree(m.pending))))
    case PFree(gone) => Some(s.(p := p.(pc := PIdle), e := e.(frees := Freed(e.frees, gone))))
    case _ => None
  }

  /** `display_controller_destroy` */
  function DestroyNext(s: State): Option<State> {
    var m, p, e := s.m, s.p, s.e;
    match p.pc
    case DStop => Some(s.(m := m.(running := false), p := p.(pc := DJoin)))
    case DJoin => if s.w.pc.WDone? then Some(s.(p := p.(pc := DExchange))) else None
    case DExchange => Some(s.(m := m.(pending := None), p := p.(pc := DFree(m.pending))))
    case DFree(gone) => Some(s.(p := p.(pc := DDone), e := e.(frees := Freed(e.frees, gone))))
    case _ => None
  }

  predicate InStart(pc: ProducerPc) {
    pc.MLock? || pc.MTest? || pc.MWaiting? || pc.MUnlock?
  }

  predicate InRecord(pc: ProducerPc) {
    pc.RAvailable? || pc.RFailed? || pc.RLoad? || pc.RStore?
  }

  predicate InPublish(pc: ProducerPc) {
    pc.PAvailable? || pc.PFailed? || pc.PCheck? || pc.PMarkFailed? || pc.PRevision? || pc.PExchange? || pc.PFree?
  }

  function ProducerNext(s: State, memory: bool): Option<State> {
    if InStart(s.p.pc) then StartNext(s)
    else if InRecord(s.p.pc) then RecordNext(s)
    else if InPublish(s.p.pc) then PublishNext(s, memory)
    else DestroyNext(s)
  }

  /** What the capture thread starts next; the detector stamps a SYN with the clock. */
  function CallNext(s: State, step: Step): Option<State>
    requires step.Observe? || step.Record? || step.Publish? || step.Destroy?
  {
    if !s.p.pc.PIdle? then None
    else match step
      case Observe(src, port) => Some(s.(p := s.p.(history := s.p.history + [Syn(src, port, s.e.clock)])))
      case Record(c) => Some(s.(p := s.p.(pc := RAvailable(c))))
      case Publish => Some(s.(p := s.p.(pc := PAvailable)))
      case Destroy => Some(s.(p := s.p.(pc := DStop)))
  }

  /** The state after a step, or None when the step cannot be taken. */
  function Next(s: State, step: Step): Option<State> {
    match step
    case ProducerStep(memory) => ProducerNext(s, memory)
    case WorkerStep(ok) => WorkerNext(s, ok)
    case SpuriousWake => if s.p.pc.MWaiting? then Some(s.(p := s.p.(pc := MWaiting(true)))) else None
    case Tick(seconds, nanos) =>
      if s.e.clock + seconds < U32_LIMIT
      then Some(s.(e := s.e.(clock := s.e.clock + seconds, nanos := s.e.nanos + nanos))) else None
    case _ => CallNext(s, step)
  }
}

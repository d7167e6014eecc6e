/** The capture thread and the LED worker sharing the ring under one mutex and one condition. */
module LedProtocol {
  import opened NetTypes
  import opened LedActions
  import opened LedQueue

  datatype Thread = Producer | Worker

  /** Where the worker stands: before its first lock, at the loop test, at the wait-loop test,
      waiting (with a wake-up pending or not), playing, before the next lock, past the loop. */
  datatype WorkerPc = WStart | WLoop | WTest | WWaiting(woken: bool) | WPlaying(action: LedAction)
                    | WRelock | WLeave | WDone

  /** Where the capture thread stands, call by call. */
  datatype ProducerPc =
    | PIdle
    | PLock(action: LedAction) | PPush(action: LedAction) | PSignal | PUnlock
    | PStopLock | PStop | PStopSignal | PStopUnlock | PJoin | PDestroyed

  datatype State = State(
    ring: Ring, running: bool, mutex: Option<Thread>, worker: WorkerPc, producer: ProducerPc,
    offered: nat, lost: nat, accepted: seq<LedAction>, played: seq<LedAction>)

  datatype Step =
    | Call(action: LedAction) | Destroy
    | ProducerStep
    | WorkerStep
    | SpuriousWake

  function Initial(): State {
    State(EmptyFields(), true, None, WStart, PIdle, 0, 0, [], [])
  }

  /** `pthread_cond_signal`: wakes the worker if it waits, and is forgotten otherwise. */
  function Signalled(w: WorkerPc): WorkerPc {
    if w.WWaiting? then WWaiting(true) else w
  }

  function ProducerNext(s: State): Option<State>
  {
    match s.producer
    case PIdle => None
    case PLock(a) => if s.mutex.None? then Some(s.(mutex := Some(Producer), producer := PPush(a))) else None
    case PPush(a) =>
      if s.ring.count < CAPACITY
      then Some(s.(ring := Pushed(s.ring, a), accepted := s.accepted + [a], producer := PSignal))
      else Some(s.(lost := s.lost + 1, producer := PUnlock))
    case PSignal => Some(s.(worker := Signalled(s.worker), producer := PUnlock))
    case PUnlock => Some(s.(mutex := None, producer := PIdle))
    case PStopLock => if s.mutex.None? then Some(s.(mutex := Some(Producer), producer := PStop)) else None
    case PStop => Some(s.(running := false, producer := PStopSignal))
    case PStopSignal => Some(s.(worker := Signalled(s.worker), producer := PStopUnlock))
    case PStopUnlock => Some(s.(mutex := None, producer := PJoin))
    case PJoin => if s.worker.WDone? then Some(s.(producer := PDestroyed)) else None
    case PDestroyed => None
  }

  function WorkerNext(s: State): Option<State>
  {
    match s.worker
    case WStart => if s.mutex.None? then Some(s.(mutex := Some(Worker), worker := WLoop)) else None
    case WLoop => Some(s.(worker := if s.running then WTest else WLeave))
    case WTest =>
      if s.ring.count == 0 && s.running then Some(s.(mutex := None, worker := WWaiting(false)))
      else if s.ring.count == 0 then Some(s.(worker := WLoop))
      else Some(s.(ring := Popped(s.ring), mutex := None, worker := WPlaying(s.ring.queue[s.ring.head])))
    case WWaiting(woken) => if woken && s.mutex.None? then Some(s.(mutex := Some(Worker), worker := WTest)) else None
    case WPlaying(a) => Some(s.(played := s.played + [a], worker := WRelock))
    case WRelock => if s.mutex.None? then Some(s.(mutex := Some(Worker), worker := WLoop)) else None
    case WLeave => Some(s.(mutex := None, worker := WDone))
    case WDone => None
  }

  /** The state after a step, or None when the step cannot be taken. */
  function Next(s: State, step: Step): Option<State>
  {
    match step
    case Call(a) =>
      if s.producer.PIdle? && a != LedNone then Some(s.(offered := s.offered + 1, producer := PLock(a))) else None
    case Destroy => if s.producer.PIdle? then Some(s.(producer := PStopLock)) else None
    case ProducerStep => ProducerNext(s)
    case WorkerStep => WorkerNext(s)
    case SpuriousWake => if s.worker.WWaiting? then Some(s.(worker := WWaiting(true))) else None
  }

  // ----- What every step keeps -----

  function InHand(w: WorkerPc): seq<LedAction> {
    if w.WPlaying? then [w.action] else []
  }

  predicate WorkerHolds(w: WorkerPc) {
    w.WLoop? || w.WTest? || w.WLeave?
  }

  predicate ProducerHolds(p: ProducerPc) {
    p.PPush? || p.PSignal? || p.PUnlock? || p.PStop? || p.PStopSignal? || p.PStopUnlock?
  }

  /** A call that was counted but has not yet been accepted or dropped. */
  predicate Undecided(p: ProducerPc) {
    p.PLock? || p.PPush?
  }

  predicate StopRequested(p: ProducerPc) {
    p.PStopSignal? || p.PStopUnlock? || p.PJoin? || p.PDestroyed?
  }

  predicate Inv(s: State) {
    // one holder at a time
    && (s.mutex == Some(Worker) <==> WorkerHolds(s.worker))
    && (s.mutex == Some(Producer) <==> ProducerHolds(s.producer))
    // first in, first out, nothing duplicated
    && s.accepted == s.played + InHand(s.worker) + Contents(s.ring)
    && s.offered == |s.accepted| + s.lost + (if Undecided(s.producer) then 1 else 0)
    // no lost wake-up
    && (s.worker == WWaiting(false) ==>
          (s.ring.count == 0 && s.running) || s.producer.PSignal? || s.producer.PStopSignal?)
    && (!s.running <==> StopRequested(s.producer))
    && (s.worker.WLeave? || s.worker.WDone? ==> !s.running)
    && (s.producer.PDestroyed? ==> s.worker.WDone?)
  }

  lemma InitialInv()
    ensures Inv(Initial())
  {
    assert Contents(EmptyFields()) == [];
  }

  lemma ProducerKeepsInv(s: State)
    requires Inv(s) && ProducerNext(s).Some?
    ensures Inv(ProducerNext(s).value)
  {
    if s.producer.PPush? {
      PushAppends(s.ring, s.producer.action);
      assert s.played + InHand(s.worker) + (Contents(s.ring) + [s.producer.action])
          == s.played + InHand(s.worker) + Contents(s.ring) + [s.producer.action];
    }
  }

  lemma WorkerKeepsInv(s: State)
    requires Inv(s) && WorkerNext(s).Some?
    ensures Inv(WorkerNext(s).value)
  {
    hide Contents;
    if s.worker.WTest? && s.ring.count > 0 {
      PopTakesOldest(s.ring);
    }
  }

  lemma StepKeepsInv(s: State, step: Step)
    requires Inv(s) && Next(s, step).Some?
    ensures Inv(Next(s, step).value)
  {
    match step
    case ProducerStep => ProducerKeepsInv(s);
    case WorkerStep => WorkerKeepsInv(s);
    case Call(_) =>
    case Destroy =>
    case SpuriousWake =>
  }

  /** The state after a schedule, or None when some step of it could not be taken. */
  function After(schedule: seq<Step>): Option<State> {
    if schedule == [] then Some(Initial())
    else
      var n := |schedule| - 1;
      var before := After(schedule[..n]);
      if before.None? then None else Next(before.value, schedule[n])
  }

  lemma {:induction false} EverySchedule(schedule: seq<Step>)
    requires After(schedule).Some?
    ensures Inv(After(schedule).value)
  {
    if schedule == [] {
      InitialInv();
    } else {
      var n := |schedule| - 1;
      EverySchedule(schedule[..n]);
      StepKeepsInv(After(schedule[..n]).value, schedule[n]);
    }
  }

  /** Under every schedule the accepted actions are those played, then the one in the worker's
      hands, then those queued, in order; and every call not accepted met a full queue. */
  lemma ActionsArePlayedInOrder(schedule: seq<Step>)
    requires After(schedule).Some?
    ensures var s := After(schedule).value;
            && s.accepted == s.played + InHand(s.worker) + Contents(s.ring)
            && s.ring.tail == (s.ring.head + s.ring.count) % 32
            && s.offered == |s.accepted| + s.lost + (if Undecided(s.producer) then 1 else 0)
  {
    hide After, Contents;
    EverySchedule(schedule);
  }

  lemma OnlyFullQueueLoses(schedule: seq<Step>, step: Step)
    requires After(schedule).Some? && Next(After(schedule).value, step).Some?
    requires Next(After(schedule).value, step).value.lost != After(schedule).value.lost
    ensures |Contents(After(schedule).value.ring)| == 32
  {
    EverySchedule(schedule);
  }

  /** Under every schedule, whenever nobody holds the mutex, a worker that waits without a
      wake-up pending has nothing to play and was not asked to stop. */
  lemma NoLostWakeup(schedule: seq<Step>)
    requires After(schedule).Some?
    ensures var s := After(schedule).value;
            s.mutex.None? && s.worker == WWaiting(false) ==> Contents(s.ring) == [] && s.running
  {
    EverySchedule(schedule);
  }

  /** Between calls the capture thread may offer any action. */
  lemma OffersAreTaken(s: State, a: LedAction)
    requires s.producer.PIdle? && a != LedNone
    ensures Next(s, Call(a)).Some? && Next(s, Call(a)).value.offered == s.offered + 1
  {
  }

  /** How many steps the worker is away from playing, when something is queued. */
  function ToPlay(w: WorkerPc): nat {
    match w
    case WPlaying(_) => 0
    case WTest => 1
    case WLoop => 2
    case WWaiting(_) => 2
    case _ => 3
  }

  /** While something is queued and the worker is not told to stop, every step of the worker brings
      it nearer to playing, and no other step sets it back or takes anything from the queue. */
  lemma QueuedIsPlayed(schedule: seq<Step>, step: Step)
    requires After(schedule).Some? && Next(After(schedule).value, step).Some?
    requires var s := After(schedule).value; s.running && Contents(s.ring) != [] && !s.worker.WPlaying?
    ensures var s, t := After(schedule).value, Next(After(schedule).value, step).value;
            if step.WorkerStep? then ToPlay(t.worker) < ToPlay(s.worker)
            else ToPlay(t.worker) == ToPlay(s.worker) && Contents(t.ring) != []
  {
    var s := After(schedule).value;
    hide After, Contents;
    EverySchedule(schedule);
    CountIsLength(s.ring);
    CountIsLength(Next(s, step).value.ring);
  }

  lemma CountIsLength(r: Ring)
    ensures |Contents(r)| == r.count
  {
  }

  // ----- Shutdown -----

  /** How many steps the worker is still away from its end once it was asked to stop. */
  function Remaining(s: State): nat {
    match s.worker
    case WDone => 0
    case WLeave => 1
    case WLoop => 2
    case WStart => 3
    case WRelock => 3
    case WPlaying(_) => 4
    case WTest => 5
    case WWaiting(_) => 6
  }

  /** While destroy waits to join, the worker can always move and every move brings it nearer to
      its end, so destroy returns. */
  lemma DestroyReturns(schedule: seq<Step>)
    requires After(schedule).Some? && After(schedule).value.producer.PJoin?
    ensures var s := After(schedule).value;
            if s.worker.WDone? then ProducerNext(s).Some?
            else && WorkerNext(s).Some? && WorkerNext(s).value.producer.PJoin?
                 && Remaining(WorkerNext(s).value) < Remaining(s)
  {
    EverySchedule(schedule);
  }

  /** Before that, whenever neither thread can move on its own, the capture thread is between
      calls and the worker is idle with an empty queue. */
  lemma NeverStuck(schedule: seq<Step>)
    requires After(schedule).Some?
    ensures var s := After(schedule).value;
            ProducerNext(s).None? && WorkerNext(s).None? ==>
              s.producer.PDestroyed? || (s.producer.PIdle? && s.worker == WWaiting(false) && Contents(s.ring) == [])
  {
    EverySchedule(schedule);
    var s := After(schedule).value;
    assert s.mutex.Some? ==> s.mutex.value == Worker || s.mutex.value == Producer;
  }
}

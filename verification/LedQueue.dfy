/** The LED controller's ring of 32 actions. */
module LedQueue {
  import opened NetTypes
  import opened LedActions

  const CAPACITY: nat := 32

  datatype Fields = Fields(queue: seq<LedAction>, head: nat, tail: nat, count: nat)

  predicate RingValid(r: Fields) {
    && |r.queue| == CAPACITY
    && r.head < CAPACITY && r.count <= CAPACITY
    && r.tail == (r.head + r.count) % CAPACITY
  }

  function EmptyFields(): Fields {
    Fields(seq(CAPACITY, _ => LedNone), 0, 0, 0)
  }

  type Ring = r: Fields | RingValid(r) witness EmptyFields()

  function Slot(head: nat, i: nat): nat {
    (head + i) % CAPACITY
  }

  /** The queued actions, oldest first. */
  function Contents(r: Ring): seq<LedAction>
  {
    seq(r.count, i requires 0 <= i < r.count => r.queue[Slot(r.head, i)])
  }

  function Pushed(r: Ring, action: LedAction): Ring
  {
    if r.count < CAPACITY
    then Fields(r.queue[r.tail := action], r.head, (r.tail + 1) % CAPACITY, r.count + 1)
    else r
  }

  function Popped(r: Ring): Ring
    requires r.count > 0
  {
    r.(head := (r.head + 1) % CAPACITY, count := r.count - 1)
  }

  /** The ring is a sequence of at most 32 actions: a push appends, or is dropped when full. */
  lemma PushAppends(r: Ring, action: LedAction)
    ensures Contents(Pushed(r, action)) == if |Contents(r)| < 32 then Contents(r) + [action] else Contents(r)
  {
    if r.count < CAPACITY {
      var p := Pushed(r, action);
      forall i: nat | i < r.count ensures Slot(r.head, i) != r.tail {
        Slots(r.head, i, r.count);
      }
      assert Contents(p) == Contents(r) + [action];
    }
  }

  /** Fewer than 32 places apart are different slots. */
  lemma Slots(head: nat, i: nat, j: nat)
    requires head < CAPACITY && i < j < CAPACITY
    ensures Slot(head, i) != Slot(head, j)
  {
  }

  lemma NextSlot(head: nat, i: nat)
    requires head < CAPACITY
    ensures Slot((head + 1) % CAPACITY, i) == Slot(head, i + 1)
    ensures Slot(head, 0) == head
  {
  }

  lemma PopTakesOldest(r: Ring)
    requires r.count > 0
    ensures Contents(r) == [r.queue[r.head]] + Contents(Popped(r))
  {
    hide Slot;
    var p := Popped(r);
    NextSlot(r.head, 0);
    forall i: nat | i < p.count ensures Contents(p)[i] == Contents(r)[i + 1] {
      NextSlot(r.head, i);
    }
  }

  class Queue {
    const queue: array<LedAction>
    var head: nat
    var tail: nat
    var count: nat
    var running: bool

    ghost predicate Valid()
      reads this, queue
    {
      RingValid(Fields(queue[..], head, tail, count))
    }

    ghost function View(): Ring
      requires Valid()
      reads this, queue
    {
      Fields(queue[..], head, tail, count)
    }

    constructor ()
      ensures Valid() && Contents(View()) == [] && running && fresh(queue)
    {
      queue := new LedAction[32](_ => LedNone);
      head, tail, count, running := 0, 0, 0, true;
    }

    /** The body of `led_controller_enqueue` under the mutex; `accepted` is false when full. */
    method Enqueue(action: LedAction) returns (accepted: bool)
      requires Valid()
      modifies this`tail, this`count, queue
      ensures Valid()
      ensures View() == Pushed(old(View()), action)
      ensures accepted <==> |old(Contents(View()))| < 32
      ensures Contents(View()) == old(Contents(View())) + if accepted then [action] else []
    {
      PushAppends(View(), action);
      accepted := count < queue.Length;
      if accepted {
        queue[tail] := action;
        tail := (tail + 1) % queue.Length;
        count := count + 1;
      }
      assert View() == Pushed(old(View()), action);
    }

    /** `queue_pop` past its wait loop. */
    method Pop() returns (action: Option<LedAction>)
      requires Valid()
      modifies this`head, this`count
      ensures Valid()
      ensures if old(Contents(View())) == [] then action == None && View() == old(View())
              else action == Some(old(Contents(View()))[0]) && View() == Popped(old(View()))
                   && Contents(View()) == old(Contents(View()))[1..]
    {
      if count == 0 {
        return None;
      }
      PopTakesOldest(View());
      action := Some(queue[head]);
      head := (head + 1) % queue.Length;
      count := count - 1;
      assert View() == Popped(old(View()));
    }
  }
}

/** The bounded event queue of the application, a FIFO over a ring of 16 slots. */
module Events {
  import opened Options
  import opened Words

  datatype EventType =
    | NoEvent | ButtonS1 | ButtonS2 | ButtonS3 | ButtonS4 | TemperatureReady | Tick100ms | DisplayTimeout | Any

  datatype Event = Event(kind: EventType, value: int32)

  predicate IsButton(kind: EventType) { kind == ButtonS1 || kind == ButtonS2 || kind == ButtonS3 || kind == ButtonS4 }

  const MAX_EVENTS: nat := 16

  /** The slot of element `i` of a queue that starts at slot `start`. */
  function Slot(start: nat, i: nat): (k: nat)
    ensures k < MAX_EVENTS
  {
    (start + i) % MAX_EVENTS
  }

  lemma LemmaSlots(start: nat, i: nat, j: nat)
    requires start < MAX_EVENTS && i < j < MAX_EVENTS
    ensures Slot(start, i) != Slot(start, j)
  {
  }

  lemma LemmaNextSlot(start: nat, i: nat)
    ensures Slot(Slot(start, 1), i) == Slot(start, i + 1)
  {
  }

  lemma LemmaFirstSlot(start: nat)
    requires start < MAX_EVENTS
    ensures Slot(start, 0) == start
  {
  }

  class EventQueue {
    const slots: array<Event>
    var start: nat
    var len: nat

    ghost predicate Valid()
      reads this
    {
      slots.Length == MAX_EVENTS && start < MAX_EVENTS && len <= MAX_EVENTS
    }

    /** The events in the queue, oldest first. */
    ghost function Contents(): (s: seq<Event>)
      requires Valid()
      reads this, slots
      ensures |s| == len
    {
      seq(len, i requires 0 <= i < len reads this, slots requires Valid() => slots[Slot(start, i)])
    }

    constructor ()
      ensures Valid() && fresh(slots) && Contents() == []
    {
      slots := new Event[MAX_EVENTS](_ => Event(NoEvent, 0));
      start, len := 0, 0;
    }

    /** Rejects the event if the queue is full, and otherwise puts it last. */
    method Push(ev: Event) returns (accepted: bool)
      requires Valid()
      modifies this`len, slots
      ensures Valid()
      ensures accepted == (|old(Contents())| < MAX_EVENTS)
      ensures Contents() == if accepted then old(Contents()) + [ev] else old(Contents())
    {
      hide Slot;
      if len == MAX_EVENTS {
        return false;
      }
      ghost var was := Contents();
      slots[Slot(start, len)] := ev;
      len := len + 1;
      forall i | 0 <= i < len - 1 ensures Contents()[i] == was[i] {
        LemmaSlots(start, i, len - 1);
      }
      return true;
    }

    /** Takes the oldest event, if there is one. */
    method Pop() returns (ev: Option<Event>)
      requires Valid()
      modifies this`start, this`len
      ensures Valid()
      ensures old(Contents()) == [] ==> ev == None && Contents() == []
      ensures old(Contents()) != [] ==> ev == Some(old(Contents())[0]) && Contents() == old(Contents())[1..]
    {
      hide Slot;
      if len == 0 {
        return None;
      }
      ghost var was := Contents();
      ev := Some(slots[start]);
      LemmaFirstSlot(start);
      ghost var first := start;
      start := Slot(start, 1);
      len := len - 1;
      forall i | 0 <= i < len ensures Contents()[i] == was[i + 1] {
        LemmaNextSlot(first, i);
      }
    }
  }
}

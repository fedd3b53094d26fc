/**
 * The two cross-core event queues of src/main.c: fixed-size arrays with
 * 8-bit counts, appended to by the USB host core and drained by the main
 * loop. The mutex that guards them is not modelled; each method stands for
 * one whole critical section.
 */
module EventQueue {
  import opened Events
  import BoundedQueue

  class EventQueues {
    /** MAX_QUEUED_EVENTS, the length of both arrays. */
    const capacity: nat
    const kbdQueue: array<KeyboardEvent>
    const mouseQueue: array<MouseEvent>
    var kbdCount: uint8
    var mouseCount: uint8

    ghost predicate Valid()
      reads this
    {
      && 0 < capacity <= 255
      && kbdQueue.Length == capacity
      && mouseQueue.Length == capacity
      && kbdCount as int <= capacity
      && mouseCount as int <= capacity
    }

    /** The keyboard events waiting to be drained, oldest first. */
    ghost function KbdContents(): seq<KeyboardEvent>
      reads this, kbdQueue
      requires Valid()
    {
      kbdQueue[..kbdCount]
    }

    /** The mouse events waiting to be drained, oldest first. */
    ghost function MouseContents(): seq<MouseEvent>
      reads this, mouseQueue
      requires Valid()
    {
      mouseQueue[..mouseCount]
    }

    /** The zero-initialised globals: both queues empty. */
    constructor (capacity: nat)
      requires 0 < capacity <= 255
      ensures Valid() && this.capacity == capacity
      ensures fresh(kbdQueue) && fresh(mouseQueue)
      ensures KbdContents() == [] && MouseContents() == []
    {
      this.capacity := capacity;
      kbdQueue := new KeyboardEvent[capacity];
      mouseQueue := new MouseEvent[capacity];
      kbdCount := 0;
      mouseCount := 0;
    }

    /** enqueue_kbd_event: store at index count and bump it, or drop the event when full. */
    method EnqueueKbd(event: KeyboardEvent)
      requires Valid()
      modifies this`kbdCount, kbdQueue
      ensures Valid()
      ensures KbdContents() == BoundedQueue.Enqueue(old(KbdContents()), capacity, event)
      ensures old(kbdCount) as int < capacity ==>
                kbdCount == old(kbdCount) + 1 && kbdQueue[old(kbdCount)] == event
      ensures capacity <= old(kbdCount) as int ==> kbdCount == old(kbdCount)
      ensures forall i :: 0 <= i < kbdQueue.Length && i != old(kbdCount) as int ==>
                kbdQueue[i] == old(kbdQueue[i])
      ensures mouseCount == old(mouseCount) && MouseContents() == old(MouseContents())
    {
      if (kbdCount as int) < capacity {
        kbdQueue[kbdCount] := event;
        kbdCount := kbdCount + 1;
      }
    }

    /** enqueue_mouse_event: store at index count and bump it, or drop the event when full. */
    method EnqueueMouse(event: MouseEvent)
      requires Valid()
      modifies this`mouseCount, mouseQueue
      ensures Valid()
      ensures MouseContents() == BoundedQueue.Enqueue(old(MouseContents()), capacity, event)
      ensures old(mouseCount) as int < capacity ==>
                mouseCount == old(mouseCount) + 1 && mouseQueue[old(mouseCount)] == event
      ensures capacity <= old(mouseCount) as int ==> mouseCount == old(mouseCount)
      ensures forall i :: 0 <= i < mouseQueue.Length && i != old(mouseCount) as int ==>
                mouseQueue[i] == old(mouseQueue[i])
      ensures kbdCount == old(kbdCount) && KbdContents() == old(KbdContents())
    {
      if (mouseCount as int) < capacity {
        mouseQueue[mouseCount] := event;
        mouseCount := mouseCount + 1;
      }
    }

    /**
     * get_queued_kbd_events: copy the queued events into the caller's buffer,
     * report how many there were, and empty the queue.
     */
    method GetQueuedKbdEvents(events: array<KeyboardEvent>) returns (count: nat)
      requires Valid()
      requires kbdCount as int <= events.Length
      requires events != kbdQueue
      modifies this`kbdCount, events
      ensures Valid()
      ensures count == old(kbdCount) as int
      ensures events[..count] == old(KbdContents())
      ensures events[count..] == old(events[count..])
      ensures kbdCount == 0 && KbdContents() == []
      ensures mouseCount == old(mouseCount) && MouseContents() == old(MouseContents())
    {
      count := kbdCount as int;
      for i := 0 to count
        invariant events[..i] == kbdQueue[..i]
        invariant events[i..] == old(events[i..])
      {
        events[i] := kbdQueue[i];
        assert events[i + 1..] == old(events[i + 1..]) by {
          assert events[i + 1..] == events[i..][1..];
          assert old(events[i + 1..]) == old(events[i..])[1..];
        }
      }
      kbdCount := 0;
    }

    /**
     * get_queued_mouse_events: copy the queued events into the caller's buffer,
     * report how many there were, and empty the queue.
     */
    method GetQueuedMouseEvents(events: array<MouseEvent>) returns (count: nat)
      requires Valid()
      requires mouseCount as int <= events.Length
      requires events != mouseQueue
      modifies this`mouseCount, events
      ensures Valid()
      ensures count == old(mouseCount) as int
      ensures events[..count] == old(MouseContents())
      ensures events[count..] == old(events[count..])
      ensures mouseCount == 0 && MouseContents() == []
      ensures kbdCount == old(kbdCount) && KbdContents() == old(KbdContents())
    {
      count := mouseCount as int;
      for i := 0 to count
        invariant events[..i] == mouseQueue[..i]
        invariant events[i..] == old(events[i..])
      {
        events[i] := mouseQueue[i];
        assert events[i + 1..] == old(events[i + 1..]) by {
          assert events[i + 1..] == events[i..][1..];
          assert old(events[i + 1..]) == old(events[i..])[1..];
        }
      }
      mouseCount := 0;
    }
  }

  /**
   * The USB host core handing over a batch of reports: enqueue_kbd_event
   * once per key, in order, then enqueue_mouse_event once per mouse report.
   */
  method OfferAll(queues: EventQueues, keys: seq<KeyboardEvent>, moves: seq<MouseEvent>)
    requires queues.Valid()
    modifies queues`kbdCount, queues`mouseCount, queues.kbdQueue, queues.mouseQueue
    ensures queues.Valid()
    ensures queues.KbdContents() == BoundedQueue.EnqueueAll(old(queues.KbdContents()), queues.capacity, keys)
    ensures queues.MouseContents() == BoundedQueue.EnqueueAll(old(queues.MouseContents()), queues.capacity, moves)
  {
    ghost var keys0, moves0 := queues.KbdContents(), queues.MouseContents();
    for i := 0 to |keys|
      invariant queues.Valid()
      invariant queues.KbdContents() == BoundedQueue.EnqueueAll(keys0, queues.capacity, keys[..i])
      invariant queues.MouseContents() == moves0
    {
      BoundedQueue.EnqueueAllSnoc(keys0, queues.capacity, keys[..i], keys[i]);
      assert keys[..i + 1] == keys[..i] + [keys[i]];
      queues.EnqueueKbd(keys[i]);
    }
    assert keys[..|keys|] == keys;
    for i := 0 to |moves|
      invariant queues.Valid()
      invariant queues.KbdContents() == BoundedQueue.EnqueueAll(keys0, queues.capacity, keys)
      invariant queues.MouseContents() == BoundedQueue.EnqueueAll(moves0, queues.capacity, moves[..i])
    {
      BoundedQueue.EnqueueAllSnoc(moves0, queues.capacity, moves[..i], moves[i]);
      assert moves[..i + 1] == moves[..i] + [moves[i]];
      queues.EnqueueMouse(moves[i]);
    }
    assert moves[..|moves|] == moves;
  }

  /**
   * The producer offers `keys` and `moves` to freshly initialised queues,
   * then the consumer drains both queues twice with nothing enqueued in
   * between: the first drains return the earliest events that fitted, in
   * order, and the second drains return nothing.
   */
  method DrainAfterEnqueues(capacity: nat, keys: seq<KeyboardEvent>, moves: seq<MouseEvent>)
    returns (keysOut: seq<KeyboardEvent>, movesOut: seq<MouseEvent>,
             keysAgain: seq<KeyboardEvent>, movesAgain: seq<MouseEvent>)
    requires 0 < capacity <= 255
    ensures keysOut == keys[..BoundedQueue.Min(|keys|, capacity)]
    ensures movesOut == moves[..BoundedQueue.Min(|moves|, capacity)]
    ensures keysAgain == [] && movesAgain == []
  {
    var queues := new EventQueues(capacity);
    OfferAll(queues, keys, moves);
    BoundedQueue.EnqueueAllFromEmpty(capacity, keys);
    BoundedQueue.EnqueueAllFromEmpty(capacity, moves);

    var keyBuffer := new KeyboardEvent[capacity];
    var moveBuffer := new MouseEvent[capacity];
    var n := queues.GetQueuedKbdEvents(keyBuffer);
    keysOut := keyBuffer[..n];
    n := queues.GetQueuedMouseEvents(moveBuffer);
    movesOut := moveBuffer[..n];
    n := queues.GetQueuedKbdEvents(keyBuffer);
    keysAgain := keyBuffer[..n];
    n := queues.GetQueuedMouseEvents(moveBuffer);
    movesAgain := moveBuffer[..n];
  }
}

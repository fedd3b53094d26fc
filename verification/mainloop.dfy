/**
 * The consumer side of src/main.c: startup selects and initialises one host
 * backend, and each main-loop iteration drains both queues, forwards what it
 * drained to that backend and ticks it once. Calls into the backend are
 * recorded in `calls` instead of being performed.
 */
module Mainloop {
  import opened Events
  import opened HostRegistry
  import opened Dispatch
  import EventQueue
  import BoundedQueue

  /** The reports the USB host core hands over between two drains. */
  datatype Burst = Burst(keys: seq<KeyboardEvent>, moves: seq<MouseEvent>)

  /** The events of `es` that an empty queue of capacity `cap` takes in: the earliest ones. */
  function Accepted<T>(cap: nat, es: seq<T>): (r: seq<T>)
    ensures |r| <= cap && r <= es
    ensures |es| <= cap ==> r == es
  {
    es[..BoundedQueue.Min(|es|, cap)]
  }

  /** The backend calls of the iterations that follow each burst in turn. */
  function RunTrace(b: Backend, cap: nat, bursts: seq<Burst>): (r: seq<HostCall>)
    decreases |bursts|
  {
    if bursts == [] then []
    else
      var n := |bursts| - 1;
      RunTrace(b, cap, bursts[..n])
        + IterationTrace(b, Accepted(cap, bursts[n].keys), Accepted(cap, bursts[n].moves))
  }

  lemma ConcatAssoc<T>(a: seq<T>, b: seq<T>, c: seq<T>)
    ensures a + b + c == a + (b + c)
  {
  }

  /** What an empty queue holds after a burst is what it accepted. */
  lemma AcceptedFromEmpty(cap: nat, burst: Burst)
    ensures BoundedQueue.EnqueueAll([], cap, burst.keys) == Accepted(cap, burst.keys)
    ensures BoundedQueue.EnqueueAll([], cap, burst.moves) == Accepted(cap, burst.moves)
  {
    BoundedQueue.EnqueueAllFromEmpty(cap, burst.keys);
    BoundedQueue.EnqueueAllFromEmpty(cap, burst.moves);
  }

  /** The trace of the first n + 1 bursts extends that of the first n by pass n. */
  lemma RunTraceStep(b: Backend, cap: nat, bursts: seq<Burst>, n: nat)
    requires n < |bursts|
    ensures RunTrace(b, cap, bursts[..n + 1])
         == RunTrace(b, cap, bursts[..n]) + IterationTrace(b, Accepted(cap, bursts[n].keys), Accepted(cap, bursts[n].moves))
  {
    assert bursts[..n + 1][..n] == bursts[..n];
  }

  /** Every keyboard event the queue takes in over the bursts, in arrival order. */
  function AcceptedKeys(cap: nat, bursts: seq<Burst>): (r: seq<KeyboardEvent>)
    decreases |bursts|
  {
    if bursts == [] then []
    else
      var n := |bursts| - 1;
      AcceptedKeys(cap, bursts[..n]) + Accepted(cap, bursts[n].keys)
  }

  /** Every mouse event the queue takes in over the bursts, in arrival order. */
  function AcceptedMoves(cap: nat, bursts: seq<Burst>): (r: seq<MouseEvent>)
    decreases |bursts|
  {
    if bursts == [] then []
    else
      var n := |bursts| - 1;
      AcceptedMoves(cap, bursts[..n]) + Accepted(cap, bursts[n].moves)
  }

  /**
   * Over a run, the backend receives every accepted keyboard event and every
   * accepted mouse event exactly once and in arrival order, update once per
   * iteration, no init, and nothing addressed to any other backend.
   */
  lemma {:induction false} RunForwardsAccepted(b: Backend, cap: nat, bursts: seq<Burst>)
    ensures KeysForwarded(RunTrace(b, cap, bursts)) == AcceptedKeys(cap, bursts)
    ensures MovesForwarded(RunTrace(b, cap, bursts)) == AcceptedMoves(cap, bursts)
    ensures Updates(RunTrace(b, cap, bursts)) == |bursts|
    ensures forall c :: c in RunTrace(b, cap, bursts) ==> !c.InitCall? && c.backend == b
    decreases |bursts|
  {
    if bursts != [] {
      var n := |bursts| - 1;
      var keys, moves := Accepted(cap, bursts[n].keys), Accepted(cap, bursts[n].moves);
      RunForwardsAccepted(b, cap, bursts[..n]);
      IterationForwardsEachOnce(b, keys, moves);
      IterationOrder(b, keys, moves);
      KeysForwardedAppend(RunTrace(b, cap, bursts[..n]), IterationTrace(b, keys, moves));
      MovesForwardedAppend(RunTrace(b, cap, bursts[..n]), IterationTrace(b, keys, moves));
      UpdatesAppend(RunTrace(b, cap, bursts[..n]), IterationTrace(b, keys, moves));
    }
  }

  /**
   * Over a whole run, the backend at g_current_host_index (Apollo) is
   * initialised once, first, and every later call goes to it: the host is
   * never switched and never re-initialised.
   */
  lemma HostSelectedOnce(cap: nat, bursts: seq<Burst>)
    ensures var t := [InitCall(Hosts[CurrentHostIndex].backend)] + RunTrace(Hosts[CurrentHostIndex].backend, cap, bursts);
            && t[0] == InitCall(Apollo)
            && forall i :: 1 <= i < |t| ==> !t[i].InitCall? && t[i].backend == Apollo
  {
    var b := Hosts[CurrentHostIndex].backend;
    var t := [InitCall(b)] + RunTrace(b, cap, bursts);
    RunForwardsAccepted(b, cap, bursts);
    forall i | 1 <= i < |t|
      ensures !t[i].InitCall? && t[i].backend == Apollo
    {
      assert t[i] == RunTrace(b, cap, bursts)[i - 1];
    }
  }

  class Adapter {
    /** The queue globals shared with the USB host core. */
    const queues: EventQueue.EventQueues
    /** The backend `host` points at. */
    var host: Backend
    /** Every call made on the backend so far, oldest first. */
    var calls: seq<HostCall>

    ghost predicate Valid()
      reads this, queues
    {
      queues.Valid()
    }

    /**
     * Startup: the queue globals start empty, `host` is set to
     * hosts[hostIndex] (hostIndex is g_current_host_index) and that
     * backend's init runs once. The index is not checked at run time: it
     * must pick a backend, not the terminator.
     */
    constructor (capacity: nat, hostIndex: int)
      requires 0 < capacity <= 255
      requires Selectable(Hosts, hostIndex)
      ensures Valid() && queues.capacity == capacity
      ensures fresh(queues) && fresh(queues.kbdQueue) && fresh(queues.mouseQueue)
      ensures queues.KbdContents() == [] && queues.MouseContents() == []
      ensures Host(host) == Hosts[hostIndex]
      ensures calls == [InitCall(host)]
    {
      queues := new EventQueue.EventQueues(capacity);
      var selected := Hosts[hostIndex];
      host := selected.backend;
      calls := [InitCall(selected.backend)];
    }

    /**
     * One pass of the main loop, with its local buffers `kbdEvents` and
     * `mouseEvents`: both queues are drained, the backend receives every
     * drained keyboard event, then every drained mouse event, then one
     * update, and `host` stays the same.
     */
    method Iterate(kbdEvents: array<KeyboardEvent>, mouseEvents: array<MouseEvent>)
      requires Valid()
      requires kbdEvents.Length == queues.capacity && mouseEvents.Length == queues.capacity
      requires kbdEvents != queues.kbdQueue && mouseEvents != queues.mouseQueue
      modifies this`calls, queues`kbdCount, queues`mouseCount, kbdEvents, mouseEvents
      ensures Valid() && host == old(host)
      ensures calls == old(calls) + IterationTrace(host, old(queues.KbdContents()), old(queues.MouseContents()))
      ensures queues.KbdContents() == [] && queues.MouseContents() == []
    {
      ghost var keys, moves := queues.KbdContents(), queues.MouseContents();
      var kbdCount := queues.GetQueuedKbdEvents(kbdEvents);
      var mouseCount := queues.GetQueuedMouseEvents(mouseEvents);
      assert kbdEvents[..kbdCount] == keys && mouseEvents[..mouseCount] == moves;
      ForwardKbdEvents(kbdEvents, kbdCount);
      ForwardMouseEvents(mouseEvents, mouseCount);
      calls := calls + [UpdateCall(host)];
    }

    /** The keyboard loop of a pass: kbd_event on each of the first `count` buffered events, in order. */
    method ForwardKbdEvents(kbdEvents: array<KeyboardEvent>, count: nat)
      requires count <= kbdEvents.Length
      modifies this`calls
      ensures calls == old(calls) + KbdCalls(host, kbdEvents[..count])
    {
      for i := 0 to count
        invariant calls == old(calls) + KbdCalls(host, kbdEvents[..i])
      {
        assert kbdEvents[..i + 1] == kbdEvents[..i] + [kbdEvents[i]];
        KbdCallsSnoc(host, kbdEvents[..i], kbdEvents[i]);
        calls := calls + [KbdCall(host, kbdEvents[i])];
      }
    }

    /** The mouse loop of a pass: mouse_event on each of the first `count` buffered events, in order. */
    method ForwardMouseEvents(mouseEvents: array<MouseEvent>, count: nat)
      requires count <= mouseEvents.Length
      modifies this`calls
      ensures calls == old(calls) + MouseCalls(host, mouseEvents[..count])
    {
      for i := 0 to count
        invariant calls == old(calls) + MouseCalls(host, mouseEvents[..i])
      {
        assert mouseEvents[..i + 1] == mouseEvents[..i] + [mouseEvents[i]];
        MouseCallsSnoc(host, mouseEvents[..i], mouseEvents[i]);
        calls := calls + [MouseCall(host, mouseEvents[i])];
      }
    }

    /**
     * The USB host core hands over `burst` (one enqueue call per report),
     * then one pass of the main loop runs.
     */
    method ServeBurst(burst: Burst, kbdEvents: array<KeyboardEvent>, mouseEvents: array<MouseEvent>)
      requires Valid()
      requires kbdEvents.Length == queues.capacity && mouseEvents.Length == queues.capacity
      requires kbdEvents != queues.kbdQueue && mouseEvents != queues.mouseQueue
      modifies this`calls, queues`kbdCount, queues`mouseCount, queues.kbdQueue, queues.mouseQueue
      modifies kbdEvents, mouseEvents
      ensures Valid() && host == old(host)
      ensures calls == old(calls) + IterationTrace(host,
                BoundedQueue.EnqueueAll(old(queues.KbdContents()), queues.capacity, burst.keys),
                BoundedQueue.EnqueueAll(old(queues.MouseContents()), queues.capacity, burst.moves))
      ensures queues.KbdContents() == [] && queues.MouseContents() == []
    {
      EventQueue.OfferAll(queues, burst.keys, burst.moves);
      Iterate(kbdEvents, mouseEvents);
    }
  }

  /**
   * main followed by `|bursts|` passes of mainloop, the USB host core handing
   * over `bursts[n]` just before pass n drains the queues. The pass buffers
   * are allocated once, as mainloop's locals are.
   */
  method Run(capacity: nat, bursts: seq<Burst>) returns (trace: seq<HostCall>)
    requires 0 < capacity <= 255
    ensures trace == [InitCall(Hosts[CurrentHostIndex].backend)] + RunTrace(Hosts[CurrentHostIndex].backend, capacity, bursts)
  {
    CurrentHostIsRegistered();
    var adapter := new Adapter(capacity, CurrentHostIndex);
    ghost var host := adapter.host;
    var kbdEvents := new KeyboardEvent[capacity];
    var mouseEvents := new MouseEvent[capacity];
    for n := 0 to |bursts|
      invariant adapter.Valid() && adapter.queues.capacity == capacity && adapter.host == host
      invariant fresh(adapter.queues) && fresh(adapter.queues.kbdQueue) && fresh(adapter.queues.mouseQueue)
      invariant kbdEvents != adapter.queues.kbdQueue && mouseEvents != adapter.queues.mouseQueue
      invariant kbdEvents.Length == capacity && mouseEvents.Length == capacity
      invariant adapter.queues.KbdContents() == [] && adapter.queues.MouseContents() == []
      invariant adapter.calls == [InitCall(host)] + RunTrace(host, capacity, bursts[..n])
    {
      ghost var done := RunTrace(host, capacity, bursts[..n]);
      adapter.ServeBurst(bursts[n], kbdEvents, mouseEvents);
      AcceptedFromEmpty(capacity, bursts[n]);
      ghost var pass := IterationTrace(host, Accepted(capacity, bursts[n].keys), Accepted(capacity, bursts[n].moves));
      assert adapter.calls == [InitCall(host)] + done + pass;
      RunTraceStep(host, capacity, bursts, n);
      ConcatAssoc([InitCall(host)], done, pass);
    }
    assert bursts[..|bursts|] == bursts;
    trace := adapter.calls;
  }
}

/**
 * The calls one main-loop iteration makes on the active host backend,
 * recorded as a trace, and what that trace forwards.
 */
module Dispatch {
  import opened Events
  import opened HostRegistry

  /** One call through the active HostDevice's function pointers. */
  datatype HostCall =
    | InitCall(backend: Backend)
    | KbdCall(backend: Backend, key: KeyboardEvent)
    | MouseCall(backend: Backend, move: MouseEvent)
    | UpdateCall(backend: Backend)

  /** One kbd_event call per key, in order. */
  function KbdCalls(b: Backend, keys: seq<KeyboardEvent>): (r: seq<HostCall>)
    ensures |r| == |keys|
  {
    seq(|keys|, i requires 0 <= i < |keys| => KbdCall(b, keys[i]))
  }

  /** One mouse_event call per report, in order. */
  function MouseCalls(b: Backend, moves: seq<MouseEvent>): (r: seq<HostCall>)
    ensures |r| == |moves|
  {
    seq(|moves|, i requires 0 <= i < |moves| => MouseCall(b, moves[i]))
  }

  lemma KbdCallsSnoc(b: Backend, keys: seq<KeyboardEvent>, key: KeyboardEvent)
    ensures KbdCalls(b, keys + [key]) == KbdCalls(b, keys) + [KbdCall(b, key)]
  {
  }

  lemma MouseCallsSnoc(b: Backend, moves: seq<MouseEvent>, move: MouseEvent)
    ensures MouseCalls(b, moves + [move]) == MouseCalls(b, moves) + [MouseCall(b, move)]
  {
  }

  /** The calls of one iteration that drained `keys` and `moves`. */
  function IterationTrace(b: Backend, keys: seq<KeyboardEvent>, moves: seq<MouseEvent>): (r: seq<HostCall>)
    ensures |r| == |keys| + |moves| + 1
  {
    KbdCalls(b, keys) + MouseCalls(b, moves) + [UpdateCall(b)]
  }

  /** The keyboard events a trace hands to a backend, in call order. */
  function KeysForwarded(trace: seq<HostCall>): (keys: seq<KeyboardEvent>)
    ensures |keys| <= |trace|
  {
    if trace == [] then []
    else (if trace[0].KbdCall? then [trace[0].key] else []) + KeysForwarded(trace[1..])
  }

  /** The mouse events a trace hands to a backend, in call order. */
  function MovesForwarded(trace: seq<HostCall>): (moves: seq<MouseEvent>)
    ensures |moves| <= |trace|
  {
    if trace == [] then []
    else (if trace[0].MouseCall? then [trace[0].move] else []) + MovesForwarded(trace[1..])
  }

  /** How many times a trace calls update. */
  function Updates(trace: seq<HostCall>): (n: nat)
    ensures n <= |trace|
  {
    if trace == [] then 0
    else (if trace[0].UpdateCall? then 1 else 0) + Updates(trace[1..])
  }

  lemma {:induction false} KeysForwardedAppend(s: seq<HostCall>, t: seq<HostCall>)
    ensures KeysForwarded(s + t) == KeysForwarded(s) + KeysForwarded(t)
    decreases |s|
  {
    if s == [] {
      assert s + t == t;
    } else {
      assert (s + t)[0] == s[0];
      assert (s + t)[1..] == s[1..] + t;
      KeysForwardedAppend(s[1..], t);
    }
  }

  lemma {:induction false} MovesForwardedAppend(s: seq<HostCall>, t: seq<HostCall>)
    ensures MovesForwarded(s + t) == MovesForwarded(s) + MovesForwarded(t)
    decreases |s|
  {
    if s == [] {
      assert s + t == t;
    } else {
      assert (s + t)[0] == s[0];
      assert (s + t)[1..] == s[1..] + t;
      MovesForwardedAppend(s[1..], t);
    }
  }

  lemma {:induction false} UpdatesAppend(s: seq<HostCall>, t: seq<HostCall>)
    ensures Updates(s + t) == Updates(s) + Updates(t)
    decreases |s|
  {
    if s == [] {
      assert s + t == t;
    } else {
      assert (s + t)[0] == s[0];
      assert (s + t)[1..] == s[1..] + t;
      UpdatesAppend(s[1..], t);
    }
  }

  /** The keyboard calls forward exactly `keys`, no mouse event and no update. */
  lemma {:induction false} KbdCallsForward(b: Backend, keys: seq<KeyboardEvent>)
    ensures KeysForwarded(KbdCalls(b, keys)) == keys
    ensures MovesForwarded(KbdCalls(b, keys)) == []
    ensures Updates(KbdCalls(b, keys)) == 0
    decreases |keys|
  {
    if keys != [] {
      assert KbdCalls(b, keys)[1..] == KbdCalls(b, keys[1..]);
      KbdCallsForward(b, keys[1..]);
    }
  }

  /** The mouse calls forward exactly `moves`, no keyboard event and no update. */
  lemma {:induction false} MouseCallsForward(b: Backend, moves: seq<MouseEvent>)
    ensures MovesForwarded(MouseCalls(b, moves)) == moves
    ensures KeysForwarded(MouseCalls(b, moves)) == []
    ensures Updates(MouseCalls(b, moves)) == 0
    decreases |moves|
  {
    if moves != [] {
      assert MouseCalls(b, moves)[1..] == MouseCalls(b, moves[1..]);
      MouseCallsForward(b, moves[1..]);
    }
  }

  /**
   * One iteration forwards every drained keyboard event once, in FIFO
   * order, and every drained mouse event once, in FIFO order: nothing is
   * skipped, duplicated or reordered; and it calls update exactly once.
   */
  lemma IterationForwardsEachOnce(b: Backend, keys: seq<KeyboardEvent>, moves: seq<MouseEvent>)
    ensures KeysForwarded(IterationTrace(b, keys, moves)) == keys
    ensures MovesForwarded(IterationTrace(b, keys, moves)) == moves
    ensures Updates(IterationTrace(b, keys, moves)) == 1
  {
    var k, m, u := KbdCalls(b, keys), MouseCalls(b, moves), [UpdateCall(b)];
    assert IterationTrace(b, keys, moves) == (k + m) + u;
    KbdCallsForward(b, keys);
    MouseCallsForward(b, moves);
    assert u[1..] == [];
    KeysForwardedAppend(k, m);
    KeysForwardedAppend(k + m, u);
    MovesForwardedAppend(k, m);
    MovesForwardedAppend(k + m, u);
    UpdatesAppend(k, m);
    UpdatesAppend(k + m, u);
  }

  /**
   * The shape of one iteration's calls: the keyboard events first, then the
   * mouse events, then exactly one update, last; every call goes to the
   * same backend and none of them is init.
   */
  lemma IterationOrder(b: Backend, keys: seq<KeyboardEvent>, moves: seq<MouseEvent>)
    ensures |IterationTrace(b, keys, moves)| == |keys| + |moves| + 1
    ensures forall i :: 0 <= i < |keys| ==> IterationTrace(b, keys, moves)[i] == KbdCall(b, keys[i])
    ensures forall i :: 0 <= i < |moves| ==>
              IterationTrace(b, keys, moves)[|keys| + i] == MouseCall(b, moves[i])
    ensures IterationTrace(b, keys, moves)[|keys| + |moves|] == UpdateCall(b)
    ensures forall i, j :: 0 <= i < j < |keys| + |moves| + 1 ==>
              (IterationTrace(b, keys, moves)[i].MouseCall? ==> !IterationTrace(b, keys, moves)[j].KbdCall?)
    ensures forall c :: c in IterationTrace(b, keys, moves) ==> !c.InitCall? && c.backend == b
  {
  }

  /** With nothing queued, an iteration only ticks the backend. */
  lemma IdleIterationOnlyUpdates(b: Backend)
    ensures IterationTrace(b, [], []) == [UpdateCall(b)]
    ensures KeysForwarded(IterationTrace(b, [], [])) == []
    ensures MovesForwarded(IterationTrace(b, [], [])) == []
  {
  }
}

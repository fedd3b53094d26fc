/**
 * The abstract behaviour of one fixed-capacity event queue: a sequence that
 * grows at the end while there is room and ignores new events once full
 * ("drop newest").
 */
module BoundedQueue {

  function Min(a: int, b: int): (m: int)
    ensures m <= a && m <= b && (m == a || m == b)
  {
    if a <= b then a else b
  }

  /** Offer `e` to a queue of capacity `cap` holding `q`. */
  function Enqueue<T>(q: seq<T>, cap: nat, e: T): (r: seq<T>)
    ensures |q| <= cap ==> |r| <= cap
    ensures |q| <= |r| && r[..|q|] == q
    ensures |r| == |q| + 1 <==> |q| < cap
    ensures |q| < cap ==> r[|q|] == e
    ensures cap <= |q| ==> r == q
  {
    if |q| < cap then q + [e] else q
  }

  /** Offer the events `es` one after another, first to last. */
  function EnqueueAll<T>(q: seq<T>, cap: nat, es: seq<T>): (r: seq<T>)
    ensures |q| <= cap ==> |r| <= cap
    decreases |es|
  {
    if es == [] then q else EnqueueAll(Enqueue(q, cap, es[0]), cap, es[1..])
  }

  /** Offering one more event after `es` is offering it to the queue `es` left behind. */
  lemma {:induction false} EnqueueAllSnoc<T>(q: seq<T>, cap: nat, es: seq<T>, e: T)
    ensures EnqueueAll(q, cap, es + [e]) == Enqueue(EnqueueAll(q, cap, es), cap, e)
    decreases |es|
  {
    if es == [] {
      assert es + [e] == [e];
      assert [e][1..] == [];
    } else {
      assert (es + [e])[0] == es[0];
      assert (es + [e])[1..] == es[1..] + [e];
      EnqueueAllSnoc(Enqueue(q, cap, es[0]), cap, es[1..], e);
    }
  }

  /**
   * A queue that respects its capacity keeps the earliest events: what is
   * queued after offering `es` is the first `cap` events of `q + es`.
   */
  lemma {:induction false} EnqueueAllKeepsEarliest<T>(q: seq<T>, cap: nat, es: seq<T>)
    requires |q| <= cap
    ensures EnqueueAll(q, cap, es) == (q + es)[..Min(|q| + |es|, cap)]
    decreases |es|
  {
    if es == [] {
      assert q + es == q;
    } else {
      var q' := Enqueue(q, cap, es[0]);
      EnqueueAllKeepsEarliest(q', cap, es[1..]);
      if |q| < cap {
        assert q' + es[1..] == q + es;
      } else {
        assert (q' + es[1..])[..cap] == q;
        assert (q + es)[..cap] == q;
      }
    }
  }

  /** Starting from an empty queue, n offers keep the first min(n, cap) events in order. */
  lemma EnqueueAllFromEmpty<T>(cap: nat, es: seq<T>)
    ensures EnqueueAll([], cap, es) == es[..Min(|es|, cap)]
    ensures |EnqueueAll([], cap, es)| <= cap
  {
    EnqueueAllKeepsEarliest([], cap, es);
    assert [] + es == es;
  }
}

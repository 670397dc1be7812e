/**
 * The hand-off queues between the pipeline's stages. A queue is the
 * sequence of messages put on it, in order; the end of the stream is a
 * None marker, and a consumer takes messages until it meets that marker.
 */
module Channel {
  import opened Wrappers

  /** Items as messages, in order. */
  function Wrapped<T>(items: seq<T>): (q: seq<Option<T>>)
    ensures |q| == |items|
    ensures forall i :: 0 <= i < |items| ==> q[i] == Some(items[i])
  {
    seq(|items|, i requires 0 <= i < |items| => Some(items[i]))
  }

  /** Putting one more item on a queue. */
  lemma WrappedSnoc<T>(items: seq<T>, x: T)
    ensures Wrapped(items + [x]) == Wrapped(items) + [Some(x)]
  {
  }

  /** What a producer puts on a queue: each item, then the end-of-stream marker. */
  function Frame<T>(items: seq<T>): (q: seq<Option<T>>)
    ensures |q| == |items| + 1
    ensures q[|items|] == None
    ensures forall i :: 0 <= i < |items| ==> q[i] == Some(items[i])
  {
    Wrapped(items) + [None]
  }

  /** What a consumer receives: the messages before the first end-of-stream marker. */
  function Payload<T>(q: seq<Option<T>>): (items: seq<T>)
    ensures |items| <= |q|
  {
    if q == [] then []
    else
      match q[0]
      case None => []
      case Some(x) => [x] + Payload(q[1..])
  }

  /** The queue holds an end-of-stream marker, so a consumer that waits for it stops. */
  predicate Terminated<T>(q: seq<Option<T>>)
  {
    exists i :: 0 <= i < |q| && q[i].None?
  }

  /** Taking one message that is not the marker leaves a queue that is still terminated. */
  lemma TerminatedTail<T>(q: seq<Option<T>>)
    requires Terminated(q) && q[0].Some?
    ensures Terminated(q[1..])
  {
    var i :| 0 <= i < |q| && q[i].None?;
    assert q[1..][i - 1].None?;
  }

  /**
   * A consumer that takes one message that is not the marker: what it has
   * received so far plus what is still to come is unchanged.
   */
  lemma ConsumeOne<T>(received: seq<T>, q: seq<Option<T>>)
    requires |q| > 0 && q[0].Some?
    ensures received + Payload(q) == (received + [q[0].value]) + Payload(q[1..])
  {
    assert Payload(q) == [q[0].value] + Payload(q[1..]);
  }

  /** A framed stream is terminated. */
  lemma FrameTerminated<T>(items: seq<T>)
    ensures Terminated(Frame(items))
  {
    assert Frame(items)[|items|].None?;
  }

  /**
   * Round trip: a consumer of a framed stream receives exactly the items,
   * whatever was put on the queue after the marker.
   */
  lemma {:induction false} PayloadOfFrame<T>(items: seq<T>, rest: seq<Option<T>>)
    ensures Payload(Frame(items) + rest) == items
  {
    var q := Frame(items) + rest;
    if items == [] {
      assert q[0] == None;
    } else {
      assert q[0] == Some(items[0]);
      assert q[1..] == Frame(items[1..]) + rest;
      PayloadOfFrame(items[1..], rest);
      assert [items[0]] + items[1..] == items;
    }
  }
}

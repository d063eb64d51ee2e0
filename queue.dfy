/** Array-backed FIFO queue (src/data-structures/Queue.ts). The private
    `items` array is a sequence field that the methods reassign. */
module Queues {
  import opened Wrappers

  class Queue<T> {
    var items: seq<T>

    constructor ()
      ensures items == []
    {
      items := [];
    }

    /** `push` onto the back of the array. */
    method Enqueue(item: T)
      modifies this
      ensures items == old(items) + [item]
    {
      items := items + [item];
    }

    /** `shift` off the front, or `undefined` when empty. */
    method Dequeue() returns (r: Option<T>)
      modifies this
      ensures old(items) == [] ==> r == None && items == []
      ensures old(items) != [] ==> r == Some(old(items)[0]) && items == old(items)[1..]
    {
      if |items| == 0 {
        return None;
      }
      r := Some(items[0]);
      items := items[1..];
    }

    method Peek() returns (r: Option<T>)
      ensures r.None? <==> items == []
      ensures r.Some? ==> r.value == items[0]
    {
      if |items| == 0 {
        return None;
      }
      r := Some(items[0]);
    }

    method IsEmpty() returns (b: bool)
      ensures b <==> |items| == 0
    {
      b := |items| == 0;
    }

    method Size() returns (n: nat)
      ensures n == |items|
    {
      n := |items|;
    }

    /** A front-to-back copy. */
    method GetAll() returns (s: seq<T>)
      ensures s == items
    {
      s := items;
    }

    method Clear()
      modifies this
      ensures items == []
    {
      items := [];
    }
  }

  /** FIFO law: enqueue e1..en on an empty queue, then dequeue n times; the
      values come out as e1..en and the queue ends empty. */
  method FifoLaw<T>(es: seq<T>) returns (out: seq<T>, left: seq<T>)
    ensures out == es
    ensures left == []
  {
    var q := new Queue<T>();
    var i := 0;
    while i < |es|
      invariant 0 <= i <= |es|
      invariant q.items == es[..i]
    {
      q.Enqueue(es[i]);
      i := i + 1;
    }
    out := [];
    while |out| < |es|
      invariant |out| <= |es|
      invariant out + q.items == es
    {
      var r := q.Dequeue();
      out := out + [r.value];
    }
    left := q.GetAll();
  }

  /** A concrete trace: enqueue o1 and o2, dequeue once; o1 comes out and
      [o2] is left behind. */
  method TwoOrderTrace<T>(o1: T, o2: T) returns (first: Option<T>, rest: seq<T>)
    ensures first == Some(o1) && rest == [o2]
  {
    var q := new Queue<T>();
    q.Enqueue(o1);
    q.Enqueue(o2);
    first := q.Dequeue();
    rest := q.GetAll();
  }
}

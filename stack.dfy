/** Array-backed LIFO stack (src/data-structures/Stack.ts). The top of the
    stack is the last element of `items`. */
module Stacks {
  import opened Wrappers

  class Stack<T> {
    var items: seq<T>

    constructor ()
      ensures items == []
    {
      items := [];
    }

    method Push(item: T)
      modifies this
      ensures items == old(items) + [item]
    {
      items := items + [item];
    }

    /** `pop` off the end of the array, or `undefined` when empty. */
    method Pop() returns (r: Option<T>)
      modifies this
      ensures old(items) == [] ==> r == None && items == []
      ensures old(items) != [] ==> r == Some(old(items)[|old(items)| - 1]) && items == old(items)[..|old(items)| - 1]
    {
      if |items| == 0 {
        return None;
      }
      r := Some(items[|items| - 1]);
      items := items[..|items| - 1];
    }

    method Peek() returns (r: Option<T>)
      ensures r.None? <==> items == []
      ensures r.Some? ==> r.value == items[|items| - 1]
    {
      if |items| == 0 {
        return None;
      }
      r := Some(items[|items| - 1]);
    }

    method IsEmpty() returns (b: bool)
      ensures b <==> |items| == 0
    {
      b := |items| == 0;
    }

    method Size() returns (n: nat)
      ensures n == |items|
    {
      n := |items|;
    }

    /** A bottom-to-top copy. */
    method GetAll() returns (s: seq<T>)
      ensures s == items
    {
      s := items;
    }

    method Clear()
      modifies this
      ensures items == []
    {
      items := [];
    }
  }

  function Reversed<T>(s: seq<T>): (r: seq<T>)
    ensures |r| == |s|
  {
    if s == [] then [] else Reversed(s[1..]) + [s[0]]
  }

  lemma {:induction false} ReversedAt<T>(s: seq<T>, k: nat)
    requires k < |s|
    ensures Reversed(s)[k] == s[|s| - 1 - k]
  {
    if k < |s| - 1 {
      ReversedAt(s[1..], k);
    }
  }

  lemma {:induction false} ReversedSnoc<T>(s: seq<T>, x: T)
    ensures Reversed(s + [x]) == [x] + Reversed(s)
  {
    if s != [] {
      assert (s + [x])[1..] == s[1..] + [x];
      ReversedSnoc(s[1..], x);
    } else {
      assert s + [x] == [x];
    }
  }

  /** LIFO law: push p1..pn, then pop n times; the values come out as
      pn..p1 and the stack ends empty. */
  method LifoLaw<T>(ps: seq<T>) returns (out: seq<T>, left: seq<T>)
    ensures out == Reversed(ps)
    ensures left == []
  {
    var st := new Stack<T>();
    var i := 0;
    while i < |ps|
      invariant 0 <= i <= |ps|
      invariant st.items == ps[..i]
    {
      st.Push(ps[i]);
      i := i + 1;
    }
    assert ps[..|ps|] == ps;
    out := [];
    while |out| < |ps|
      invariant |out| <= |ps|
      invariant out + Reversed(st.items) == Reversed(ps)
    {
      ghost var before := st.items;
      var r := st.Pop();
      ReversedSnoc(st.items, r.value);
      assert before == st.items + [r.value];
      out := out + [r.value];
      assert out + Reversed(st.items) == Reversed(ps);
    }
    left := st.GetAll();
  }
}

/** Doubly-linked list (src/data-structures/DoublyLinkedList.ts), built on
    the shared `Node`. `Valid()` ties both link directions to the ghost node
    sequence, so that traversal agrees forwards and backwards. */
module DoublyLinkedLists {
  import opened Sequences
  import opened LinkedLists

  class DoublyLinkedList<T(==)> {
    var head: Node?<T>
    var tail: Node?<T>
    var size: int

    ghost var Contents: seq<T>
    ghost var Nodes: seq<Node<T>>
    ghost var Repr: set<object>

    /** Forward links spell out `Nodes`, backward links mirror them,
        `head.prev` and `tail.next` are null, and `size` counts the nodes. */
    ghost predicate Valid()
      reads this, Repr
    {
      && this in Repr
      && (forall i :: 0 <= i < |Nodes| ==> Nodes[i] in Repr)
      && |Nodes| == |Contents| == size
      && (forall i, j :: 0 <= i < j < |Nodes| ==> Nodes[i] != Nodes[j])
      && (forall i :: 0 <= i < |Nodes| ==> Nodes[i].value == Contents[i])
      && (forall i :: 0 <= i < |Nodes| - 1 ==> Nodes[i].next == Nodes[i + 1])
      && (forall i :: 0 < i < |Nodes| ==> Nodes[i].prev == Nodes[i - 1])
      && (Nodes == [] ==> head == null && tail == null)
      && (Nodes != [] ==> head == Nodes[0] && tail == Nodes[|Nodes| - 1])
      && (Nodes != [] ==> head.prev == null && tail.next == null)
    }

    constructor ()
      ensures Valid() && fresh(Repr)
      ensures Contents == []
    {
      head, tail, size := null, null, 0;
      Contents, Nodes := [], [];
      Repr := {this};
    }

    method Append(value: T)
      requires Valid()
      modifies Repr
      ensures Valid() && fresh(Repr - old(Repr))
      ensures Contents == old(Contents) + [value]
      ensures size == old(size) + 1
      ensures tail != null && fresh(tail) && Nodes == old(Nodes) + [tail]
    {
      var node := new Node(value);
      if head == null {
        head := node;
        tail := node;
      } else {
        node.prev := tail;
        tail.next := node;
        tail := node;
      }
      size := size + 1;
      Contents := Contents + [value];
      Nodes := Nodes + [node];
      Repr := Repr + {node};
    }

    method Prepend(value: T)
      requires Valid()
      modifies Repr
      ensures Valid() && fresh(Repr - old(Repr))
      ensures Contents == [value] + old(Contents)
      ensures size == old(size) + 1
      ensures head != null && fresh(head) && Nodes == [head] + old(Nodes)
    {
      var node := new Node(value);
      if head == null {
        head := node;
        tail := node;
      } else {
        node.next := head;
        head.prev := node;
        head := node;
      }
      size := size + 1;
      Contents := [value] + Contents;
      Nodes := [node] + Nodes;
      Repr := Repr + {node};
      assert forall j :: 0 < j < |Nodes| ==> Nodes[j] == old(Nodes)[j - 1];
    }

    /** Unlinks the first node holding `value`, repairing both directions. */
    method Remove(value: T) returns (removed: bool)
      requires Valid()
      modifies Repr
      ensures Valid() && Repr <= old(Repr)
      ensures removed <==> value in old(Contents)
      ensures Contents == RemoveFirst(old(Contents), value)
      ensures size == if removed then old(size) - 1 else old(size)
      ensures !removed ==> Nodes == old(Nodes) && head == old(head) && tail == old(tail)
      ensures old(size) == 1 && removed ==> head == null && tail == null
    {
      if head == null {
        return false;
      }
      var current := head;
      ghost var i := 0;
      while current != null && current.value != value
        invariant 0 <= i <= |Nodes|
        invariant current == if i < |Nodes| then Nodes[i] else null
        invariant forall j :: 0 <= j < i ==> Contents[j] != value
        decreases |Nodes| - i
      {
        current := current.next;
        i := i + 1;
      }
      if current == null {
        return false;
      }
      assert FirstIndex(Contents, value) == i;
      if current == head {
        UnlinkHead();
      } else if current == tail {
        UnlinkTail();
      } else {
        UnlinkMiddle(current, i);
      }
      return true;
    }

    method UnlinkHead()
      requires Valid() && Nodes != []
      modifies Repr
      ensures Valid() && Repr <= old(Repr)
      ensures Contents == old(Contents[1..]) && Nodes == old(Nodes[1..])
      ensures size == old(size) - 1
    {
      ghost var gone := head;
      assert head.next == if |Nodes| > 1 then Nodes[1] else null;
      head := head.next;
      if head != null {
        head.prev := null;
      } else {
        tail := null;
      }
      size := size - 1;
      Contents := Contents[1..];
      Nodes := Nodes[1..];
      Repr := Repr - {gone};
      assert forall j :: 0 <= j < |Nodes| ==> Nodes[j] == old(Nodes)[j + 1];
    }

    method UnlinkTail()
      requires Valid() && |Nodes| >= 2
      modifies Repr
      ensures Valid() && Repr <= old(Repr)
      ensures Contents == old(Contents[..|Contents| - 1]) && Nodes == old(Nodes[..|Nodes| - 1])
      ensures size == old(size) - 1
    {
      ghost var gone := tail;
      assert tail.prev == Nodes[|Nodes| - 2];
      tail := tail.prev;
      tail.next := null;
      size := size - 1;
      Contents := Contents[..|Contents| - 1];
      Nodes := Nodes[..|Nodes| - 1];
      Repr := Repr - {gone};
    }

    /** Splices out `Nodes[k]`, which is neither the head nor the tail. */
    method UnlinkMiddle(node: Node<T>, ghost k: nat)
      requires Valid()
      requires 0 < k < |Nodes| - 1 && node == Nodes[k]
      modifies Repr
      ensures Valid() && Repr <= old(Repr)
      ensures Contents == old(Contents[..k] + Contents[k + 1..])
      ensures Nodes == old(Nodes[..k] + Nodes[k + 1..])
      ensures size == old(size) - 1
    {
      ghost var before, after := Nodes[k - 1], Nodes[k + 1];
      assert node.prev == before && node.next == after;
      node.prev.next := node.next;
      node.next.prev := node.prev;
      size := size - 1;
      Contents := Contents[..k] + Contents[k + 1..];
      Nodes := Nodes[..k] + Nodes[k + 1..];
      Repr := Repr - {node};
      assert forall j :: 0 <= j < |Nodes| ==> Nodes[j] == old(Nodes)[if j < k then j else j + 1];
      forall j | 0 <= j < |Nodes| - 1
        ensures Nodes[j].next == Nodes[j + 1]
      {
        if j != k - 1 {
          assert Nodes[j].next == old(Nodes[if j < k then j else j + 1].next);
        }
      }
      forall j | 0 < j < |Nodes|
        ensures Nodes[j].prev == Nodes[j - 1]
      {
        if j != k {
          assert Nodes[j].prev == old(Nodes[if j < k then j else j + 1].prev);
        }
      }
    }

    /** Walks from `head`, copying values in link order. */
    method ToArray() returns (a: seq<T>)
      requires Valid()
      ensures a == Contents
    {
      a := [];
      var current := head;
      while current != null
        invariant |a| <= |Nodes|
        invariant a == Contents[..|a|]
        invariant current == if |a| < |Nodes| then Nodes[|a|] else null
        decreases |Nodes| - |a|
      {
        a := a + [current.value];
        current := current.next;
      }
    }

    /** The first node holding `value`, or null. */
    method Find(value: T) returns (n: Node?<T>)
      requires Valid()
      ensures n == null <==> value !in Contents
      ensures n != null ==> n == Nodes[FirstIndex(Contents, value)] && n.value == value
    {
      var current := head;
      ghost var i := 0;
      while current != null
        invariant 0 <= i <= |Nodes|
        invariant current == if i < |Nodes| then Nodes[i] else null
        invariant forall j :: 0 <= j < i ==> Contents[j] != value
        decreases |Nodes| - i
      {
        if current.value == value {
          return current;
        }
        current := current.next;
        i := i + 1;
      }
      return null;
    }

    method Clear()
      requires Valid()
      modifies this
      ensures Valid() && Repr == {this}
      ensures Contents == [] && size == 0 && head == null && tail == null
    {
      head, tail, size := null, null, 0;
      Contents, Nodes := [], [];
      Repr := {this};
    }
  }
}

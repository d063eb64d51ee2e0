/** Singly-linked list (src/data-structures/LinkedList.ts) and the `Node`
    class that the doubly-linked and circular lists share with it.

    The list's abstract value is the ghost sequence `Contents`; the ghost
    sequence `Nodes` lists the reachable nodes in order, so that `Valid()`
    can say what every `next` link points to. */
module LinkedLists {
  import opened Sequences

  class Node<T> {
    const value: T
    var next: Node?<T>
    var prev: Node?<T>

    constructor (value: T)
      ensures this.value == value && next == null && prev == null
    {
      this.value := value;
      next := null;
      prev := null;
    }
  }

  class LinkedList<T(==)> {
    var head: Node?<T>
    var tail: Node?<T>
    var size: int

    ghost var Contents: seq<T>
    ghost var Nodes: seq<Node<T>>
    ghost var Repr: set<object>

    /** The links spell out `Nodes`, the node values spell out `Contents`,
        `tail` is the last reachable node and `size` counts the nodes. */
    ghost predicate Valid()
      reads this, Repr
    {
      && this in Repr
      && (forall i :: 0 <= i < |Nodes| ==> Nodes[i] in Repr)
      && |Nodes| == |Contents| == size
      && (forall i, j :: 0 <= i < j < |Nodes| ==> Nodes[i] != Nodes[j])
      && (forall i :: 0 <= i < |Nodes| ==> Nodes[i].value == Contents[i])
      && (forall i :: 0 <= i < |Nodes| - 1 ==> Nodes[i].next == Nodes[i + 1])
      && (Nodes == [] ==> head == null && tail == null)
      && (Nodes != [] ==> head == Nodes[0] && tail == Nodes[|Nodes| - 1] && tail.next == null)
    }

    constructor ()
      ensures Valid() && fresh(Repr)
      ensures Contents == []
    {
      head, tail, size := null, null, 0;
      Contents, Nodes := [], [];
      Repr := {this};
    }

    method Append(value: T)
      requires Valid()
      modifies Repr
      ensures Valid() && fresh(Repr - old(Repr))
      ensures Contents == old(Contents) + [value]
      ensures size == old(size) + 1
      ensures tail != null && fresh(tail) && Nodes == old(Nodes) + [tail]
    {
      var node := new Node(value);
      if head == null {
        head := node;
        tail := node;
      } else {
        tail.next := node;
        tail := node;
      }
      size := size + 1;
      Contents := Contents + [value];
      Nodes := Nodes + [node];
      Repr := Repr + {node};
    }

    method Prepend(value: T)
      requires Valid()
      modifies Repr
      ensures Valid() && fresh(Repr - old(Repr))
      ensures Contents == [value] + old(Contents)
      ensures size == old(size) + 1
      ensures fresh(head) && Nodes == [head] + old(Nodes)
      ensures old(head) == null ==> tail == head
      ensures old(head) != null ==> tail == old(tail)
    {
      var node := new Node(value);
      if head == null {
        head := node;
        tail := node;
      } else {
        node.next := head;
        head := node;
      }
      size := size + 1;
      Contents := [value] + Contents;
      Nodes := [node] + Nodes;
      Repr := Repr + {node};
    }

    /** Unlinks the first node holding `value`; the removed node leaves `Repr`. */
    method Remove(value: T) returns (removed: bool)
      requires Valid()
      modifies Repr
      ensures Valid() && Repr <= old(Repr)
      ensures removed <==> value in old(Contents)
      ensures Contents == RemoveFirst(old(Contents), value)
      ensures size == if removed then old(size) - 1 else old(size)
      ensures !removed ==> Nodes == old(Nodes) && head == old(head) && tail == old(tail)
    {
      if head == null {
        return false;
      }
      if head.value == value {
        UnlinkHead();
        return true;
      }
      var current := head;
      ghost var i := 0;
      while current.next != null && current.next.value != value
        invariant 0 <= i < |Nodes| && current == Nodes[i]
        invariant forall j :: 0 <= j <= i ==> Contents[j] != value
        decreases |Nodes| - i
      {
        current := current.next;
        i := i + 1;
      }
      assert current.next == if i + 1 < |Nodes| then Nodes[i + 1] else null;
      if current.next != null {
        assert FirstIndex(Contents, value) == i + 1;
        UnlinkAfter(current, i);
        return true;
      }
      assert i == |Nodes| - 1;
      return false;
    }

    /** Drops the head node; the list empties when it was the only one. */
    method UnlinkHead()
      requires Valid() && Nodes != []
      modifies this
      ensures Valid() && Repr <= old(Repr)
      ensures Contents == old(Contents[1..]) && Nodes == old(Nodes[1..])
      ensures size == old(size) - 1
    {
      ghost var gone := head;
      head := head.next;
      size := size - 1;
      if size == 0 {
        tail := null;
      }
      Contents := Contents[1..];
      Nodes := Nodes[1..];
      Repr := Repr - {gone};
      assert forall j :: 0 <= j < |Nodes| ==> Nodes[j] == old(Nodes)[j + 1];
    }

    /** Unlinks the successor of `Nodes[k]`, repointing `tail` to `Nodes[k]`
        when the successor was the tail. */
    method UnlinkAfter(node: Node<T>, ghost k: nat)
      requires Valid()
      requires k + 1 < |Nodes| && node == Nodes[k]
      modifies Repr
      ensures Valid() && Repr <= old(Repr)
      ensures Contents == old(Contents[..k + 1] + Contents[k + 2..])
      ensures Nodes == old(Nodes[..k + 1] + Nodes[k + 2..])
      ensures size == old(size) - 1 && head == old(head)
    {
      ghost var gone := Nodes[k + 1];
      assert node.next == gone;
      if node.next == tail {
        tail := node;
      }
      Bypass(Nodes, k, node);
      size := size - 1;
      Contents := Contents[..k + 1] + Contents[k + 2..];
      Nodes := Nodes[..k + 1] + Nodes[k + 2..];
      Repr := Repr - {gone};
      assert forall j :: 0 <= j < |Nodes| ==> Nodes[j] == old(Nodes)[if j <= k then j else j + 1];
    }

    /** `current.next = current.next.next` on the chain `ns`: the chain
        without `ns[k + 1]` is linked in order and still ends in null. */
    static method Bypass(ghost ns: seq<Node<T>>, ghost k: nat, node: Node<T>)
      requires k + 1 < |ns| && node == ns[k]
      requires forall i, j :: 0 <= i < j < |ns| ==> ns[i] != ns[j]
      requires forall i :: 0 <= i < |ns| - 1 ==> ns[i].next == ns[i + 1]
      requires ns[|ns| - 1].next == null
      modifies node`next
      ensures var rest := ns[..k + 1] + ns[k + 2..];
        && (forall i :: 0 <= i < |rest| - 1 ==> rest[i].next == rest[i + 1])
        && rest[|rest| - 1].next == null
    {
      assert node.next == ns[k + 1];
      node.next := node.next.next;
      ghost var rest := ns[..k + 1] + ns[k + 2..];
      assert forall j :: 0 <= j < |rest| ==> rest[j] == ns[if j <= k then j else j + 1];
      forall j | 0 <= j < |rest| - 1
        ensures rest[j].next == rest[j + 1]
      {
        if j < k {
          assert rest[j] == ns[j] && ns[j] != node && old(ns[j].next) == ns[j + 1];
        } else if j > k {
          assert rest[j] == ns[j + 1] && ns[j + 1] != node && old(ns[j + 1].next) == ns[j + 2];
        }
      }
      if k + 2 < |ns| {
        assert rest[|rest| - 1] == ns[|ns| - 1] != node;
      }
    }

    /** Walks from `head`, copying values in link order. */
    method ToArray() returns (a: seq<T>)
      requires Valid()
      ensures a == Contents
    {
      a := [];
      var current := head;
      while current != null
        invariant |a| <= |Nodes|
        invariant a == Contents[..|a|]
        invariant current == if |a| < |Nodes| then Nodes[|a|] else null
        decreases |Nodes| - |a|
      {
        a := a + [current.value];
        current := current.next;
      }
    }

    /** The first node holding `value`, or null. */
    method Find(value: T) returns (n: Node?<T>)
      requires Valid()
      ensures n == null <==> value !in Contents
      ensures n != null ==> n == Nodes[FirstIndex(Contents, value)] && n.value == value
    {
      var current := head;
      ghost var i := 0;
      while current != null
        invariant 0 <= i <= |Nodes|
        invariant current == if i < |Nodes| then Nodes[i] else null
        invariant forall j :: 0 <= j < i ==> Contents[j] != value
        decreases |Nodes| - i
      {
        if current.value == value {
          return current;
        }
        current := current.next;
        i := i + 1;
      }
      return null;
    }

    method Clear()
      requires Valid()
      modifies this
      ensures Valid() && Repr == {this}
      ensures Contents == [] && size == 0 && head == null && tail == null
    {
      head, tail, size := null, null, 0;
      Contents, Nodes := [], [];
      Repr := {this};
    }
  }
}

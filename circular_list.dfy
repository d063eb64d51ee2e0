/** Circular doubly-linked list (src/data-structures/CircularDoublyLinkedList.ts),
    the waiter round-robin. The ghost `Nodes` sequence lists the ring from
    `head`; the ghost index `Cursor` says which node `current` is. */
module CircularLists {
  import opened Wrappers
  import opened Sequences
  import opened LinkedLists

  ghost predicate Distinct<T>(ns: seq<Node<T>>)
  {
    forall i, j :: 0 <= i < j < |ns| ==> ns[i] != ns[j]
  }

  /** `ns[i]` holds `cs[i]` for every position. */
  ghost predicate Labels<T>(ns: seq<Node<T>>, cs: seq<T>)
  {
    |ns| == |cs| && forall i :: 0 <= i < |ns| ==> ns[i].value == cs[i]
  }

  ghost predicate Within<T>(ns: seq<Node<T>>, r: set<object>)
  {
    forall i :: 0 <= i < |ns| ==> ns[i] in r
  }

  /** `head` is the first node and `current` the one at index `cursor`;
      both are null on an empty ring. */
  ghost predicate Anchored<T>(ns: seq<Node<T>>, head: Node?<T>, current: Node?<T>, cursor: nat)
  {
    && (ns == [] ==> head == null && current == null && cursor == 0)
    && (ns != [] ==> head == ns[0] && cursor < |ns| && current == ns[cursor])
  }

  /** Where the cursor lands when `ns[k]` leaves a ring of `n`: positions
      after `k` shift down, and a cursor on `k` moves to `k`'s successor. */
  function CursorAfterDrop(cursor: nat, k: nat, n: nat): nat
  {
    if cursor < k then cursor
    else if cursor > k then cursor - 1
    else if k == n - 1 then 0
    else k
  }

  lemma {:induction false} AnchoredAfterDrop<T>(ns: seq<Node<T>>, k: nat, head: Node?<T>, current: Node?<T>, cursor: nat)
    requires 2 <= |ns| && k < |ns| && Distinct(ns) && Anchored(ns, head, current, cursor)
    ensures var succ := ns[if k == |ns| - 1 then 0 else k + 1];
      Anchored(ns[..k] + ns[k + 1..],
               if head == ns[k] then succ else head,
               if current == ns[k] then succ else current,
               CursorAfterDrop(cursor, k, |ns|))
  {
    var rest := ns[..k] + ns[k + 1..];
    var c := CursorAfterDrop(cursor, k, |ns|);
    assert rest[c] == ns[if c < k then c else c + 1];
    if k != 0 {
      assert rest[0] == ns[0];
    }
  }

  /** Appending a node not yet in `ns`, holding `v`, keeps the sequences
      distinct, matched up, and inside the footprint grown by the node. */
  lemma {:induction false} AppendKeeps<T>(ns: seq<Node<T>>, cs: seq<T>, r: set<object>, node: Node<T>, v: T)
    requires Distinct(ns) && Labels(ns, cs) && Within(ns, r) && node !in ns && node.value == v
    ensures Distinct(ns + [node]) && Labels(ns + [node], cs + [v]) && Within(ns + [node], r + {node})
  {
  }

  /** Dropping position `k` from the node and value sequences keeps them
      distinct, matched up, and inside the footprint without `ns[k]`. */
  lemma {:induction false} DropKeeps<T>(ns: seq<Node<T>>, cs: seq<T>, r: set<object>, k: nat)
    requires k < |ns| && Distinct(ns) && Labels(ns, cs) && Within(ns, r)
    ensures Distinct(ns[..k] + ns[k + 1..])
    ensures Labels(ns[..k] + ns[k + 1..], cs[..k] + cs[k + 1..])
    ensures Within(ns[..k] + ns[k + 1..], r - {ns[k]})
  {
    var rest := ns[..k] + ns[k + 1..];
    assert forall j :: 0 <= j < |rest| ==> rest[j] == ns[if j < k then j else j + 1];
    var kept := cs[..k] + cs[k + 1..];
    assert forall j :: 0 <= j < |kept| ==> kept[j] == cs[if j < k then j else j + 1];
  }

  /** Each node's `next` is its successor in `ns`, the last wrapping to
      the first. */
  ghost predicate NextRing<T>(ns: seq<Node<T>>)
    reads ns
  {
    && (forall i {:trigger ns[i].next} :: 0 <= i < |ns| - 1 ==> ns[i].next == ns[i + 1])
    && (ns != [] ==> ns[|ns| - 1].next == ns[0])
  }

  /** Each node's `prev` is its predecessor in `ns`, the first wrapping to
      the last. */
  ghost predicate PrevRing<T>(ns: seq<Node<T>>)
    reads ns
  {
    && (forall i {:trigger ns[i].prev} :: 0 < i < |ns| ==> ns[i].prev == ns[i - 1])
    && (ns != [] ==> ns[0].prev == ns[|ns| - 1])
  }

  ghost predicate Ring<T>(ns: seq<Node<T>>)
    reads ns
  {
    NextRing(ns) && PrevRing(ns)
  }

  class CircularDoublyLinkedList<T(==)> {
    var head: Node?<T>
    var size: int
    var current: Node?<T>

    ghost var Contents: seq<T>
    ghost var Nodes: seq<Node<T>>
    ghost var Cursor: nat
    ghost var Repr: set<object>

    /** The ring is closed in both directions: each node's `next` is its
        successor in `Nodes` (the last wraps to the head) and each `prev`
        its predecessor (the head's wraps to the last). */
    ghost predicate Valid()
      reads this, Repr
    {
      && this in Repr
      && Within(Nodes, Repr)
      && |Nodes| == size
      && Distinct(Nodes)
      && Labels(Nodes, Contents)
      && Ring(Nodes)
      && Anchored(Nodes, head, current, Cursor)
    }

    /** The value under the cursor, the waiter whose turn it is. */
    ghost function CurrentValue(): Option<T>
      reads this, Repr
      requires Valid()
    {
      if Nodes == [] then None else Some(Contents[Cursor])
    }

    constructor ()
      ensures Valid() && fresh(Repr)
      ensures Contents == []
    {
      head, size, current := null, 0, null;
      Contents, Nodes, Cursor := [], [], 0;
      Repr := {this};
    }

    /** The first node closes on itself and becomes `current`; later nodes
        go just before `head`, i.e. at the end of the ring, and leave
        `current` where it was. */
    method Add(value: T)
      requires Valid()
      modifies Repr
      ensures Valid() && fresh(Repr - old(Repr))
      ensures Contents == old(Contents) + [value]
      ensures size == old(size) + 1
      ensures old(Contents) == [] ==> Cursor == 0 && current == head && current.next == current && current.prev == current
      ensures old(Contents) != [] ==> Cursor == old(Cursor) && current == old(current) && head == old(head)
    {
      var node := new Node(value);
      if head == null {
        AddFirst(node);
      } else {
        AddLast(node);
      }
    }

    method AddFirst(node: Node<T>)
      requires Valid() && Nodes == [] && node !in Repr
      modifies this, node
      ensures Valid() && Repr == old(Repr) + {node}
      ensures Contents == [node.value] && size == 1
      ensures Cursor == 0 && current == head == node && node.next == node && node.prev == node
    {
      head := node;
      node.next := node;
      node.prev := node;
      current := node;
      size := size + 1;
      Contents := Contents + [node.value];
      Nodes := Nodes + [node];
      Repr := Repr + {node};
    }

    method AddLast(node: Node<T>)
      requires Valid() && Nodes != [] && node !in Repr
      modifies this, node, Repr
      ensures Valid() && Repr == old(Repr) + {node}
      ensures Contents == old(Contents) + [node.value] && size == old(size) + 1
      ensures Cursor == old(Cursor) && current == old(current) && head == old(head)
    {
      SpliceIn(Nodes, node, head, head.prev);
      AppendKeeps(Nodes, Contents, Repr, node, node.value);
      size := size + 1;
      Contents := Contents + [node.value];
      Nodes := Nodes + [node];
      Repr := Repr + {node};
    }

    /** Links a new `node` in between the last node and the first. */
    static method SpliceIn(ghost ns: seq<Node<T>>, node: Node<T>, first: Node<T>, last: Node<T>)
      requires ns != [] && Distinct(ns) && Ring(ns) && node !in ns
      requires first == ns[0] && last == ns[|ns| - 1]
      modifies node, first`prev, last`next
      ensures Ring(ns + [node])
    {
      node.next := first;
      node.prev := last;
      last.next := node;
      first.prev := node;
      var grown := ns + [node];
      assert forall j :: 0 <= j < |ns| ==> grown[j] == ns[j];
      forall j | 0 <= j < |grown| - 1
        ensures grown[j].next == grown[j + 1]
      {
        if j < |ns| - 1 {
          assert grown[j].next == old(ns[j].next);
        }
      }
      forall j | 0 < j < |grown|
        ensures grown[j].prev == grown[j - 1]
      {
        if j < |ns| {
          assert grown[j].prev == old(ns[j].prev);
        }
      }
    }

    /** Unlinks the first node holding `value`, counted from `head`. */
    method Remove(value: T) returns (removed: bool)
      requires Valid()
      modifies Repr
      ensures Valid() && Repr <= old(Repr)
      ensures removed <==> value in old(Contents)
      ensures Contents == RemoveFirst(old(Contents), value)
      ensures size == if removed then old(size) - 1 else old(size)
      ensures !removed ==> Nodes == old(Nodes) && Cursor == old(Cursor) && head == old(head) && current == old(current)
      ensures removed && old(size) == 1 ==> head == null && current == null
      ensures removed && old(size) > 1 ==>
        var k := FirstIndex(old(Contents), value);
        && Nodes == old(Nodes[..k] + Nodes[k + 1..])
        && (old(head) == old(Nodes[k]) ==> head == old(Nodes[k].next))
        && (old(current) == old(Nodes[k]) ==> current == old(Nodes[k].next))
        && (old(current) != old(Nodes[k]) ==> current == old(current))
    {
      if head == null {
        return false;
      }
      var node := head;
      var found := false;
      ghost var i := 0;
      while true
        invariant 0 <= i < |Nodes| && node == Nodes[i]
        invariant forall j :: 0 <= j < i ==> Contents[j] != value
        decreases |Nodes| - i
      {
        if node.value == value {
          found := true;
          break;
        }
        assert node.next == if i + 1 < |Nodes| then Nodes[i + 1] else Nodes[0];
        node := node.next;
        if node == head {
          break;
        }
        i := i + 1;
      }
      if !found {
        return false;
      }
      assert FirstIndex(Contents, value) == i;
      if size == 1 {
        head := null;
        current := null;
        size := size - 1;
        Contents, Nodes, Cursor := [], [], 0;
        Repr := Repr - {node};
      } else {
        Unlink(node, i);
      }
      return true;
    }

    /** Splices `Nodes[k]` out of a ring of two or more, moving `head` and
        `current` on to its successor when they pointed at it. */
    method Unlink(node: Node<T>, ghost k: nat)
      requires Valid() && |Nodes| >= 2
      requires k < |Nodes| && node == Nodes[k]
      modifies Repr
      ensures Valid() && Repr <= old(Repr)
      ensures Contents == old(Contents[..k] + Contents[k + 1..])
      ensures Nodes == old(Nodes[..k] + Nodes[k + 1..])
      ensures size == old(size) - 1
      ensures old(head) == node ==> head == old(node.next)
      ensures old(head) != node ==> head == old(head)
      ensures old(current) == node ==> current == old(node.next)
      ensures old(current) != node ==> current == old(current)
    {
      ghost var n := |Nodes|;
      assert node.prev == Nodes[if k == 0 then n - 1 else k - 1];
      assert node.next == Nodes[if k == n - 1 then 0 else k + 1];
      var nextNode := SpliceOut(Nodes, k, node);
      Forget(node, k, nextNode);
    }

    /** The bookkeeping half of `Unlink`: once the links skip `Nodes[k]`,
        drops it from the ghost state and moves `head` and `current` off it. */
    method Forget(node: Node<T>, ghost k: nat, nextNode: Node<T>)
      requires 2 <= |Nodes| && k < |Nodes| && node == Nodes[k] && nextNode == Nodes[if k == |Nodes| - 1 then 0 else k + 1]
      requires this in Repr && Within(Nodes, Repr)
      requires |Nodes| == size && Distinct(Nodes) && Labels(Nodes, Contents)
      requires Ring(Nodes[..k] + Nodes[k + 1..])
      requires Anchored(Nodes, head, current, Cursor)
      modifies this
      ensures Valid() && Repr == old(Repr) - {node}
      ensures Contents == old(Contents[..k] + Contents[k + 1..])
      ensures Nodes == old(Nodes[..k] + Nodes[k + 1..])
      ensures size == old(size) - 1
      ensures old(head) == node ==> head == nextNode
      ensures old(head) != node ==> head == old(head)
      ensures old(current) == node ==> current == nextNode
      ensures old(current) != node ==> current == old(current)
    {
      ghost var n := |Nodes|;
      DropKeeps(Nodes, Contents, Repr, k);
      AnchoredAfterDrop(Nodes, k, head, current, Cursor);
      if head == node {
        head := nextNode;
      }
      if current == node {
        current := nextNode;
      }
      size := size - 1;
      Contents := Contents[..k] + Contents[k + 1..];
      Nodes := Nodes[..k] + Nodes[k + 1..];
      Cursor := CursorAfterDrop(Cursor, k, n);
      Repr := Repr - {node};
    }

    /** Points the neighbours of `ns[k]` at each other, which leaves a ring
        of the other nodes. */
    static method SpliceOut(ghost ns: seq<Node<T>>, ghost k: nat, node: Node<T>) returns (nextNode: Node<T>)
      requires 2 <= |ns| && k < |ns| && Distinct(ns) && Ring(ns) && node == ns[k]
      modifies node.prev`next, node.next`prev
      ensures nextNode == old(node.next)
      ensures Ring(ns[..k] + ns[k + 1..])
    {
      ghost var n := |ns|;
      assert node.prev == ns[if k == 0 then n - 1 else k - 1];
      assert node.next == ns[if k == n - 1 then 0 else k + 1];
      var prevNode := node.prev;
      nextNode := node.next;
      prevNode.next := nextNode;
      nextNode.prev := prevNode;
      var rest := ns[..k] + ns[k + 1..];
      assert forall j :: 0 <= j < |rest| ==> rest[j] == ns[if j < k then j else j + 1];
      forall j | 0 <= j < |rest| - 1
        ensures rest[j].next == rest[j + 1]
      {
        if j != k - 1 {
          assert rest[j].next == old(ns[if j < k then j else j + 1].next);
        }
      }
      forall j | 0 < j < |rest|
        ensures rest[j].prev == rest[j - 1]
      {
        if j != k {
          assert rest[j].prev == old(ns[if j < k then j else j + 1].prev);
        }
      }
      if k != 0 && k != n - 1 {
        assert rest[|rest| - 1].next == old(ns[n - 1].next);
        assert rest[0].prev == old(ns[0].prev);
      }
    }

    /** Advances `current` one step and returns the new current value;
        `null` on an empty ring. */
    method Rotate() returns (r: Option<T>)
      requires Valid()
      modifies this
      ensures Valid() && Repr == old(Repr)
      ensures Contents == old(Contents) && Nodes == old(Nodes) && head == old(head)
      ensures old(Contents) == [] ==> r == None && current == null
      ensures old(Contents) != [] ==> Cursor == if old(Cursor) + 1 < |Contents| then old(Cursor) + 1 else 0
      ensures r == CurrentValue()
    {
      if current == null {
        return None;
      }
      assert current.next == if Cursor + 1 < |Nodes| then Nodes[Cursor + 1] else Nodes[0];
      current := current.next;
      Cursor := if Cursor + 1 < |Nodes| then Cursor + 1 else 0;
      return Some(current.value);
    }

    method GetCurrentValue() returns (r: Option<T>)
      requires Valid()
      ensures r == CurrentValue()
      ensures r.None? <==> Contents == []
    {
      if current == null {
        return None;
      }
      return Some(current.value);
    }

    /** Walks once around the ring from `head`. */
    method ToArray() returns (a: seq<T>)
      requires Valid()
      ensures a == Contents
    {
      if head == null {
        return [];
      }
      a := [];
      var node := head;
      while true
        invariant |a| < |Nodes|
        invariant a == Contents[..|a|]
        invariant node == Nodes[|a|]
        decreases |Nodes| - |a|
      {
        a := a + [node.value];
        assert node.next == if |a| < |Nodes| then Nodes[|a|] else Nodes[0];
        node := node.next;
        if node == head {
          break;
        }
      }
    }

    method IsEmpty() returns (b: bool)
      requires Valid()
      ensures b <==> Contents == []
    {
      b := size == 0;
    }

    method GetSize() returns (n: int)
      requires Valid()
      ensures n == |Contents|
    {
      n := size;
    }
  }

  /** Seeding a ring with n `add` calls: `toArray` gives the values in
      insertion order, the size is n, and the first `rotate` hands out the
      second value added (the first once more on a ring of one). */
  method Seed<T(==)>(values: seq<T>) returns (all: seq<T>, n: int, first: Option<T>)
    ensures all == values && n == |values|
    ensures first == if |values| == 0 then None else Some(values[if |values| == 1 then 0 else 1])
  {
    var ring := new CircularDoublyLinkedList<T>();
    var i := 0;
    while i < |values|
      invariant 0 <= i <= |values|
      invariant ring.Valid() && fresh(ring.Repr)
      invariant ring.Contents == values[..i]
      invariant ring.Cursor == 0
    {
      ring.Add(values[i]);
      i := i + 1;
    }
    assert values[..|values|] == values;
    all := ring.ToArray();
    n := ring.GetSize();
    first := ring.Rotate();
  }

  /** Rotating a ring `size` times brings `current` back to the node it
      started at. */
  method FullTurn<T(==)>(ring: CircularDoublyLinkedList<T>)
    requires ring.Valid()
    modifies ring
    ensures ring.Valid() && ring.Repr == old(ring.Repr) && ring.Contents == old(ring.Contents)
    ensures ring.current == old(ring.current)
  {
    var n := ring.GetSize();
    ghost var start := ring.Cursor;
    var i := 0;
    while i < n
      invariant 0 <= i <= n
      invariant ring.Valid() && ring.Repr == old(ring.Repr)
      invariant ring.Contents == old(ring.Contents) && ring.Nodes == old(ring.Nodes)
      invariant n > 0 ==> ring.Cursor == if start + i < n then start + i else start + i - n
    {
      var _ := ring.Rotate();
      i := i + 1;
    }
  }
}

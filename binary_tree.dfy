/** Unbalanced binary search tree ordered by a caller-supplied comparator
    (src/data-structures/BinaryTree.ts), the menu index. A negative
    comparison sends a value left; zero or positive sends it right, so
    equal values go right. There is no delete. */
module BinaryTrees {
  datatype Tree<T> = Leaf | Node(left: Tree<T>, value: T, right: Tree<T>)

  /** The comparator orders values consistently: `a` before `b` exactly
      when `b` after `a`, and "not after" is transitive. */
  ghost predicate TotalPreorder<T(!new)>(cmp: (T, T) -> int)
  {
    && (forall a, b :: cmp(a, b) < 0 <==> cmp(b, a) > 0)
    && (forall a, b, c :: cmp(a, b) <= 0 && cmp(b, c) <= 0 ==> cmp(a, c) <= 0)
  }

  lemma {:induction false} StrictThenWeak<T(!new)>(cmp: (T, T) -> int, a: T, b: T, c: T)
    requires TotalPreorder(cmp) && cmp(a, b) < 0 && cmp(b, c) <= 0
    ensures cmp(a, c) < 0
  {
    assert cmp(b, c) <= 0 && cmp(c, a) <= 0 ==> cmp(b, a) <= 0;
  }

  /** The values in left-to-right order, as `inOrderTraversal` visits them. */
  function InOrder<T>(t: Tree<T>): seq<T>
  {
    match t
    case Leaf => []
    case Node(l, x, r) => InOrder(l) + [x] + InOrder(r)
  }

  /** The search-tree property as insertion builds it: every value in a
      left subtree compares negative to the node, every value in a right
      subtree compares zero or positive. */
  ghost predicate IsBst<T>(t: Tree<T>, cmp: (T, T) -> int)
  {
    match t
    case Leaf => true
    case Node(l, x, r) =>
      && (forall y :: y in InOrder(l) ==> cmp(y, x) < 0)
      && (forall y :: y in InOrder(r) ==> cmp(y, x) >= 0)
      && IsBst(l, cmp) && IsBst(r, cmp)
  }

  /** `insert`/`insertNode`: walk down by the comparator and hang a new
      leaf where the walk falls off the tree. */
  function InsertTree<T>(t: Tree<T>, v: T, cmp: (T, T) -> int): (r: Tree<T>)
    ensures t == Leaf ==> r == Node(Leaf, v, Leaf)
    ensures r != Leaf
  {
    match t
    case Leaf => Node(Leaf, v, Leaf)
    case Node(l, x, rt) =>
      if cmp(v, x) < 0 then Node(InsertTree(l, v, cmp), x, rt)
      else Node(l, x, InsertTree(rt, v, cmp))
  }

  /** `searchNode`: the subtree whose root compares equal to `v`, or
      `Leaf` for null. */
  function SearchTree<T>(t: Tree<T>, v: T, cmp: (T, T) -> int): (r: Tree<T>)
    ensures r != Leaf ==> cmp(v, r.value) == 0 && r.value in InOrder(t)
  {
    match t
    case Leaf => Leaf
    case Node(l, x, rt) =>
      if cmp(v, x) == 0 then t
      else if cmp(v, x) < 0 then SearchTree(l, v, cmp)
      else SearchTree(rt, v, cmp)
  }

  /** Inserting adds exactly `v` to the stored values. */
  lemma {:induction false} InsertAddsValue<T>(t: Tree<T>, v: T, cmp: (T, T) -> int)
    ensures multiset(InOrder(InsertTree(t, v, cmp))) == multiset(InOrder(t)) + multiset{v}
  {
    match t
    case Leaf =>
    case Node(l, x, r) =>
      if cmp(v, x) < 0 {
        InsertAddsValue(l, v, cmp);
      } else {
        InsertAddsValue(r, v, cmp);
      }
  }

  /** Inserting keeps the search-tree property, whatever the comparator. */
  lemma {:induction false} InsertKeepsBst<T>(t: Tree<T>, v: T, cmp: (T, T) -> int)
    requires IsBst(t, cmp)
    ensures IsBst(InsertTree(t, v, cmp), cmp)
  {
    match t
    case Leaf =>
    case Node(l, x, r) =>
      if cmp(v, x) < 0 {
        InsertKeepsBst(l, v, cmp);
        InsertAddsValue(l, v, cmp);
        assert forall y :: y in InOrder(InsertTree(l, v, cmp)) ==> y in multiset(InOrder(l)) + multiset{v};
      } else {
        InsertKeepsBst(r, v, cmp);
        InsertAddsValue(r, v, cmp);
        assert forall y :: y in InOrder(InsertTree(r, v, cmp)) ==> y in multiset(InOrder(r)) + multiset{v};
      }
  }

  /** `toArray` of a search tree is non-decreasing under the comparator. */
  lemma {:induction false} InOrderSorted<T(!new)>(t: Tree<T>, cmp: (T, T) -> int)
    requires TotalPreorder(cmp) && IsBst(t, cmp)
    ensures forall i, j :: 0 <= i < j < |InOrder(t)| ==> cmp(InOrder(t)[i], InOrder(t)[j]) <= 0
  {
    match t
    case Leaf =>
    case Node(l, x, r) =>
      InOrderSorted(l, cmp);
      InOrderSorted(r, cmp);
      var s, a, b := InOrder(t), InOrder(l), InOrder(r);
      assert s == a + [x] + b;
      forall i, j | 0 <= i < j < |s|
        ensures cmp(s[i], s[j]) <= 0
      {
        if i < |a| && j == |a| {
          assert s[i] in a;
        } else if i < |a| && j > |a| {
          assert s[i] in a && s[j] in b;
          assert cmp(s[j], x) >= 0;
        } else if i == |a| && j > |a| {
          assert s[j] in b;
        } else if i < |a| {
          assert s[i] == a[i] && s[j] == a[j];
        } else {
          assert s[i] == b[i - |a| - 1] && s[j] == b[j - |a| - 1];
        }
      }
  }

  /** Ties go right: the new value lands after every stored value that
      does not compare greater than it, and before every one that does. So
      comparator-equal values come out in insertion order. */
  lemma {:induction false} InsertPosition<T(!new)>(t: Tree<T>, v: T, cmp: (T, T) -> int) returns (k: nat)
    requires TotalPreorder(cmp) && IsBst(t, cmp)
    ensures k <= |InOrder(t)|
    ensures InOrder(InsertTree(t, v, cmp)) == InOrder(t)[..k] + [v] + InOrder(t)[k..]
    ensures forall y :: y in InOrder(t)[..k] ==> cmp(v, y) >= 0
    ensures forall y :: y in InOrder(t)[k..] ==> cmp(v, y) < 0
  {
    match t
    case Leaf =>
      k := 0;
    case Node(l, x, r) =>
      if cmp(v, x) < 0 {
        var j := InsertPosition(l, v, cmp);
        k := PlaceLeft(InOrder(l), x, InOrder(r), v, cmp, j);
      } else {
        var j := InsertPosition(r, v, cmp);
        k := PlaceRight(InOrder(l), x, InOrder(r), v, cmp, j);
      }
  }

  /** The inductive step of `InsertPosition` when `v` goes left of `x`. */
  lemma {:induction false} PlaceLeft<T(!new)>(a: seq<T>, x: T, b: seq<T>, v: T, cmp: (T, T) -> int, j: nat) returns (k: nat)
    requires TotalPreorder(cmp) && cmp(v, x) < 0 && j <= |a|
    requires forall y :: y in b ==> cmp(y, x) >= 0
    requires forall y :: y in a[..j] ==> cmp(v, y) >= 0
    requires forall y :: y in a[j..] ==> cmp(v, y) < 0
    ensures k <= |a + [x] + b|
    ensures (a[..j] + [v] + a[j..]) + [x] + b == (a + [x] + b)[..k] + [v] + (a + [x] + b)[k..]
    ensures forall y :: y in (a + [x] + b)[..k] ==> cmp(v, y) >= 0
    ensures forall y :: y in (a + [x] + b)[k..] ==> cmp(v, y) < 0
  {
    k := j;
    var s := a + [x] + b;
    assert s[..k] == a[..j];
    assert s[k..] == a[j..] + [x] + b;
    forall y | y in s[k..]
      ensures cmp(v, y) < 0
    {
      if y in b {
        assert cmp(x, y) <= 0;
        StrictThenWeak(cmp, v, x, y);
      }
    }
  }

  /** The inductive step of `InsertPosition` when `v` goes right of `x`. */
  lemma {:induction false} PlaceRight<T(!new)>(a: seq<T>, x: T, b: seq<T>, v: T, cmp: (T, T) -> int, j: nat) returns (k: nat)
    requires TotalPreorder(cmp) && cmp(v, x) >= 0 && j <= |b|
    requires forall y :: y in a ==> cmp(y, x) < 0
    requires forall y :: y in b[..j] ==> cmp(v, y) >= 0
    requires forall y :: y in b[j..] ==> cmp(v, y) < 0
    ensures k <= |a + [x] + b|
    ensures a + [x] + (b[..j] + [v] + b[j..]) == (a + [x] + b)[..k] + [v] + (a + [x] + b)[k..]
    ensures forall y :: y in (a + [x] + b)[..k] ==> cmp(v, y) >= 0
    ensures forall y :: y in (a + [x] + b)[k..] ==> cmp(v, y) < 0
  {
    k := |a| + 1 + j;
    var s := a + [x] + b;
    assert s[..k] == a + [x] + b[..j];
    assert s[k..] == b[j..];
    forall y | y in s[..k]
      ensures cmp(v, y) >= 0
    {
      if y in a {
        StrictThenWeak(cmp, y, x, v);
      }
    }
  }

  /** `search` finds nothing exactly when no stored value compares equal
      to the query. */
  lemma {:induction false} SearchComplete<T(!new)>(t: Tree<T>, v: T, cmp: (T, T) -> int)
    requires TotalPreorder(cmp) && IsBst(t, cmp)
    ensures SearchTree(t, v, cmp) == Leaf <==> forall y :: y in InOrder(t) ==> cmp(v, y) != 0
  {
    match t
    case Leaf =>
    case Node(l, x, r) =>
      SearchComplete(l, v, cmp);
      SearchComplete(r, v, cmp);
      if cmp(v, x) < 0 {
        forall y | y in InOrder(r)
          ensures cmp(v, y) != 0
        {
          assert cmp(x, y) <= 0;
          StrictThenWeak(cmp, v, x, y);
        }
      } else if cmp(v, x) > 0 {
        forall y | y in InOrder(l)
          ensures cmp(v, y) != 0
        {
          StrictThenWeak(cmp, y, x, v);
        }
      }
  }

  class BinaryTree<T> {
    var root: Tree<T>

    constructor ()
      ensures root == Leaf
    {
      root := Leaf;
    }

    /** The first value becomes the root; later ones are placed by
        `Insert`, which keeps the search-tree property and adds exactly
        `value` to the stored values. */
    method Insert(value: T, cmp: (T, T) -> int)
      modifies this
      ensures root == InsertTree(old(root), value, cmp)
      ensures old(root) == Leaf ==> root == Node(Leaf, value, Leaf)
      ensures multiset(InOrder(root)) == multiset(InOrder(old(root))) + multiset{value}
      ensures IsBst(old(root), cmp) ==> IsBst(root, cmp)
    {
      InsertAddsValue(root, value, cmp);
      if IsBst(root, cmp) {
        InsertKeepsBst(root, value, cmp);
      }
      if root == Leaf {
        root := Node(Leaf, value, Leaf);
        return;
      }
      root := InsertNode(root, value, cmp);
    }

    /** `insertNode` on a non-empty subtree. */
    static function InsertNode(node: Tree<T>, v: T, cmp: (T, T) -> int): (r: Tree<T>)
      requires node != Leaf
      ensures r == InsertTree(node, v, cmp)
    {
      if cmp(v, node.value) < 0 then
        if node.left == Leaf then Node(Node(Leaf, v, Leaf), node.value, node.right)
        else Node(InsertNode(node.left, v, cmp), node.value, node.right)
      else
        if node.right == Leaf then Node(node.left, node.value, Node(Leaf, v, Leaf))
        else Node(node.left, node.value, InsertNode(node.right, v, cmp))
    }

    method Search(v: T, cmp: (T, T) -> int) returns (r: Tree<T>)
      ensures r == SearchTree(root, v, cmp)
      ensures r != Leaf ==> cmp(v, r.value) == 0 && r.value in InOrder(root)
    {
      r := SearchTree(root, v, cmp);
    }

    /** `toArray`: the in-order walk pushes each value onto `acc`. */
    static method InOrderInto(t: Tree<T>, acc: seq<T>) returns (r: seq<T>)
      ensures r == acc + InOrder(t)
      decreases t
    {
      r := acc;
      if t != Leaf {
        r := InOrderInto(t.left, r);
        r := r + [t.value];
        r := InOrderInto(t.right, r);
      }
    }

    method ToArray() returns (r: seq<T>)
      ensures r == InOrder(root)
    {
      r := InOrderInto(root, []);
    }
  }
}

/** The node structure of the red-black binary search tree (bst.h, `BST<T>::BNode`)
    as an algebraic tree, together with the invariants the source's debug verifiers
    state: ordering (`verifyBTree`), the colour rules (`verifyRedBlack`) and the node
    count (`computeSize`). Keys are `int`, compared with `<` and `==` as the source
    compares `T`. A null child pointer is `Leaf`; parent pointers are not stored --
    positions are paths from the root instead. */
module RbTree {

  datatype Option<T> = None | Some(value: T)

  datatype Color = Red | Black

  /** A subtree: `Leaf` is a null child pointer, `Node` one `BNode`. */
  datatype Tree = Leaf | Node(color: Color, left: Tree, key: int, right: Tree)

  /** Which child pointer to follow. */
  datatype Dir = L | R

  /** `BST<T>::iterator`: a node, addressed by its path from the root, or `end()`
      (the null node pointer). */
  datatype Iter = End | At(path: seq<Dir>)

  /** `BST<T>`: the root pointer and the element counter `numElements`. The counter
      is kept separately, as in the source; `int` so that a decrement the source
      would wrap around stays visible. */
  datatype BST = BST(root: Tree, size: int)

  /** The counter agrees with the nodes actually reachable from the root. */
  predicate Counted(b: BST)
  {
    b.size == Count(b.root)
  }

  /** Number of nodes in the subtree (`BNode::computeSize`, with 0 for null). */
  function Count(t: Tree): nat
  {
    match t
    case Leaf => 0
    case Node(_, l, _, r) => Count(l) + 1 + Count(r)
  }

  /** The keys in in-order (left subtree, node, right subtree): the order in which
      the tree's iterator visits them. */
  function InOrder(t: Tree): (s: seq<int>)
    ensures |s| == Count(t)
  {
    match t
    case Leaf => []
    case Node(_, l, k, r) => InOrder(l) + [k] + InOrder(r)
  }

  predicate Sorted(s: seq<int>)
  {
    forall i, j :: 0 <= i < j < |s| ==> s[i] <= s[j]
  }

  /** The ordering rule `verifyBTree` asserts: every key of the left subtree is at
      most the node's key, which is at most every key of the right subtree. */
  predicate Ordered(t: Tree)
  {
    match t
    case Leaf => true
    case Node(_, l, k, r) =>
      && Ordered(l) && Ordered(r)
      && (forall y :: y in InOrder(l) ==> y <= k)
      && (forall y :: y in InOrder(r) ==> k <= y)
  }

  lemma SortedSlice(s: seq<int>, i: int, j: int)
    requires Sorted(s) && 0 <= i <= j <= |s|
    ensures Sorted(s[i..j])
  {
    var u := s[i..j];
    forall a, b | 0 <= a < b < |u| ensures u[a] <= u[b] {
      assert u[a] == s[i + a] && u[b] == s[i + b];
    }
  }

  /** Two sorted runs, every key of the first at most every key of the second. */
  lemma SortedConcat(a: seq<int>, b: seq<int>)
    requires Sorted(a) && Sorted(b)
    requires forall x, y :: x in a && y in b ==> x <= y
    ensures Sorted(a + b)
  {
    var s := a + b;
    forall i, j | 0 <= i < j < |s| ensures s[i] <= s[j] {
      if j < |a| {
        assert s[i] == a[i] && s[j] == a[j];
      } else if i >= |a| {
        assert s[i] == b[i - |a|] && s[j] == b[j - |a|];
      } else {
        assert s[i] == a[i] && s[j] == b[j - |a|];
        assert a[i] in a && b[j - |a|] in b;
      }
    }
  }

  lemma SortedSplit(a: seq<int>, k: int, b: seq<int>)
    ensures Sorted(a + [k] + b) <==>
              Sorted(a) && Sorted(b) && (forall y :: y in a ==> y <= k) && (forall y :: y in b ==> k <= y)
  {
    var s := a + [k] + b;
    if Sorted(s) {
      SortedSlice(s, 0, |a|);
      SortedSlice(s, |a| + 1, |s|);
      assert s[..|a|] == a && s[|a| + 1..] == b;
      forall y | y in a ensures y <= k {
        var i :| 0 <= i < |a| && a[i] == y;
        assert s[i] == y && s[|a|] == k;
      }
      forall y | y in b ensures k <= y {
        var i :| 0 <= i < |b| && b[i] == y;
        assert s[|a| + 1 + i] == y && s[|a|] == k;
      }
    }
    if Sorted(a) && Sorted(b) && (forall y :: y in a ==> y <= k) && (forall y :: y in b ==> k <= y) {
      SortedConcat(a, [k]);
      SortedConcat(a + [k], b);
    }
  }

  /** The recursive ordering rule and "the in-order key sequence is sorted" are the
      same thing: this is why the iterator visits keys in non-decreasing order. */
  lemma {:induction false} OrderedIffSorted(t: Tree)
    ensures Ordered(t) <==> Sorted(InOrder(t))
  {
    match t
    case Leaf =>
    case Node(_, l, k, r) =>
      OrderedIffSorted(l);
      OrderedIffSorted(r);
      SortedSplit(InOrder(l), k, InOrder(r));
  }

  /** Black nodes on the path from this node down its left spine (nil counts 0). */
  function BlackHeight(t: Tree): nat
  {
    match t
    case Leaf => 0
    case Node(c, l, _, _) => BlackHeight(l) + (if c == Black then 1 else 0)
  }

  /** Rule d of `verifyRedBlack`: every path from a node to a nil leaf crosses the
      same number of black nodes. */
  predicate BlackBalanced(t: Tree)
  {
    match t
    case Leaf => true
    case Node(_, l, _, r) => BlackBalanced(l) && BlackBalanced(r) && BlackHeight(l) == BlackHeight(r)
  }

  /** Nil leaves count as black. */
  function RootColor(t: Tree): Color
  {
    if t.Node? then t.color else Black
  }

  /** Rule c of `verifyRedBlack`: a red node has no red child. */
  predicate NoRedRed(t: Tree)
  {
    match t
    case Leaf => true
    case Node(c, l, _, r) =>
      NoRedRed(l) && NoRedRed(r) && (c == Red ==> RootColor(l) == Black && RootColor(r) == Black)
  }

  /** Rules b, c and d together: the root is black, no red node has a red child,
      and black heights agree everywhere. */
  predicate IsRedBlack(t: Tree)
  {
    RootColor(t) == Black && NoRedRed(t) && BlackBalanced(t)
  }

  /** Recolour the root of a subtree (nil stays nil). */
  function Paint(t: Tree, c: Color): (r: Tree)
    ensures InOrder(r) == InOrder(t) && RootColor(r) == (if t.Node? then c else Black)
  {
    if t.Leaf? then Leaf else t.(color := c)
  }

  // ---------------------------------------------------------------------------
  // Positions: a node is addressed by the path of child links from the root.
  // ---------------------------------------------------------------------------

  /** The subtree reached by following `p` from `t`; `Leaf` once the path leaves the tree. */
  function Subtree(t: Tree, p: seq<Dir>): Tree
    decreases |p|
  {
    if p == [] then t
    else match t
      case Leaf => Leaf
      case Node(_, l, _, r) => Subtree(if p[0] == L then l else r, p[1..])
  }

  /** `p` addresses a node of `t`. */
  predicate ValidPath(t: Tree, p: seq<Dir>)
  {
    Subtree(t, p).Node?
  }

  /** Number of keys that precede the subtree at `p` in in-order. */
  function Offset(t: Tree, p: seq<Dir>): nat
    decreases |p|
  {
    if p == [] then 0
    else match t
      case Leaf => 0
      case Node(_, l, _, r) =>
        if p[0] == L then Offset(l, p[1..]) else Count(l) + 1 + Offset(r, p[1..])
  }

  /** In-order index of the node at `p`. */
  function Position(t: Tree, p: seq<Dir>): nat
    requires ValidPath(t, p)
  {
    Offset(t, p) + Count(Subtree(t, p).left)
  }

  lemma {:induction false} SubtreeAppend(t: Tree, p: seq<Dir>, q: seq<Dir>)
    ensures Subtree(t, p + q) == Subtree(Subtree(t, p), q)
    ensures Offset(t, p + q) == Offset(t, p) + Offset(Subtree(t, p), q)
    decreases |p|
  {
    if p == [] {
      assert p + q == q;
    } else {
      match t
      case Leaf =>
        assert (p + q) != [];
        LeafSubtree(q);
      case Node(_, l, _, r) =>
        assert (p + q)[0] == p[0] && (p + q)[1..] == p[1..] + q;
        SubtreeAppend(if p[0] == L then l else r, p[1..], q);
    }
  }

  lemma {:induction false} LeafSubtree(q: seq<Dir>)
    ensures Subtree(Leaf, q) == Leaf && Offset(Leaf, q) == 0
  {
  }

  /** Position of a node reached through a node `p`: the keys before `p`'s subtree
      plus the position inside it. */
  lemma PositionAppend(t: Tree, p: seq<Dir>, q: seq<Dir>)
    requires ValidPath(t, p + q)
    ensures ValidPath(t, p) && ValidPath(Subtree(t, p), q)
    ensures Position(t, p + q) == Offset(t, p) + Position(Subtree(t, p), q)
  {
    SubtreeAppend(t, p, q);
    if Subtree(t, p).Leaf? {
      LeafSubtree(q);
    }
  }

  /** Every prefix of a path to a node is a path to a node (an ancestor). */
  lemma PrefixValid(t: Tree, p: seq<Dir>, k: nat)
    requires ValidPath(t, p) && k <= |p|
    ensures ValidPath(t, p[..k])
  {
    assert p == p[..k] + p[k..];
    PositionAppend(t, p[..k], p[k..]);
  }

  /** The node at `p` holds the key at index `Position(t, p)` of the in-order sequence. */
  lemma {:induction false} PositionKey(t: Tree, p: seq<Dir>)
    requires ValidPath(t, p)
    ensures Position(t, p) < Count(t) && InOrder(t)[Position(t, p)] == Subtree(t, p).key
    decreases |p|
  {
    var Node(_, l, k, r) := t;
    if p == [] {
      assert InOrder(t)[Count(l)] == k;
    } else if p[0] == L {
      assert Subtree(t, p) == Subtree(l, p[1..]) && Offset(t, p) == Offset(l, p[1..]);
      PositionKey(l, p[1..]);
      assert InOrder(t)[Position(l, p[1..])] == InOrder(l)[Position(l, p[1..])];
    } else {
      assert Subtree(t, p) == Subtree(r, p[1..]) && Offset(t, p) == Count(l) + 1 + Offset(r, p[1..]);
      PositionKey(r, p[1..]);
      assert InOrder(t)[Count(l) + 1 + Position(r, p[1..])] == InOrder(r)[Position(r, p[1..])];
    }
  }
}

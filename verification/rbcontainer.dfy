/** The whole-tree operations of `BST<T>` (bst.h): the constructors, copy and move
    assignment with `copyTree`, assignment from a list of keys, `swap` and `clear`.
    Each works on the root pointer and the counter `numElements` together. */
module RbContainer {
  import opened RbTree
  import opened RbInsert

  /** The default constructor: no root, counter 0. */
  function Empty(): (r: BST)
    ensures Counted(r) && InOrder(r.root) == []
  {
    BST(Leaf, 0)
  }

  /** `BST::clear(BNode*)`: erase every node of a subtree, children before their
      parent; each erase drops the counter by one. Returns the counter afterwards. */
  function ClearCount(t: Tree, size: int): (r: int)
    ensures r == size - Count(t)
  {
    match t
    case Leaf => size
    case Node(_, l, _, rt) => ClearCount(rt, ClearCount(l, size)) - 1
  }

  /** `BST::clear()`: no root, and the counter lowered once per node erased. */
  function Clear(b: BST): (r: BST)
    ensures r.root == Leaf && r.size == b.size - Count(b.root)
    ensures Counted(b) ==> r == Empty()
  {
    BST(Leaf, ClearCount(b.root, b.size))
  }

  /** `BST::copyTree(src, dest)`: `dest` takes the shape, keys and colours of `src`.
      Existing `dest` nodes are overwritten, missing ones created, and `dest` nodes
      where `src` has none are cleared. */
  function CopyTree(src: Tree, dest: Tree): (r: Tree)
    ensures r == src
  {
    match src
    case Leaf => Leaf
    case Node(c, l, k, rt) =>
      var dl, dr := if dest.Node? then dest.left else Leaf, if dest.Node? then dest.right else Leaf;
      Node(c, CopyTree(l, dl), k, CopyTree(rt, dr))
  }

  /** `BST::operator=(const BST&)`: an empty `rhs` clears `lhs` -- without taking
      `rhs`'s counter; otherwise the nodes are copied over and the counter taken from
      `rhs`. (Nodes `copyTree` discards lower the counter before it is overwritten.) */
  function CopyAssign(lhs: BST, rhs: BST): (r: BST)
    ensures r.root == rhs.root
    ensures rhs.root.Node? ==> r == rhs
    ensures rhs.root == Leaf ==> r == Clear(lhs)
  {
    if rhs.root == Leaf then Clear(lhs)
    else BST(CopyTree(rhs.root, lhs.root), rhs.size)
  }

  /** Copy assignment between counted trees reproduces the right-hand side exactly. */
  lemma CopyAssignCopies(lhs: BST, rhs: BST)
    requires Counted(lhs) && Counted(rhs)
    ensures CopyAssign(lhs, rhs) == rhs
  {
    if rhs.root == Leaf {
      assert Clear(lhs) == Empty();
    }
  }

  /** The copy constructor: an empty tree, then copy assignment. */
  function CopyConstruct(rhs: BST): (r: BST)
    ensures Counted(rhs) ==> r == rhs
  {
    assert Counted(rhs) ==> CopyAssign(Empty(), rhs) == rhs by {
      if Counted(rhs) {
        CopyAssignCopies(Empty(), rhs);
      }
    }
    CopyAssign(Empty(), rhs)
  }

  /** `BST::swap`: exchange roots and counters. */
  function Swap(a: BST, b: BST): (r: (BST, BST))
    ensures r.0 == b && r.1 == a
  {
    (BST(b.root, b.size), BST(a.root, a.size))
  }

  /** Swapping twice restores both trees. */
  lemma SwapTwice(a: BST, b: BST)
    ensures var (x, y) := Swap(a, b); Swap(x, y) == (a, b)
  {
  }

  /** The move constructor: take `rhs`'s root and counter, leave `rhs` empty. */
  function MoveConstruct(rhs: BST): (r: (BST, BST))
    ensures r.0 == rhs && r.1 == Empty()
  {
    (BST(rhs.root, rhs.size), BST(Leaf, 0))
  }

  /** `BST::operator=(BST&&)`: clear `lhs`, then swap, so `lhs` holds `rhs`'s tree
      and `rhs` the cleared one. */
  function MoveAssign(lhs: BST, rhs: BST): (r: (BST, BST))
    ensures r.0 == rhs && r.1.root == Leaf
    ensures Counted(lhs) ==> r.1 == Empty()
  {
    Swap(Clear(lhs), rhs)
  }

  /** `BST::operator=(initializer_list)`: insert each key in turn, duplicates
      allowed, into the existing tree. */
  function AssignList(b: BST, xs: seq<int>): (r: BST)
    requires RootColor(b.root) == Black
    ensures RootColor(r.root) == Black
    ensures r.size == b.size + |xs| && Count(r.root) == Count(b.root) + |xs|
    decreases |xs|
  {
    if xs == [] then b
    else
      InsertKeepsRootBlack(b, xs[0], false);
      AssignList(Insert(b, xs[0], false).tree, xs[1..])
  }

  /** Assigning a list adds exactly its keys, each as many times as it occurs. */
  lemma {:induction false} AssignListKeys(b: BST, xs: seq<int>)
    requires RootColor(b.root) == Black
    ensures multiset(InOrder(AssignList(b, xs).root)) == multiset(InOrder(b.root)) + multiset(xs)
    decreases |xs|
  {
    if xs != [] {
      var x := xs[0];
      InsertKeepsRootBlack(b, x, false);
      var t := Insert(b, x, false).tree;
      assert multiset(InOrder(t.root)) == multiset(InOrder(b.root)) + multiset{x} by {
        InsertAddsOne(b, x, false);
      }
      AssignListKeys(t, xs[1..]);
      assert multiset(xs) == multiset{x} + multiset(xs[1..]) by {
        assert xs == [x] + xs[1..];
      }
      assert AssignList(b, xs) == AssignList(t, xs[1..]);
    }
  }

  /** Assigning a list to an ordered red-black tree leaves an ordered red-black tree. */
  lemma {:induction false} AssignListKeepsInvariants(b: BST, xs: seq<int>)
    requires IsRedBlack(b.root) && Ordered(b.root)
    ensures IsRedBlack(AssignList(b, xs).root) && Ordered(AssignList(b, xs).root)
    decreases |xs|
  {
    if xs != [] {
      InsertKeepsRootBlack(b, xs[0], false);
      InsertKeepsRedBlack(b, xs[0], false);
      InsertKeepsOrdered(b, xs[0], false);
      AssignListKeepsInvariants(Insert(b, xs[0], false).tree, xs[1..]);
    }
  }
}

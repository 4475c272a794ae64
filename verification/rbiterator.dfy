/** Walking the tree in order (bst.h): `BST::begin`, `BST::find` and the iterator's
    `operator++` / `operator--`. An iterator is a path from the root (or `End`);
    the source climbs through `pParent`, which here is dropping path elements. */
module RbIterator {
  import opened RbTree

  // ---------------------------------------------------------------------------
  // Spines and climbing
  // ---------------------------------------------------------------------------

  /** Path to the leftmost node of a non-empty subtree: the first key in order. */
  function LeftSpine(t: Tree): (p: seq<Dir>)
    requires t.Node?
    ensures ValidPath(t, p) && Position(t, p) == 0 && Subtree(t, p).left == Leaf
    decreases t
  {
    if t.left.Leaf? then []
    else
      var q := LeftSpine(t.left);
      assert ([L] + q)[1..] == q;
      [L] + q
  }

  /** Path to the rightmost node of a non-empty subtree: the last key in order. */
  function RightSpine(t: Tree): (p: seq<Dir>)
    requires t.Node?
    ensures ValidPath(t, p) && Position(t, p) == Count(t) - 1 && Subtree(t, p).right == Leaf
    decreases t
  {
    if t.right.Leaf? then []
    else
      var q := RightSpine(t.right);
      assert ([R] + q)[1..] == q;
      [R] + q
  }

  predicate AllDir(s: seq<Dir>, d: Dir)
  {
    forall i :: 0 <= i < |s| ==> s[i] == d
  }

  /** Climb while we are our parent's `d` child: drop the trailing run of `d` steps.
      What is left is empty (we climbed to the root) or ends in the other direction. */
  function StripTrailing(p: seq<Dir>, d: Dir): (q: seq<Dir>)
    ensures |q| <= |p| && q == p[..|q|] && AllDir(p[|q|..], d)
    ensures q == [] || q[|q| - 1] != d
    decreases |p|
  {
    if p != [] && p[|p| - 1] == d then
      var q := StripTrailing(p[..|p| - 1], d);
      assert p[..|p| - 1][..|q|] == p[..|q|];
      assert p[|q|..] == p[..|p| - 1][|q|..] + [d];
      q
    else p
  }

  // ---------------------------------------------------------------------------
  // operator++ and operator--
  // ---------------------------------------------------------------------------

  /** `iterator::operator++`: with a right child, the leftmost node of the right
      subtree; otherwise climb past every parent we are the right child of and stop at
      the next parent; past the root, `End`. `End` stays `End`. */
  function Increment(t: Tree, it: Iter): (r: Iter)
    requires it.At? ==> ValidPath(t, it.path)
    ensures r.At? ==> ValidPath(t, r.path)
  {
    match it
    case End => End
    case At(p) =>
      var n := Subtree(t, p);
      if n.right.Node? then
        var q := p + [R] + LeftSpine(n.right);
        StepDown(t, p, R);
        SubtreeAppend(t, p + [R], LeftSpine(n.right));
        At(q)
      else
        var q := StripTrailing(p, R);
        if q == [] then End
        else
          PrefixValid(t, p, |q| - 1);
          assert p[..|q| - 1] == q[..|q| - 1];
          At(q[..|q| - 1])
  }

  /** `iterator::operator--`, the mirror image of `Increment`. */
  function Decrement(t: Tree, it: Iter): (r: Iter)
    requires it.At? ==> ValidPath(t, it.path)
    ensures r.At? ==> ValidPath(t, r.path)
  {
    match it
    case End => End
    case At(p) =>
      var n := Subtree(t, p);
      if n.left.Node? then
        var q := p + [L] + RightSpine(n.left);
        StepDown(t, p, L);
        SubtreeAppend(t, p + [L], RightSpine(n.left));
        At(q)
      else
        var q := StripTrailing(p, L);
        if q == [] then End
        else
          PrefixValid(t, p, |q| - 1);
          assert p[..|q| - 1] == q[..|q| - 1];
          At(q[..|q| - 1])
  }

  /** One step down from a node. */
  lemma StepDown(t: Tree, p: seq<Dir>, d: Dir)
    requires ValidPath(t, p)
    ensures Subtree(t, p + [d]) == (if d == L then Subtree(t, p).left else Subtree(t, p).right)
    ensures Offset(t, p + [d]) == Offset(t, p) + (if d == L then 0 else Count(Subtree(t, p).left) + 1)
  {
    SubtreeAppend(t, p, [d]);
    assert [d][1..] == [];
  }

  /** A node reached from the root by right steps only, with no right child, is the
      last key in order. */
  lemma {:induction false} RightmostIsLast(t: Tree, p: seq<Dir>)
    requires ValidPath(t, p) && AllDir(p, R) && Subtree(t, p).right == Leaf
    ensures Position(t, p) == Count(t) - 1
    decreases |p|
  {
    if p != [] {
      assert Subtree(t, p) == Subtree(t.right, p[1..]) && Offset(t, p) == Count(t.left) + 1 + Offset(t.right, p[1..]);
      RightmostIsLast(t.right, p[1..]);
    }
  }

  lemma {:induction false} LeftmostIsFirst(t: Tree, p: seq<Dir>)
    requires ValidPath(t, p) && AllDir(p, L) && Subtree(t, p).left == Leaf
    ensures Position(t, p) == 0
    decreases |p|
  {
    if p != [] {
      assert Subtree(t, p) == Subtree(t.left, p[1..]) && Offset(t, p) == Offset(t.left, p[1..]);
      LeftmostIsFirst(t.left, p[1..]);
    }
  }

  /** `++` moves to the next key in order, and reaches `End` exactly from the last. */
  lemma IncrementIsSuccessor(t: Tree, p: seq<Dir>)
    requires ValidPath(t, p)
    ensures var r := Increment(t, At(p));
            && (r.End? <==> Position(t, p) == Count(t) - 1)
            && (r.At? ==> Position(t, r.path) == Position(t, p) + 1)
  {
    var n := Subtree(t, p);
    var r := Increment(t, At(p));
    if n.right.Node? {
      StepDown(t, p, R);
      SubtreeAppend(t, p + [R], LeftSpine(n.right));
    } else {
      var q := StripTrailing(p, R);
      if q == [] {
        RightmostIsLast(t, p);
      } else {
        var a := q[..|q| - 1];
        assert q == a + [L];
        PrefixValid(t, p, |a|);
        assert p[..|a|] == a;
        StepDown(t, a, L);
        assert p == q + p[|q|..];
        SubtreeAppend(t, q, p[|q|..]);
        RightmostIsLast(Subtree(t, q), p[|q|..]);
      }
    }
    if r.At? {
      PositionKey(t, r.path);
    }
  }

  /** `--` moves to the previous key in order, and reaches `End` exactly from the first. */
  lemma DecrementIsPredecessor(t: Tree, p: seq<Dir>)
    requires ValidPath(t, p)
    ensures var r := Decrement(t, At(p));
            && (r.End? <==> Position(t, p) == 0)
            && (r.At? ==> Position(t, r.path) + 1 == Position(t, p))
  {
    var n := Subtree(t, p);
    if n.left.Node? {
      StepDown(t, p, L);
      SubtreeAppend(t, p + [L], RightSpine(n.left));
    } else {
      var q := StripTrailing(p, L);
      if q == [] {
        LeftmostIsFirst(t, p);
      } else {
        var a := q[..|q| - 1];
        assert q == a + [R];
        PrefixValid(t, p, |a|);
        assert p[..|a|] == a;
        StepDown(t, a, R);
        assert p == q + p[|q|..];
        SubtreeAppend(t, q, p[|q|..]);
        LeftmostIsFirst(Subtree(t, q), p[|q|..]);
      }
    }
  }

  // ---------------------------------------------------------------------------
  // operator++ and operator-- as bst.h writes them
  // ---------------------------------------------------------------------------

  /** `operator++` branch by branch as bst.h:1075-1110 writes it. A node without a
      right child that is neither a left nor a right child -- the root -- falls
      through every branch and is returned unchanged. */
  function IncrementAsWritten(t: Tree, it: Iter): (r: Iter)
    requires it.At? ==> ValidPath(t, it.path)
  {
    match it
    case End => End
    case At(p) =>
      var n := Subtree(t, p);
      if n.right.Node? then At(p + [R] + LeftSpine(n.right))
      else if p != [] && p[|p| - 1] == L then At(p[..|p| - 1])
      else if p != [] then
        var q := StripTrailing(p, R);
        if q == [] then End else At(q[..|q| - 1])
      else it
  }

  /** Written out, `++` agrees with the successor step everywhere except on a root
      without a right child, where it stays put instead of reaching `End`. */
  lemma IncrementAsWrittenAgrees(t: Tree, it: Iter)
    requires it.At? ==> ValidPath(t, it.path)
    ensures IncrementAsWritten(t, it) == Increment(t, it) <==>
              !(it == At([]) && t.right.Leaf?)
  {
    if it == At([]) && t.right.Leaf? {
      assert StripTrailing([], R) == [];
    }
  }

  /** On a one-node tree, `++begin()` is `begin()` again: a loop from `begin()` to
      `end()` never terminates. */
  lemma IncrementAsWrittenStuck()
    ensures var t := Node(Black, Leaf, 1, Leaf);
            && IncrementAsWritten(t, At([])) == At([])
            && Increment(t, At([])) == End
  {
    assert StripTrailing([], R) == [];
  }

  /** `operator--` branch by branch as bst.h:1118-1148 writes it. A node without a
      left child reads `pParent->pRight` without checking for a parent, so the root
      without a left child dereferences null: `None`. */
  function DecrementAsWritten(t: Tree, it: Iter): (r: Option<Iter>)
    requires it.At? ==> ValidPath(t, it.path)
  {
    match it
    case End => Some(End)
    case At(p) =>
      var n := Subtree(t, p);
      if n.left.Node? then Some(At(p + [L] + RightSpine(n.left)))
      else if p == [] then None
      else if p[|p| - 1] == R then Some(At(p[..|p| - 1]))
      else
        var q := StripTrailing(p, L);
        Some(if q == [] then End else At(q[..|q| - 1]))
  }

  /** Written out, `--` agrees with the predecessor step except on a root without a
      left child, where it fails. */
  lemma DecrementAsWrittenAgrees(t: Tree, it: Iter)
    requires it.At? ==> ValidPath(t, it.path)
    ensures DecrementAsWritten(t, it) == Some(Decrement(t, it)) <==>
              !(it == At([]) && t.left.Leaf?)
  {
  }

  /** On a one-node tree, `--begin()` dereferences null instead of giving `End`. */
  lemma DecrementAsWrittenFails()
    ensures var t := Node(Black, Leaf, 1, Leaf);
            && DecrementAsWritten(t, At([])).None?
            && Decrement(t, At([])) == End
  {
    assert StripTrailing([], L) == [];
  }

  // ---------------------------------------------------------------------------
  // begin() and iteration
  // ---------------------------------------------------------------------------

  /** `BST::begin`: `End` when the counter says empty, else the leftmost node. The
      source walks from the root without checking it, so a non-zero counter needs a
      root. */
  function Begin(b: BST): (r: Iter)
    requires b.size != 0 ==> b.root.Node?
    ensures r.At? ==> ValidPath(b.root, r.path) && Position(b.root, r.path) == 0
    ensures Counted(b) ==> (r.End? <==> b.root == Leaf)
  {
    if b.size == 0 then End else At(LeftSpine(b.root))
  }

  /** `++` applied `k` times. */
  function Advance(t: Tree, it: Iter, k: nat): (r: Iter)
    requires it.At? ==> ValidPath(t, it.path)
    ensures r.At? ==> ValidPath(t, r.path)
    decreases k
  {
    if k == 0 then it else Advance(t, Increment(t, it), k - 1)
  }

  /** Starting at `begin()`, the `k`-th `++` lands on in-order position `k`, and the
      `Count`-th on `End`. */
  lemma {:induction false} AdvanceFromBegin(b: BST, k: nat)
    requires Counted(b) && k <= b.size
    ensures var it := Advance(b.root, Begin(b), k);
            && (k < b.size ==> it.At? && Position(b.root, it.path) == k)
            && (k == b.size ==> it.End?)
  {
    if k > 0 {
      AdvanceFromBegin(b, k - 1);
      var it := Advance(b.root, Begin(b), k - 1);
      IncrementIsSuccessor(b.root, it.path);
      AdvanceStep(b.root, Begin(b), k - 1);
    }
  }

  lemma {:induction false} AdvanceStep(t: Tree, it: Iter, k: nat)
    requires it.At? ==> ValidPath(t, it.path)
    ensures Advance(t, it, k + 1) == Increment(t, Advance(t, it, k))
    decreases k
  {
    if k > 0 {
      AdvanceStep(t, Increment(t, it), k - 1);
    }
  }

  /** Iterating an ordered tree from `begin()` visits its keys in non-decreasing order. */
  lemma IterationIsSorted(b: BST, j: nat, k: nat)
    requires Counted(b) && Ordered(b.root) && j <= k < b.size
    ensures var a, c := Advance(b.root, Begin(b), j), Advance(b.root, Begin(b), k);
            a.At? && c.At? && Subtree(b.root, a.path).key <= Subtree(b.root, c.path).key
  {
    AdvanceFromBegin(b, j);
    AdvanceFromBegin(b, k);
    var a, c := Advance(b.root, Begin(b), j), Advance(b.root, Begin(b), k);
    PositionKey(b.root, a.path);
    PositionKey(b.root, c.path);
    OrderedIffSorted(b.root);
  }

  // ---------------------------------------------------------------------------
  // find()
  // ---------------------------------------------------------------------------

  /** The descent of `BST::find`: stop on `==`, go left on `<`, otherwise right. */
  function FindPath(t: Tree, x: int): (r: Option<seq<Dir>>)
    ensures r.Some? ==> ValidPath(t, r.value) && Subtree(t, r.value).key == x
    decreases t
  {
    match t
    case Leaf => None
    case Node(_, l, k, rt) =>
      if x == k then Some([])
      else if x < k then
        match FindPath(l, x)
        case None => None
        case Some(q) => assert ([L] + q)[1..] == q; Some([L] + q)
      else
        match FindPath(rt, x)
        case None => None
        case Some(q) => assert ([R] + q)[1..] == q; Some([R] + q)
  }

  /** `BST::find`: an iterator to a node holding `x`, or `end()`. */
  function Find(b: BST, x: int): (r: Iter)
    ensures r.At? ==> ValidPath(b.root, r.path) && Subtree(b.root, r.path).key == x
  {
    match FindPath(b.root, x)
    case None => End
    case Some(p) => At(p)
  }

  /** In an ordered tree `find` misses only keys the tree does not hold. */
  lemma {:induction false} FindPathComplete(t: Tree, x: int)
    requires Ordered(t)
    ensures FindPath(t, x).None? <==> x !in InOrder(t)
    decreases t
  {
    match t
    case Leaf =>
    case Node(_, l, k, rt) =>
      FindPathComplete(l, x);
      FindPathComplete(rt, x);
      if x != k && x < k {
        assert x !in InOrder(rt);
      } else if x != k {
        assert x !in InOrder(l);
      }
      if FindPath(t, x).Some? {
        var p := FindPath(t, x).value;
        PositionKey(t, p);
      }
  }

  lemma FindComplete(b: BST, x: int)
    requires Ordered(b.root)
    ensures Find(b, x).End? <==> x !in InOrder(b.root)
  {
    FindPathComplete(b.root, x);
  }
}

/** `BST::erase` (bst.h): unlink one node, splicing in its in-order successor when it
    has two children, and return an iterator to the node that followed it. The
    source never rebalances after a removal; neither does the model. */
module RbErase {
  import opened RbTree
  import opened RbZipper
  import opened RbIterator

  /** The tree after an erase and the iterator `erase` returns. */
  datatype EraseResult = EraseResult(tree: BST, next: Iter)

  /** Unlink the leftmost node of a non-empty subtree: its colour and key, and the
      subtree left behind, where the leftmost node's right child takes its place. */
  function DetachMin(t: Tree): (r: (Color, int, Tree))
    requires t.Node?
    ensures Count(r.2) + 1 == Count(t)
    decreases t
  {
    if t.left.Leaf? then (t.color, t.key, t.right)
    else
      var (c, k, rest) := DetachMin(t.left);
      (c, k, Node(t.color, rest, t.key, t.right))
  }

  /** The detached key is the first key in order; the rest keep their order. */
  lemma {:induction false} DetachMinKeys(t: Tree)
    requires t.Node?
    ensures [DetachMin(t).1] + InOrder(DetachMin(t).2) == InOrder(t)
    decreases t
  {
    if t.left.Node? {
      DetachMinKeys(t.left);
      var (c, k, rest) := DetachMin(t.left);
      assert InOrder(Node(t.color, rest, t.key, t.right)) == InOrder(rest) + [t.key] + InOrder(t.right);
    }
  }

  /** What replaces an erased node with children `l` and `r`: nothing, the only
      child, or the successor (leftmost of `r`) with its own colour. */
  function Splice(l: Tree, r: Tree): Tree
  {
    if l.Leaf? then r
    else if r.Leaf? then l
    else
      var (c, k, rest) := DetachMin(r);
      Node(c, l, k, rest)
  }

  lemma SpliceKeys(l: Tree, r: Tree)
    ensures InOrder(Splice(l, r)) == InOrder(l) + InOrder(r)
  {
    if l.Node? && r.Node? {
      DetachMinKeys(r);
      var (c, k, rest) := DetachMin(r);
      assert InOrder(Node(c, l, k, rest)) == InOrder(l) + ([k] + InOrder(rest));
    }
  }

  /** `BST::erase`: `End` erases nothing. Otherwise the successor is found first
      (`++it`), the counter drops by one, and the node is unlinked: a leaf simply
      goes; a node with one child is replaced by that child; a node with two children
      is replaced by its successor, which takes over both children. The returned
      iterator is the successor node wherever it now sits.
      The root is treated like every other node here (see `EraseAsWritten`), except
      that the node taking the root's place is painted black, as a root must be. */
  function Erase(b: BST, it: Iter): (r: EraseResult)
    requires it.At? ==> ValidPath(b.root, it.path)
    ensures r.tree.size == b.size - (if it.At? then 1 else 0)
    ensures it.End? ==> r == EraseResult(b, End)
  {
    match it
    case End => EraseResult(b, End)
    case At(p) =>
      var (n, ctx) := Unzip(b.root, p);
      var spliced := Plug(Splice(n.left, n.right), ctx);
      var tree := BST(if p == [] then Paint(spliced, Black) else spliced, b.size - 1);
      if n.right.Leaf? then
        // The successor is an ancestor (or there is none); its path is unchanged.
        EraseResult(tree, Increment(b.root, it))
      else if n.left.Leaf? then
        // The successor is the leftmost node of the right child, now one level up.
        EraseResult(tree, At(p + LeftSpine(n.right)))
      else
        // The successor now sits where the erased node was.
        EraseResult(tree, At(p))
  }

  /** `BST::erase` as bst.h:579-583 writes it: erasing the root empties the tree
      whatever its children, while the counter drops by one only. */
  function EraseAsWritten(b: BST, it: Iter): (r: EraseResult)
    requires it.At? ==> ValidPath(b.root, it.path)
    ensures it == At([]) ==> r.tree.root == Leaf && r.next == End
    ensures it != At([]) ==> r == Erase(b, it)
  {
    if it == At([]) then EraseResult(BST(Leaf, b.size - 1), End) else Erase(b, it)
  }

  // ---------------------------------------------------------------------------
  // Keys after an erase
  // ---------------------------------------------------------------------------

  lemma DropAt(s: seq<int>, i: int, x: seq<int>, y: seq<int>, k: int, z: seq<int>, w: seq<int>)
    requires s == x + (y + [k] + z) + w && i == |x| + |y|
    ensures s[..i] + s[i + 1..] == x + (y + z) + w
  {
    assert s[..i] == x + y;
    assert s[i + 1..] == z + w;
  }

  /** The tree `erase` leaves: the node's splice plugged back into its frames, with
      only the colour of a new root possibly changed. */
  lemma EraseShape(b: BST, p: seq<Dir>)
    requires ValidPath(b.root, p)
    ensures var u := Unzip(b.root, p);
            var t := Plug(Splice(u.0.left, u.0.right), u.1);
            Erase(b, At(p)).tree.root == (if p == [] then Paint(t, Black) else t)
  {
  }

  /** Recolouring the root moves no node: every path addresses the same position. */
  lemma PaintKeepsPositions(t: Tree, c: Color, q: seq<Dir>)
    ensures ValidPath(Paint(t, c), q) <==> ValidPath(t, q)
    ensures ValidPath(t, q) ==> Position(Paint(t, c), q) == Position(t, q)
  {
    if q != [] && t.Node? {
      assert Subtree(Paint(t, c), q) == Subtree(t, q);
      assert Offset(Paint(t, c), q) == Offset(t, q);
    }
  }

  /** A black root stays black: off the root the top node is untouched, and a node
      taking the root's place is painted black. So `insert`'s precondition survives
      an erase. */
  lemma EraseKeepsRootBlack(b: BST, it: Iter)
    requires it.At? ==> ValidPath(b.root, it.path)
    requires RootColor(b.root) == Black
    ensures RootColor(Erase(b, it).tree.root) == Black
  {
    if it.At? && it.path != [] {
      var u := Unzip(b.root, it.path);
      PlugRootColor(u.0, u.1);
      PlugRootColor(Splice(u.0.left, u.0.right), u.1);
    }
  }

  /** Plugging the splice back in removes exactly the key at the node's position. */
  lemma SpliceRemovesKey(t: Tree, p: seq<Dir>)
    requires ValidPath(t, p)
    ensures var u, s, i := Unzip(t, p), InOrder(t), Position(t, p);
            i < |s| && InOrder(Plug(Splice(u.0.left, u.0.right), u.1)) == s[..i] + s[i + 1..]
  {
    var u := Unzip(t, p);
    UnzipPosition(t, p);
    DropNode(t, u.0, u.1, Position(t, p));
  }

  /** Splicing out the node `n` at the hole of `ctx` removes the key at its index. */
  lemma DropNode(t: Tree, n: Tree, ctx: seq<Frame>, i: nat)
    requires n.Node? && Plug(n, ctx) == t && i == |Before(ctx)| + Count(n.left)
    ensures var s := InOrder(t);
            i < |s| && InOrder(Plug(Splice(n.left, n.right), ctx)) == s[..i] + s[i + 1..]
  {
    var nl, nr := InOrder(n.left), InOrder(n.right);
    var x, w := Before(ctx), After(ctx);
    assert InOrder(t) == x + (nl + [n.key] + nr) + w by {
      PlugInOrder(n, ctx);
      assert InOrder(n) == nl + [n.key] + nr;
    }
    assert InOrder(Plug(Splice(n.left, n.right), ctx)) == x + (nl + nr) + w by {
      PlugInOrder(Splice(n.left, n.right), ctx);
      SpliceKeys(n.left, n.right);
    }
    DropAt(InOrder(t), i, x, nl, n.key, nr, w);
  }

  /** Erasing the node at in-order position `i` removes exactly the key at index `i`. */
  lemma EraseRemovesKey(b: BST, p: seq<Dir>)
    requires ValidPath(b.root, p)
    ensures var s, i := InOrder(b.root), Position(b.root, p);
            i < |s| && InOrder(Erase(b, At(p)).tree.root) == s[..i] + s[i + 1..]
  {
    EraseShape(b, p);
    SpliceRemovesKey(b.root, p);
  }

  /** Removing one key from a sorted sequence leaves it sorted. */
  lemma SortedDrop(s: seq<int>, i: int)
    requires Sorted(s) && 0 <= i < |s|
    ensures Sorted(s[..i] + s[i + 1..])
  {
    var u := s[..i] + s[i + 1..];
    forall a, c | 0 <= a < c < |u| ensures u[a] <= u[c] {
      var a', c' := if a < i then a else a + 1, if c < i then c else c + 1;
      assert u[a] == s[a'] && u[c] == s[c'];
    }
  }

  /** Erase keeps an ordered tree ordered. */
  lemma EraseKeepsOrdered(b: BST, p: seq<Dir>)
    requires ValidPath(b.root, p) && Ordered(b.root)
    ensures Ordered(Erase(b, At(p)).tree.root)
  {
    EraseRemovesKey(b, p);
    OrderedIffSorted(b.root);
    PositionKey(b.root, p);
    SortedDrop(InOrder(b.root), Position(b.root, p));
    OrderedIffSorted(Erase(b, At(p)).tree.root);
  }

  /** A counted tree stays counted. */
  lemma EraseKeepsCounted(b: BST, p: seq<Dir>)
    requires ValidPath(b.root, p) && Counted(b)
    ensures Counted(Erase(b, At(p)).tree)
  {
    EraseRemovesKey(b, p);
    PositionKey(b.root, p);
  }

  // ---------------------------------------------------------------------------
  // The iterator erase returns
  // ---------------------------------------------------------------------------

  lemma {:induction false} CtxPathIndex(ctx: seq<Frame>, j: int)
    requires 0 <= j < |ctx|
    ensures CtxPath(ctx)[j] == ctx[|ctx| - 1 - j].dir
    decreases |ctx|
  {
    if j < |ctx| - 1 {
      CtxPathIndex(ctx[1..], j);
    }
  }

  lemma {:induction false} AfterRightFrames(ctx: seq<Frame>)
    requires forall j :: 0 <= j < |ctx| ==> ctx[j].dir == R
    ensures After(ctx) == []
    decreases |ctx|
  {
    if ctx != [] {
      AfterRightFrames(ctx[1..]);
    }
  }

  /** The nearest ancestor whose left subtree holds the hole: its in-order position
      counts the keys before the hole and those of the hole's occupant. */
  lemma AncestorPosition(x: Tree, ctx: seq<Frame>, k: int)
    requires 0 <= k < |ctx| && ctx[k].dir == L
    requires forall j :: 0 <= j < k ==> ctx[j].dir == R
    ensures ValidPath(Plug(x, ctx), CtxPath(ctx[k + 1..]))
    ensures Position(Plug(x, ctx), CtxPath(ctx[k + 1..])) == |Before(ctx)| + Count(x)
  {
    var lower, upper := ctx[..k], ctx[k + 1..];
    var y := Plug(x, lower);
    var a := Fill(ctx[k], y);
    assert ctx == lower + ([ctx[k]] + upper);
    PlugAppend(x, lower, [ctx[k]] + upper);
    assert Plug(y, [ctx[k]] + upper) == Plug(a, upper);
    PlugPosition(a, upper, []);
    assert CtxPath(upper) + [] == CtxPath(upper);
    PlugInOrder(x, lower);
    AfterRightFrames(lower);
    BeforeAppend(lower, [ctx[k]] + upper);
    assert Before([ctx[k]] + upper) == Before(upper);
  }

  lemma ClimbPrefix(ctx: seq<Frame>, k: int)
    requires 0 <= k < |ctx|
    ensures CtxPath(ctx)[..|ctx| - k - 1] == CtxPath(ctx[k + 1..])
  {
    assert ctx == ctx[..k + 1] + ctx[k + 1..];
    CtxPathAppend(ctx[..k + 1], ctx[k + 1..]);
  }

  /** Climbing from a node without a right child: `++` stops at the nearest
      ancestor holding the hole in its left subtree -- read on the frames, the first
      frame whose hole is on the left. */
  lemma ClimbTarget(x: Tree, ctx: seq<Frame>)
    requires StripTrailing(CtxPath(ctx), R) != []
    ensures var q := StripTrailing(CtxPath(ctx), R);
            && ValidPath(Plug(x, ctx), q[..|q| - 1])
            && Position(Plug(x, ctx), q[..|q| - 1]) == |Before(ctx)| + Count(x)
  {
    var p := CtxPath(ctx);
    var q := StripTrailing(p, R);
    var k := |ctx| - |q|;
    CtxPathIndex(ctx, |q| - 1);
    assert p[|q| - 1] == L;
    forall j | 0 <= j < k ensures ctx[j].dir == R {
      CtxPathIndex(ctx, |ctx| - 1 - j);
      assert p[|q|..][|ctx| - 1 - j - |q|] == R;
    }
    ClimbPrefix(ctx, k);
    assert q[..|q| - 1] == p[..|q| - 1];
    AncestorPosition(x, ctx, k);
  }

  /** Which node `erase` hands back, case by case. */
  lemma EraseNext(b: BST, p: seq<Dir>)
    requires ValidPath(b.root, p)
    ensures var n := Subtree(b.root, p);
            Erase(b, At(p)).next ==
              if n.right.Leaf? then Increment(b.root, At(p))
              else if n.left.Leaf? then At(p + LeftSpine(n.right))
              else At(p)
  {
  }

  /** The node `erase` sits at in-order position `|Before| + Count(left)`. */
  lemma UnzipPosition(t: Tree, p: seq<Dir>)
    requires ValidPath(t, p)
    ensures var u := Unzip(t, p);
            Position(t, p) == |Before(u.1)| + Count(u.0.left) && Position(t, p) < Count(t)
  {
    var u := Unzip(t, p);
    PlugPosition(u.0, u.1, []);
    assert CtxPath(u.1) + [] == p;
    PositionKey(t, p);
  }

  /** Where the successor of the unlinked node sits after the splice, and its position. */
  lemma SpliceSuccessor(t: Tree, p: seq<Dir>)
    requires ValidPath(t, p)
    ensures var u := Unzip(t, p);
            var n, nt, i := u.0, Plug(Splice(u.0.left, u.0.right), u.1), Position(t, p);
            && (n.right.Leaf? ==>
                  var r := Increment(t, At(p));
                  && (r.End? <==> i == Count(t) - 1)
                  && (r.At? ==> ValidPath(nt, r.path) && Position(nt, r.path) == i))
            && (n.right.Node? && n.left.Leaf? ==>
                  ValidPath(nt, p + LeftSpine(n.right)) && Position(nt, p + LeftSpine(n.right)) == i && i < Count(t) - 1)
            && (n.right.Node? && n.left.Node? ==>
                  ValidPath(nt, p) && Position(nt, p) == i && i < Count(t) - 1)
  {
    var u := Unzip(t, p);
    var n, ctx := u.0, u.1;
    var x := Splice(n.left, n.right);
    UnzipPosition(t, p);
    PlugInOrder(n, ctx);
    if n.right.Leaf? {
      IncrementIsSuccessor(t, p);
      if StripTrailing(p, R) != [] {
        ClimbTarget(x, ctx);
      }
    } else if n.left.Leaf? {
      PlugPosition(n.right, ctx, LeftSpine(n.right));
    } else {
      PlugPosition(x, ctx, []);
      assert CtxPath(ctx) + [] == p;
    }
  }

  /** The iterator `erase` returns addresses the erased node's in-order successor in
      the new tree -- the key that followed it -- and is `End` exactly when the last
      key was erased. */
  lemma EraseReturnsSuccessor(b: BST, p: seq<Dir>)
    requires ValidPath(b.root, p)
    ensures var r, i := Erase(b, At(p)), Position(b.root, p);
            && (r.next.End? <==> i == Count(b.root) - 1)
            && (r.next.At? ==> ValidPath(r.tree.root, r.next.path) && Position(r.tree.root, r.next.path) == i)
  {
    EraseShape(b, p);
    EraseNext(b, p);
    SpliceSuccessor(b.root, p);
    var r := Erase(b, At(p));
    if p == [] && r.next.At? {
      var u := Unzip(b.root, p);
      PaintKeepsPositions(Plug(Splice(u.0.left, u.0.right), u.1), Black, r.next.path);
    }
  }

  /** Erase does not rebalance: removing a black leaf can leave the black heights
      unequal, so the red-black rules need not survive an erase. */
  lemma EraseCanBreakRedBlack()
    ensures var t := Node(Black, Node(Black, Leaf, 1, Leaf), 2, Node(Black, Leaf, 3, Leaf));
            && IsRedBlack(t) && Ordered(t)
            && !IsRedBlack(Erase(BST(t, 3), At([L])).tree.root)
  {
    var t := Node(Black, Node(Black, Leaf, 1, Leaf), 2, Node(Black, Leaf, 3, Leaf));
    var fr := Frame(L, Black, 2, Node(Black, Leaf, 3, Leaf));
    assert Unzip(t, [L]).1 == [fr];
    EraseShape(BST(t, 3), [L]);
    assert Plug(Leaf, [fr]) == Fill(fr, Leaf);
  }

  // ---------------------------------------------------------------------------
  // Erasing the root as written
  // ---------------------------------------------------------------------------

  /** As written, erasing the root of a three-node tree loses all three keys while the
      counter says two remain. */
  lemma EraseRootAsWrittenLosesKeys()
    ensures var b := BST(Node(Black, Node(Red, Leaf, 1, Leaf), 2, Node(Red, Leaf, 3, Leaf)), 3);
            && Counted(b)
            && InOrder(EraseAsWritten(b, At([])).tree.root) == []
            && EraseAsWritten(b, At([])).tree.size == 2
  {
  }

  /** The corrected erase of the root keeps the other keys and the count. */
  lemma EraseRootKeepsOthers(b: BST)
    requires b.root.Node? && Counted(b)
    ensures var s := InOrder(b.root);
            && InOrder(Erase(b, At([])).tree.root) == s[..Count(b.root.left)] + s[Count(b.root.left) + 1..]
            && Counted(Erase(b, At([])).tree)
  {
    EraseRemovesKey(b, []);
    EraseKeepsCounted(b, []);
  }
}

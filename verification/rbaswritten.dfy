/** `BNode::balance` and the iterator `BST::insert` returns, as bst.h writes them
    where they differ from `RbInsert`'s corrected versions: the rotations relink and
    re-root through raw pointers, and `insert` reads the new node back through its
    parent's child pointer after the rotations have changed it. */
module RbAsWritten {
  import opened RbTree
  import opened RbZipper
  import opened RbInsert

  /** `balance` as written. `None` when the rotation at the root copies the new top
      node over the root node (`*root = *pParent`, `*root = *this`), which then lists
      itself as one of its own children: the tree reached from the root is no longer
      a finite tree.
      - Case 4a at the root does not re-root at all: the tree's root pointer still
        holds the old grandparent, which now only has its new children.
      - Below the root, the great-grandparent's side is read with
        `pGranny->isLeftChild()` after the grandparent was re-parented, so 4a and 4c
        always relink to its right and 4b and 4d always to its left. On the wrong
        side the old grandparent stays linked where it was and the great-grandparent's
        other subtree is overwritten. */
  function BalanceAsWritten(f: Tree, ctx: seq<Frame>): Option<Tree>
    requires f.Node? && RootFrameBlack(ctx)
    decreases |ctx|
  {
    if ctx == [] then Some(f.(color := Black))
    else if ctx[0].color == Black then Some(Plug(f, ctx))
    else
      var p, g := ctx[0], ctx[1];
      if g.sibling.Node? && g.sibling.color == Red && g.color == Black then
        BalanceAsWritten(Recolor(f, p, g), ctx[2..])
      else if g.color == Black then
        var top := Rotate(f, p, g);
        var oldG := if g.dir == L then top.right else top.left;
        if |ctx| == 2 then
          if p.dir == L && g.dir == L then Some(oldG) else None
        else
          var gg := ctx[2];
          if gg.dir != g.dir then Some(Plug(top, ctx[2..]))
          else
            var ggNode := if g.dir == L then Node(gg.color, oldG, gg.key, top) else Node(gg.color, top, gg.key, oldG);
            Some(Plug(ggNode, ctx[3..]))
      else Some(Plug(f, ctx))
  }

  /** Without a rotation the written fix-up is the corrected one. */
  lemma {:induction false} AsWrittenAgreesWithoutRotation(f: Tree, ctx: seq<Frame>)
    requires f.Node? && RootFrameBlack(ctx) && NoRotation(f, ctx)
    ensures BalanceAsWritten(f, ctx) == Some(Balance(f, ctx, []).0)
    decreases |ctx|
  {
    if ctx != [] && ctx[0].color == Red {
      var p, g := ctx[0], ctx[1];
      if g.sibling.Node? && g.sibling.color == Red && g.color == Black {
        var f' := Recolor(f, p, g);
        assert NoRotation(f', ctx[2..]);
        AsWrittenAgreesWithoutRotation(f', ctx[2..]);
        BalancePathIrrelevant(f', ctx[2..], [g.dir, p.dir] + []);
        assert BalanceAsWritten(f, ctx) == BalanceAsWritten(f', ctx[2..]);
        assert Balance(f, ctx, []) == Balance(f', ctx[2..], [g.dir, p.dir] + []);
      } else {
        assert g.color == Red;
        assert Balance(f, ctx, []).0 == Plug(f, ctx);
      }
    }
  }

  /** The fix-up never reaches case 4: every red parent on the way up has a red aunt
      under a black grandparent, or a red grandparent. */
  predicate NoRotation(f: Tree, ctx: seq<Frame>)
    requires f.Node? && RootFrameBlack(ctx)
    decreases |ctx|
  {
    if ctx == [] || ctx[0].color == Black then true
    else
      var p, g := ctx[0], ctx[1];
      if g.sibling.Node? && g.sibling.color == Red && g.color == Black then NoRotation(Recolor(f, p, g), ctx[2..])
      else g.color != Black
  }

  /** The tree `Balance` builds does not depend on the tracked path. */
  lemma {:induction false} BalancePathIrrelevant(f: Tree, ctx: seq<Frame>, m: seq<Dir>)
    requires f.Node? && RootFrameBlack(ctx)
    ensures Balance(f, ctx, m).0 == Balance(f, ctx, []).0
    decreases |ctx|
  {
    if ctx != [] && ctx[0].color == Red {
      var p, g := ctx[0], ctx[1];
      if g.sibling.Node? && g.sibling.color == Red && g.color == Black {
        var f' := Recolor(f, p, g);
        BalancePathIrrelevant(f', ctx[2..], [g.dir, p.dir] + m);
        BalancePathIrrelevant(f', ctx[2..], [g.dir, p.dir] + []);
        assert Balance(f, ctx, m) == Balance(f', ctx[2..], [g.dir, p.dir] + m);
        assert Balance(f, ctx, []) == Balance(f', ctx[2..], [g.dir, p.dir] + []);
      }
    }
  }

  /** Inserting 1 into the tree 3 (black) with left child 2 (red): case 4a at the root.
      As written the root pointer keeps the old grandparent, so the tree holds only
      the key 3, and red; corrected, all three keys remain under a black root. */
  lemma Case4aAtRootLosesKeys()
    ensures var f, ctx := Node(Red, Leaf, 1, Leaf), [Frame(L, Red, 2, Leaf), Frame(L, Black, 3, Leaf)];
            && BalanceAsWritten(f, ctx) == Some(Node(Red, Leaf, 3, Leaf))
            && InOrder(Plug(f, ctx)) == [1, 2, 3]
            && InOrder(Balance(f, ctx, []).0) == [1, 2, 3]
            && IsRedBlack(Balance(f, ctx, []).0)
  {
    var f, ctx := Node(Red, Leaf, 1, Leaf), [Frame(L, Red, 2, Leaf), Frame(L, Black, 3, Leaf)];
    var t := Node(Black, f, 2, Node(Red, Leaf, 3, Leaf));
    assert ctx[2..] == [];
    assert Plug(f, ctx) == Node(Black, Node(Red, f, 2, Leaf), 3, Leaf);
    assert Rotate(f, ctx[0], ctx[1]) == t;
    assert Balance(f, ctx, []).0 == t;
    assert InOrder(t) == [1, 2, 3];
    assert BlackHeight(t) == 1;
  }

  /** Inserting 3 into the tree 1 (black) with right child 2 (red): case 4b at the
      root. As written the root node is overwritten with the parent's contents,
      including its left link -- to the root node itself. */
  lemma Case4bAtRootMakesCycle()
    ensures var f, ctx := Node(Red, Leaf, 3, Leaf), [Frame(R, Red, 2, Leaf), Frame(R, Black, 1, Leaf)];
            && BalanceAsWritten(f, ctx).None?
            && InOrder(Balance(f, ctx, []).0) == [1, 2, 3]
            && IsRedBlack(Balance(f, ctx, []).0)
  {
    var f, ctx := Node(Red, Leaf, 3, Leaf), [Frame(R, Red, 2, Leaf), Frame(R, Black, 1, Leaf)];
    var t := Node(Black, Node(Red, Leaf, 1, Leaf), 2, f);
    assert ctx[2..] == [];
    assert Rotate(f, ctx[0], ctx[1]) == t;
    assert Balance(f, ctx, []).0 == t;
    assert InOrder(t) == [1, 2, 3];
    assert BlackHeight(t) == 1;
  }

  /** Inserting 4 into 10 (black) with children 5 (black, left child 3 red) and 20
      (black): case 4c below the root, with the grandparent 5 a left child. As
      written the new subtree is hung to the right of 10, overwriting 20, while 5
      stays on the left: the in-order sequence is no longer sorted and 20 is lost. */
  lemma RelinkOnWrongSide()
    ensures var f, ctx := Node(Red, Leaf, 4, Leaf), WrongSideContext();
            && Ordered(Plug(Leaf, ctx)) && IsRedBlack(Plug(Leaf, ctx))
            && BalanceAsWritten(f, ctx).Some?
            && InOrder(BalanceAsWritten(f, ctx).value) == [5, 10, 3, 4, 5]
            && InOrder(Balance(f, ctx, []).0) == [3, 4, 5, 10, 20]
  {
    WrongSideBefore();
    WrongSideAsWritten();
    WrongSideCorrected();
  }

  /** The path from the new node's parent 3 up to the root 10. */
  function WrongSideContext(): (r: seq<Frame>)
    ensures |r| == 3 && r[0].color == Red && r[1].color == Black
  {
    [Frame(R, Red, 3, Leaf), Frame(L, Black, 5, Leaf), Frame(L, Black, 10, Node(Black, Leaf, 20, Leaf))]
  }

  /** Before the insertion the tree is an ordered red-black tree. */
  lemma WrongSideBefore()
    ensures var ctx := WrongSideContext(); Ordered(Plug(Leaf, ctx)) && IsRedBlack(Plug(Leaf, ctx))
  {
    var ctx := WrongSideContext();
    var before := Node(Black, Node(Black, Node(Red, Leaf, 3, Leaf), 5, Leaf), 10, Node(Black, Leaf, 20, Leaf));
    assert ctx[2..] == [ctx[2]] && ctx[3..] == [];
    assert Plug(Leaf, ctx) == before by {
      assert Plug(Leaf, ctx[2..]) == Fill(ctx[2], Leaf);
    }
    assert InOrder(before) == [3, 5, 10, 20];
    assert BlackHeight(before) == 2;
  }

  /** As written: 20 is overwritten and 5 appears twice. */
  lemma WrongSideAsWritten()
    ensures var f, ctx := Node(Red, Leaf, 4, Leaf), WrongSideContext();
            && BalanceAsWritten(f, ctx).Some?
            && InOrder(BalanceAsWritten(f, ctx).value) == [5, 10, 3, 4, 5]
  {
    var f, ctx := Node(Red, Leaf, 4, Leaf), WrongSideContext();
    var top := Node(Black, Node(Red, Leaf, 3, Leaf), 4, Node(Red, Leaf, 5, Leaf));
    assert ctx[3..] == [];
    assert Rotate(f, ctx[0], ctx[1]) == top;
    assert InOrder(top) == [3, 4, 5];
    assert BalanceAsWritten(f, ctx) == Some(Node(Black, Node(Red, Leaf, 5, Leaf), 10, top));
  }

  /** Corrected: the rotated subtree takes the grandparent's place. */
  lemma WrongSideCorrected()
    ensures var f, ctx := Node(Red, Leaf, 4, Leaf), WrongSideContext();
            InOrder(Balance(f, ctx, []).0) == [3, 4, 5, 10, 20]
  {
    var f, ctx := Node(Red, Leaf, 4, Leaf), WrongSideContext();
    var top := Node(Black, Node(Red, Leaf, 3, Leaf), 4, Node(Red, Leaf, 5, Leaf));
    assert ctx[2..] == [ctx[2]];
    assert Rotate(f, ctx[0], ctx[1]) == top;
    assert Balance(f, ctx, []).0 == Fill(ctx[2], top);
    assert InOrder(top) == [3, 4, 5];
  }

  // ---------------------------------------------------------------------------
  // The iterator insert returns
  // ---------------------------------------------------------------------------

  /** The first fix-up step is a double rotation (case 4c or 4d). */
  predicate BentFirstStep(ctx: seq<Frame>)
  {
    && |ctx| >= 2 && ctx[0].color == Red && ctx[1].color == Black
    && !(ctx[1].sibling.Node? && ctx[1].sibling.color == Red)
    && ctx[0].dir != ctx[1].dir
  }

  /** `balance` rebuilds the same tree whichever node it is asked to follow. */
  lemma {:induction false} BalanceTreeIgnoresPath(f: Tree, ctx: seq<Frame>, m1: seq<Dir>, m2: seq<Dir>)
    requires f.Node? && RootFrameBlack(ctx)
    ensures Balance(f, ctx, m1).0 == Balance(f, ctx, m2).0
    decreases |ctx|
  {
    if ctx != [] && ctx[0].color == Red {
      var p, g := ctx[0], ctx[1];
      if g.sibling.Node? && g.sibling.color == Red && g.color == Black {
        BalanceTreeIgnoresPath(Recolor(f, p, g), ctx[2..], [g.dir, p.dir] + m1, [g.dir, p.dir] + m2);
      }
    }
  }

  /** Following a proper descendant of the focus: the path to a node below it
      extends the path `balance` reports for it. */
  lemma {:induction false} BalancePathAppend(f: Tree, ctx: seq<Frame>, m: seq<Dir>, q: seq<Dir>)
    requires f.Node? && RootFrameBlack(ctx) && m != []
    ensures Balance(f, ctx, m + q) == (Balance(f, ctx, m).0, Balance(f, ctx, m).1 + q)
    decreases |ctx|
  {
    if ctx == [] {
    } else if ctx[0].color == Black {
      assert CtxPath(ctx) + (m + q) == (CtxPath(ctx) + m) + q;
    } else {
      var p, g := ctx[0], ctx[1];
      if g.sibling.Node? && g.sibling.color == Red && g.color == Black {
        assert [g.dir, p.dir] + (m + q) == ([g.dir, p.dir] + m) + q;
        BalancePathAppend(Recolor(f, p, g), ctx[2..], [g.dir, p.dir] + m, q);
      } else if g.color == Black {
        assert (m + q)[0] == m[0] && (m + q)[1..] == m[1..] + q;
        assert RotatePath(p, g, m + q) == RotatePath(p, g, m) + q;
        assert CtxPath(ctx[2..]) + (RotatePath(p, g, m) + q) == (CtxPath(ctx[2..]) + RotatePath(p, g, m)) + q;
      } else {
        assert CtxPath(ctx) + (m + q) == (CtxPath(ctx) + m) + q;
      }
    }
  }

  /** The path to `pCurrent` -- the node `insert` hung the new node under, the
      parent frame `ctx[0]` -- in the tree `balance` leaves. */
  function ParentAfterBalance(x: int, ctx: seq<Frame>): seq<Dir>
    requires RootFrameBlack(ctx) && ctx != []
  {
    var f, p := Node(Red, Leaf, x, Leaf), ctx[0];
    if p.color == Black || ctx[1].color == Red then
      CtxPath(ctx[1..])
    else
      var g := ctx[1];
      if g.sibling.Node? && g.sibling.color == Red then
        // case 3: the parent is the recoloured grandparent's child on its side
        Balance(Recolor(f, p, g), ctx[2..], [g.dir]).1
      else if p.dir == g.dir then
        // cases 4a and 4b: the parent is the new top
        CtxPath(ctx[2..])
      else
        // cases 4c and 4d: the parent is the new top's child on the grandparent's side
        CtxPath(ctx[2..]) + [g.dir]
  }

  /** `ParentAfterBalance` finds the same node: its in-order position after the
      fix-up is the one it had before. */
  lemma {:induction false} ParentKeepsPosition(x: int, ctx: seq<Frame>)
    requires RootFrameBlack(ctx) && ctx != []
    ensures ValidPath(Plug(Node(Red, Leaf, x, Leaf), ctx), CtxPath(ctx[1..]))
    ensures ValidPath(HangAndBalance(x, ctx).0, ParentAfterBalance(x, ctx))
    ensures Position(HangAndBalance(x, ctx).0, ParentAfterBalance(x, ctx))
            == Position(Plug(Node(Red, Leaf, x, Leaf), ctx), CtxPath(ctx[1..]))
  {
    if ctx[0].color == Black || ctx[1].color == Red {
      ParentUntouched(x, ctx);
    } else if ctx[1].sibling.Node? && ctx[1].sibling.color == Red {
      ParentRecoloured(x, ctx);
    } else if ctx[0].dir == ctx[1].dir {
      ParentRotatedAligned(x, ctx);
    } else {
      ParentRotatedBent(x, ctx);
    }
  }

  /** Where the parent sat before the fix-up, at the grandparent's level. */
  lemma {:induction false} ParentBefore(x: int, ctx: seq<Frame>)
    requires RootFrameBlack(ctx) && ctx != []
    ensures var f, before := Node(Red, Leaf, x, Leaf), Plug(Node(Red, Leaf, x, Leaf), ctx);
            && ValidPath(before, CtxPath(ctx[1..]))
            && Position(before, CtxPath(ctx[1..])) == |Before(ctx[1..])| + Count(Fill(ctx[0], f).left)
  {
    var f := Node(Red, Leaf, x, Leaf);
    PlugLocate(Fill(ctx[0], f), ctx[1..]);
    assert Plug(f, ctx) == Plug(Fill(ctx[0], f), ctx[1..]);
  }

  /** Cases 2 and the unreachable red grandparent: nothing moves. */
  lemma {:induction false} ParentUntouched(x: int, ctx: seq<Frame>)
    requires RootFrameBlack(ctx) && ctx != [] && (ctx[0].color == Black || ctx[1].color == Red)
    ensures var t, before := HangAndBalance(x, ctx).0, Plug(Node(Red, Leaf, x, Leaf), ctx);
            && ValidPath(before, CtxPath(ctx[1..])) && ValidPath(t, CtxPath(ctx[1..]))
            && Position(t, CtxPath(ctx[1..])) == Position(before, CtxPath(ctx[1..]))
  {
    ParentBefore(x, ctx);
    assert HangAndBalance(x, ctx).0 == Plug(Node(Red, Leaf, x, Leaf), ctx);
  }

  /** The keys before the grandparent's hole, read one level lower. */
  lemma {:induction false} BeforeGrandparent(ctx: seq<Frame>)
    requires |ctx| >= 2
    ensures ctx[1..][1..] == ctx[2..]
    ensures |Before(ctx[1..])| == |Before(ctx[2..])| + (if ctx[1].dir == L then 0 else Count(ctx[1].sibling) + 1)
  {
    assert ctx[1..][1..] == ctx[2..];
  }

  /** Case 3: the recoloured grandparent's child on its side is the parent, and
      `balance` carries it along. */
  lemma {:induction false} ParentRecoloured(x: int, ctx: seq<Frame>)
    requires RootFrameBlack(ctx) && |ctx| >= 2 && ctx[0].color == Red && ctx[1].color == Black
    requires ctx[1].sibling.Node? && ctx[1].sibling.color == Red
    ensures var f, p, g := Node(Red, Leaf, x, Leaf), ctx[0], ctx[1];
            var t, pp := HangAndBalance(x, ctx).0, Balance(Recolor(f, p, g), ctx[2..], [g.dir]).1;
            var before := Plug(f, ctx);
            && ValidPath(before, CtxPath(ctx[1..])) && ValidPath(t, pp)
            && Position(t, pp) == Position(before, CtxPath(ctx[1..]))
  {
    var f, p, g := Node(Red, Leaf, x, Leaf), ctx[0], ctx[1];
    var rc := Recolor(f, p, g);
    BeforeGrandparent(ctx);
    ParentBefore(x, ctx);
    assert HangAndBalance(x, ctx).0 == Balance(rc, ctx[2..], [g.dir, p.dir] + []).0;
    BalanceTreeIgnoresPath(rc, ctx[2..], [g.dir], [g.dir, p.dir] + []);
    BalanceTracks(rc, ctx[2..], [g.dir]);
    assert Count(Paint(g.sibling, Black)) == Count(g.sibling) by {
      assert |InOrder(Paint(g.sibling, Black))| == |InOrder(g.sibling)|;
    }
    assert Subtree(rc, [g.dir]) == Fill(p.(color := Black), f);
    assert Offset(rc, [g.dir]) == if g.dir == L then 0 else Count(g.sibling) + 1;
  }

  /** Cases 4a and 4b: the parent is the top of the rotated subtree. */
  lemma {:induction false} ParentRotatedAligned(x: int, ctx: seq<Frame>)
    requires RootFrameBlack(ctx) && |ctx| >= 2 && ctx[0].color == Red && ctx[1].color == Black
    requires !(ctx[1].sibling.Node? && ctx[1].sibling.color == Red) && ctx[0].dir == ctx[1].dir
    ensures var t, before := HangAndBalance(x, ctx).0, Plug(Node(Red, Leaf, x, Leaf), ctx);
            && ValidPath(before, CtxPath(ctx[1..])) && ValidPath(t, CtxPath(ctx[2..]))
            && Position(t, CtxPath(ctx[2..])) == Position(before, CtxPath(ctx[1..]))
  {
    var f, p, g := Node(Red, Leaf, x, Leaf), ctx[0], ctx[1];
    var top := Rotate(f, p, g);
    BeforeGrandparent(ctx);
    ParentBefore(x, ctx);
    assert HangAndBalance(x, ctx).0 == Plug(top, ctx[2..]);
    PlugLocate(top, ctx[2..]);
  }

  /** Cases 4c and 4d: the parent is the rotated top's child on the grandparent's
      side. */
  lemma {:induction false} ParentRotatedBent(x: int, ctx: seq<Frame>)
    requires RootFrameBlack(ctx) && |ctx| >= 2 && ctx[0].color == Red && ctx[1].color == Black
    requires !(ctx[1].sibling.Node? && ctx[1].sibling.color == Red) && ctx[0].dir != ctx[1].dir
    ensures var t, before := HangAndBalance(x, ctx).0, Plug(Node(Red, Leaf, x, Leaf), ctx);
            && ValidPath(before, CtxPath(ctx[1..])) && ValidPath(t, CtxPath(ctx[2..]) + [ctx[1].dir])
            && Position(t, CtxPath(ctx[2..]) + [ctx[1].dir]) == Position(before, CtxPath(ctx[1..]))
  {
    var f, p, g := Node(Red, Leaf, x, Leaf), ctx[0], ctx[1];
    var top := Rotate(f, p, g);
    BeforeGrandparent(ctx);
    ParentBefore(x, ctx);
    assert HangAndBalance(x, ctx).0 == Plug(top, ctx[2..]);
    PlugPosition(top, ctx[2..], [g.dir]);
    assert Offset(top, [g.dir]) == if g.dir == L then 0 else Count(g.sibling) + 2;
  }

  /** What `insert` returns after hanging `x` below the parent frame `ctx[0]`:
      `iterator(pCurrent->pLeft)` or `iterator(pCurrent->pRight)` on the side the
      new node was hung, read after `balance` (bst.h:478, 495) -- `end()` when that
      child pointer is null. */
  function InsertedIteratorAsWritten(x: int, ctx: seq<Frame>): (r: Iter)
    requires RootFrameBlack(ctx) && ctx != []
    ensures r.At? ==> ValidPath(HangAndBalance(x, ctx).0, r.path)
  {
    var c := ParentAfterBalance(x, ctx) + [ctx[0].dir];
    if Subtree(HangAndBalance(x, ctx).0, c).Leaf? then End else At(c)
  }

  /** The child read after `balance` is the new node, except when the first fix-up
      step is a double rotation (case 4c or 4d): that gives the parent the new
      node's null child on that side, and the iterator is `end()`. */
  lemma {:induction false} InsertedIteratorLostIffBent(x: int, ctx: seq<Frame>)
    requires RootFrameBlack(ctx) && ctx != []
    ensures InsertedIteratorAsWritten(x, ctx) == End <==> BentFirstStep(ctx)
    ensures !BentFirstStep(ctx) ==> InsertedIteratorAsWritten(x, ctx) == At(HangAndBalance(x, ctx).1)
  {
    var p := ctx[0];
    if p.color == Black || ctx[1].color == Red {
      ChildUntouched(x, ctx);
    } else if ctx[1].sibling.Node? && ctx[1].sibling.color == Red {
      ChildRecoloured(x, ctx);
    } else if p.dir == ctx[1].dir {
      ChildRotatedAligned(x, ctx);
    } else {
      ChildRotatedBent(x, ctx);
    }
  }

  lemma {:induction false} ChildUntouched(x: int, ctx: seq<Frame>)
    requires RootFrameBlack(ctx) && ctx != [] && (ctx[0].color == Black || ctx[1].color == Red)
    ensures ParentAfterBalance(x, ctx) + [ctx[0].dir] == HangAndBalance(x, ctx).1
  {
    assert HangAndBalance(x, ctx).1 == CtxPath(ctx) + [];
  }

  lemma {:induction false} ChildRecoloured(x: int, ctx: seq<Frame>)
    requires RootFrameBlack(ctx) && |ctx| >= 2 && ctx[0].color == Red && ctx[1].color == Black
    requires ctx[1].sibling.Node? && ctx[1].sibling.color == Red
    ensures ParentAfterBalance(x, ctx) + [ctx[0].dir] == HangAndBalance(x, ctx).1
  {
    var f, p, g := Node(Red, Leaf, x, Leaf), ctx[0], ctx[1];
    var rc := Recolor(f, p, g);
    assert HangAndBalance(x, ctx) == Balance(rc, ctx[2..], [g.dir, p.dir] + []);
    assert [g.dir, p.dir] + [] == [g.dir] + [p.dir];
    BalancePathAppend(rc, ctx[2..], [g.dir], [p.dir]);
  }

  lemma {:induction false} ChildRotatedAligned(x: int, ctx: seq<Frame>)
    requires RootFrameBlack(ctx) && |ctx| >= 2 && ctx[0].color == Red && ctx[1].color == Black
    requires !(ctx[1].sibling.Node? && ctx[1].sibling.color == Red) && ctx[0].dir == ctx[1].dir
    ensures ParentAfterBalance(x, ctx) + [ctx[0].dir] == HangAndBalance(x, ctx).1
  {
    assert HangAndBalance(x, ctx).1 == CtxPath(ctx[2..]) + RotatePath(ctx[0], ctx[1], []);
  }

  lemma {:induction false} ChildRotatedBent(x: int, ctx: seq<Frame>)
    requires RootFrameBlack(ctx) && |ctx| >= 2 && ctx[0].color == Red && ctx[1].color == Black
    requires !(ctx[1].sibling.Node? && ctx[1].sibling.color == Red) && ctx[0].dir != ctx[1].dir
    ensures BentFirstStep(ctx)
    ensures Subtree(HangAndBalance(x, ctx).0, ParentAfterBalance(x, ctx) + [ctx[0].dir]) == Leaf
  {
    var f, p, g := Node(Red, Leaf, x, Leaf), ctx[0], ctx[1];
    var top := Rotate(f, p, g);
    var t := HangAndBalance(x, ctx).0;
    assert t == Plug(top, ctx[2..]);
    PlugLocate(top, ctx[2..]);
    SubtreeAppend(t, CtxPath(ctx[2..]), [g.dir, p.dir]);
    assert ParentAfterBalance(x, ctx) + [p.dir] == CtxPath(ctx[2..]) + [g.dir, p.dir];
    assert [g.dir, p.dir][1..] == [p.dir] && [p.dir][1..] == [];
    var side := if g.dir == L then top.left else top.right;
    assert (if p.dir == L then side.left else side.right) == Leaf;
    assert Subtree(top, [g.dir, p.dir]) == Subtree(side, [p.dir]) == Leaf;
  }

  /** Inserting 17 into 10 (black) with children 5 (black) and 20 (black, left child
      15 red): case 4c. The new node exists, holding 17, but the returned iterator is
      `end()`. */
  lemma InsertIteratorLost()
    ensures var ctx := [Frame(R, Red, 15, Leaf), Frame(L, Black, 20, Leaf), Frame(R, Black, 10, Node(Black, Leaf, 5, Leaf))];
            && InsertedIteratorAsWritten(17, ctx) == End
            && var (t, p) := HangAndBalance(17, ctx); ValidPath(t, p) && Subtree(t, p).key == 17
  {
    var ctx := [Frame(R, Red, 15, Leaf), Frame(L, Black, 20, Leaf), Frame(R, Black, 10, Node(Black, Leaf, 5, Leaf))];
    assert BentFirstStep(ctx);
    InsertedIteratorLostIffBent(17, ctx);
  }
}

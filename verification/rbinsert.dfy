/** Insertion (bst.h, `BST::insert` and `BNode::balance`): descend from the root
    by `<`, hang a new red node on the null child pointer reached, then repair the
    red-black rules on the way back up. This is the corrected behaviour; the code as
    written differs at the re-rooting and re-linking steps of the rotations (see
    module RbAsWritten). */
module RbInsert {
  import opened RbTree
  import opened RbZipper

  // ---------------------------------------------------------------------------
  // The fix-up, BNode::balance
  // ---------------------------------------------------------------------------

  /** Case 3: parent and aunt turn black, the grandparent turns red and becomes the
      node the fix-up continues from. */
  function Recolor(f: Tree, p: Frame, g: Frame): (r: Tree)
    ensures r.Node? && r.color == Red && InOrder(r) == InOrder(Fill(g, Fill(p, f)))
  {
    Fill(g.(color := Red, sibling := Paint(g.sibling, Black)), Fill(p.(color := Black), f))
  }

  /** The seven in-order pieces a rotation rearranges: four subtrees and three keys. */
  function Flat(a: Tree, k1: int, b: Tree, k2: int, c: Tree, k3: int, d: Tree): seq<int>
  {
    InOrder(a) + [k1] + InOrder(b) + [k2] + InOrder(c) + [k3] + InOrder(d)
  }

  lemma FlatBalanced(c1: Color, c2: Color, c3: Color, a: Tree, k1: int, b: Tree, k2: int, c: Tree, k3: int, d: Tree)
    ensures InOrder(Node(c2, Node(c1, a, k1, b), k2, Node(c3, c, k3, d))) == Flat(a, k1, b, k2, c, k3, d)
  {
    var A, B, C, D := InOrder(a), InOrder(b), InOrder(c), InOrder(d);
    assert (A + [k1] + B) + [k2] + (C + [k3] + D) == A + [k1] + B + [k2] + C + [k3] + D;
  }

  lemma FlatLeftLeft(c1: Color, c2: Color, c3: Color, a: Tree, k1: int, b: Tree, k2: int, c: Tree, k3: int, d: Tree)
    ensures InOrder(Node(c3, Node(c2, Node(c1, a, k1, b), k2, c), k3, d)) == Flat(a, k1, b, k2, c, k3, d)
  {
    var A, B, C, D := InOrder(a), InOrder(b), InOrder(c), InOrder(d);
    assert InOrder(Node(c2, Node(c1, a, k1, b), k2, c)) == (A + [k1] + B) + [k2] + C;
    assert ((A + [k1] + B) + [k2] + C) + [k3] + D == A + [k1] + B + [k2] + C + [k3] + D;
  }

  lemma FlatLeftRight(c1: Color, c2: Color, c3: Color, a: Tree, k1: int, b: Tree, k2: int, c: Tree, k3: int, d: Tree)
    ensures InOrder(Node(c3, Node(c1, a, k1, Node(c2, b, k2, c)), k3, d)) == Flat(a, k1, b, k2, c, k3, d)
  {
    var A, B, C, D := InOrder(a), InOrder(b), InOrder(c), InOrder(d);
    assert InOrder(Node(c1, a, k1, Node(c2, b, k2, c))) == A + [k1] + (B + [k2] + C);
    assert (A + [k1] + (B + [k2] + C)) + [k3] + D == A + [k1] + B + [k2] + C + [k3] + D;
  }

  lemma FlatRightLeft(c1: Color, c2: Color, c3: Color, a: Tree, k1: int, b: Tree, k2: int, c: Tree, k3: int, d: Tree)
    ensures InOrder(Node(c1, a, k1, Node(c3, Node(c2, b, k2, c), k3, d))) == Flat(a, k1, b, k2, c, k3, d)
  {
    var A, B, C, D := InOrder(a), InOrder(b), InOrder(c), InOrder(d);
    assert InOrder(Node(c3, Node(c2, b, k2, c), k3, d)) == (B + [k2] + C) + [k3] + D;
    assert A + [k1] + ((B + [k2] + C) + [k3] + D) == A + [k1] + B + [k2] + C + [k3] + D;
  }

  lemma FlatRightRight(c1: Color, c2: Color, c3: Color, a: Tree, k1: int, b: Tree, k2: int, c: Tree, k3: int, d: Tree)
    ensures InOrder(Node(c1, a, k1, Node(c2, b, k2, Node(c3, c, k3, d)))) == Flat(a, k1, b, k2, c, k3, d)
  {
    var A, B, C, D := InOrder(a), InOrder(b), InOrder(c), InOrder(d);
    assert InOrder(Node(c2, b, k2, Node(c3, c, k3, d))) == B + [k2] + (C + [k3] + D);
    assert A + [k1] + (B + [k2] + (C + [k3] + D)) == A + [k1] + B + [k2] + C + [k3] + D;
  }

  /** Cases 4a-4d: the focus `f` is red under a red parent `p`, the aunt (`g.sibling`)
      is black or absent. Aligned shapes (4a, 4b) rotate once and put the parent on
      top; bent shapes (4c, 4d) rotate twice and put `f` on top. */
  function Rotate(f: Tree, p: Frame, g: Frame): (r: Tree)
    requires f.Node?
    ensures r.Node? && r.color == Black
    ensures r.key == (if p.dir == g.dir then p.key else f.key)
    ensures var old_g := if g.dir == L then r.right else r.left;
            old_g.Node? && old_g.color == Red && old_g.key == g.key
    ensures InOrder(r) == InOrder(Fill(g, Fill(p, f)))
  {
    var Node(fc, fl, fk, fr) := f;
    match (p.dir, g.dir)
    case (L, L) =>   // 4a: mom's left, mom is granny's left
      FlatLeftLeft(fc, p.color, g.color, fl, fk, fr, p.key, p.sibling, g.key, g.sibling);
      FlatBalanced(fc, Black, Red, fl, fk, fr, p.key, p.sibling, g.key, g.sibling);
      Node(Black, f, p.key, Node(Red, p.sibling, g.key, g.sibling))
    case (R, R) =>   // 4b: mom's right, mom is granny's right
      FlatRightRight(g.color, p.color, fc, g.sibling, g.key, p.sibling, p.key, fl, fk, fr);
      FlatBalanced(Red, Black, fc, g.sibling, g.key, p.sibling, p.key, fl, fk, fr);
      Node(Black, Node(Red, g.sibling, g.key, p.sibling), p.key, f)
    case (R, L) =>   // 4c: mom's right, mom is granny's left
      FlatLeftRight(p.color, fc, g.color, p.sibling, p.key, fl, fk, fr, g.key, g.sibling);
      FlatBalanced(p.color, Black, Red, p.sibling, p.key, fl, fk, fr, g.key, g.sibling);
      Node(Black, Node(p.color, p.sibling, p.key, fl), fk, Node(Red, fr, g.key, g.sibling))
    case (L, R) =>   // 4d: mom's left, mom is granny's right
      FlatRightLeft(g.color, fc, p.color, g.sibling, g.key, fl, fk, fr, p.key, p.sibling);
      FlatBalanced(Red, Black, p.color, g.sibling, g.key, fl, fk, fr, p.key, p.sibling);
      Node(Black, Node(Red, g.sibling, g.key, fl), fk, Node(p.color, fr, p.key, p.sibling))
  }

  /** Where a node at path `m` below `f` ends up inside `Rotate(f, p, g)`. */
  function RotatePath(p: Frame, g: Frame, m: seq<Dir>): seq<Dir>
  {
    if p.dir == g.dir then [g.dir] + m
    else if m == [] then []
    else if m[0] == L then [L, R] + m[1..]
    else [R, L] + m[1..]
  }

  /** `BNode::balance` run from the red node `f` whose ancestors are `ctx`. Besides
      the repaired tree it returns where the node at path `m` below `f` (the node
      just inserted) ends up. The tree's keys keep their in-order sequence. */
  function Balance(f: Tree, ctx: seq<Frame>, m: seq<Dir>): (r: (Tree, seq<Dir>))
    requires f.Node?
    requires RootFrameBlack(ctx)
    ensures InOrder(r.0) == InOrder(Plug(f, ctx))
    decreases |ctx|
  {
    if ctx == [] then
      (f.(color := Black), m)                               // case 1: the root turns black
    else if ctx[0].color == Black then
      (Plug(f, ctx), CtxPath(ctx) + m)                      // case 2: black parent, done
    else
      var p := ctx[0];
      var g := ctx[1];
      PlugTwice(f, ctx);
      if g.sibling.Node? && g.sibling.color == Red && g.color == Black then
        PlugSameKeys(Recolor(f, p, g), Fill(g, Fill(p, f)), ctx[2..]);
        Balance(Recolor(f, p, g), ctx[2..], [g.dir, p.dir] + m)   // case 3: red aunt
      else if g.color == Black then
        PlugSameKeys(Rotate(f, p, g), Fill(g, Fill(p, f)), ctx[2..]);
        (Plug(Rotate(f, p, g), ctx[2..]), CtxPath(ctx[2..]) + RotatePath(p, g, m))   // case 4
      else
        (Plug(f, ctx), CtxPath(ctx) + m)                    // red grandparent: no rule applies
  }

  lemma PlugTwice(t: Tree, ctx: seq<Frame>)
    requires |ctx| >= 2
    ensures Plug(t, ctx) == Plug(Fill(ctx[1], Fill(ctx[0], t)), ctx[2..])
  {
    assert ctx[1..][1..] == ctx[2..];
  }

  // ---------------------------------------------------------------------------
  // The fix-up restores the red-black rules
  // ---------------------------------------------------------------------------

  /** The state `balance` is called in: the tree is red-black except that the red
      focus `f` may have a red parent. */
  predicate FixUpState(f: Tree, ctx: seq<Frame>)
  {
    && f.Node? && f.color == Red && NoRedRed(f) && BlackBalanced(f)
    && CtxBlack(ctx, BlackHeight(f)) && CtxRed(ctx, Black) && RootFrameBlack(ctx)
  }

  /** Case 3 hands `balance` a state of the same kind, two levels higher. */
  lemma RecolorKeepsState(f: Tree, ctx: seq<Frame>)
    requires FixUpState(f, ctx) && |ctx| >= 2 && ctx[0].color == Red
    requires ctx[1].sibling.Node? && ctx[1].sibling.color == Red && ctx[1].color == Black
    ensures FixUpState(Recolor(f, ctx[0], ctx[1]), ctx[2..])
  {
    var p, g := ctx[0], ctx[1];
    var h := BlackHeight(f);
    assert ctx[1..][1..] == ctx[2..];
    assert CtxBlack(ctx[1..], h);
    assert CtxBlack(ctx[2..], h + 1);
    assert CtxRed(ctx[1..], Red);
    var parent := Fill(p.(color := Black), f);
    assert BlackBalanced(parent) && BlackHeight(parent) == h + 1;
    var aunt := Paint(g.sibling, Black);
    assert BlackBalanced(aunt) && BlackHeight(aunt) == h + 1;
    assert NoRedRed(parent) && NoRedRed(aunt);
  }

  /** Case 4 leaves a red-black tree. */
  lemma RotateRestores(f: Tree, ctx: seq<Frame>)
    requires FixUpState(f, ctx) && |ctx| >= 2 && ctx[0].color == Red
    requires !(ctx[1].sibling.Node? && ctx[1].sibling.color == Red) && ctx[1].color == Black
    ensures IsRedBlack(Plug(Rotate(f, ctx[0], ctx[1]), ctx[2..]))
  {
    var p, g := ctx[0], ctx[1];
    var h := BlackHeight(f);
    assert ctx[1..][1..] == ctx[2..];
    assert CtxBlack(ctx[1..], h);
    assert CtxBlack(ctx[2..], h + 1);
    assert CtxRed(ctx[1..], Red);
    assert CtxRed(ctx[2..], Black);
    var top := Rotate(f, p, g);
    RotateRules(f, p, g, h);
    PlugRedIff(top, ctx[2..]);
    PlugBlackIff(top, ctx[2..]);
    if ctx[2..] != [] {
      PlugRootColor(top, ctx[2..]);
    }
  }

  lemma RotateRules(f: Tree, p: Frame, g: Frame, h: nat)
    requires f.Node? && f.color == Red && NoRedRed(f) && BlackBalanced(f) && BlackHeight(f) == h
    requires p.color == Red && NoRedRed(p.sibling) && RootColor(p.sibling) == Black
    requires BlackBalanced(p.sibling) && BlackHeight(p.sibling) == h
    requires NoRedRed(g.sibling) && RootColor(g.sibling) == Black
    requires BlackBalanced(g.sibling) && BlackHeight(g.sibling) == h
    ensures var top := Rotate(f, p, g);
            NoRedRed(top) && BlackBalanced(top) && BlackHeight(top) == h + 1
  {
  }

  /** In a fix-up state a red parent is never the root, and its own parent is black:
      the grandparent-red branch of `balance` cannot be reached. */
  lemma RedParentHasBlackParent(ctx: seq<Frame>)
    requires CtxRed(ctx, Black) && RootFrameBlack(ctx) && ctx != [] && ctx[0].color == Red
    ensures |ctx| >= 2 && ctx[1].color == Black
  {
    assert CtxRed(ctx[1..], Red);
  }

  /** `balance` started in a fix-up state ends with a red-black tree. */
  lemma {:induction false} BalanceRestoresRedBlack(f: Tree, ctx: seq<Frame>, m: seq<Dir>)
    requires FixUpState(f, ctx)
    ensures IsRedBlack(Balance(f, ctx, m).0)
    decreases |ctx|
  {
    if ctx == [] {
    } else if ctx[0].color == Black {
      assert CtxRed(ctx, Red);
      PlugRedIff(f, ctx);
      PlugBlackIff(f, ctx);
      PlugRootColor(f, ctx);
    } else {
      var p, g := ctx[0], ctx[1];
      RedParentHasBlackParent(ctx);
      if g.sibling.Node? && g.sibling.color == Red && g.color == Black {
        RecolorKeepsState(f, ctx);
        BalanceRestoresRedBlack(Recolor(f, p, g), ctx[2..], [g.dir, p.dir] + m);
      } else if g.color == Black {
        RotateRestores(f, ctx);
      }
    }
  }

  /** Whatever the colours below, `balance` leaves the root black: it is painted
      black in case 1, untouched in cases 2 and 3's recursion, and a rotation at the
      root puts a black node on top. */
  lemma {:induction false} BalanceKeepsRootBlack(f: Tree, ctx: seq<Frame>, m: seq<Dir>)
    requires f.Node? && RootFrameBlack(ctx)
    ensures RootColor(Balance(f, ctx, m).0) == Black
    decreases |ctx|
  {
    if ctx == [] {
    } else if ctx[0].color == Black {
      PlugRootColor(f, ctx);
    } else {
      var p, g := ctx[0], ctx[1];
      assert RootFrameBlack(ctx[2..]);
      if g.sibling.Node? && g.sibling.color == Red && g.color == Black {
        BalanceKeepsRootBlack(Recolor(f, p, g), ctx[2..], [g.dir, p.dir] + m);
      } else if g.color == Black {
        if ctx[2..] != [] {
          PlugRootColor(Rotate(f, p, g), ctx[2..]);
        }
      } else {
        PlugRootColor(f, ctx);
      }
    }
  }

  // ---------------------------------------------------------------------------
  // The fix-up keeps track of the inserted node
  // ---------------------------------------------------------------------------

  lemma RotateTracks(f: Tree, p: Frame, g: Frame, m: seq<Dir>)
    requires f.Node? && ValidPath(f, m)
    ensures ValidPath(Rotate(f, p, g), RotatePath(p, g, m))
    ensures Position(Rotate(f, p, g), RotatePath(p, g, m)) == |Before([p, g])| + Position(f, m)
  {
    if p.dir == g.dir {
      RotateOuterTracks(f, p, g, m);
    } else if m != [] {
      RotateInnerTracks(f, p, g, m);
    } else {
      BeforePair(p, g);
    }
  }

  /** The keys before the hole of a two-frame context. */
  lemma BeforePair(p: Frame, g: Frame)
    ensures |Before([p, g])| == (if p.dir == R then Count(p.sibling) + 1 else 0) + (if g.dir == R then Count(g.sibling) + 1 else 0)
  {
    assert [p, g][1..] == [g] && [g][1..] == [];
    assert Before([g][1..]) == [];
  }

  lemma RotateOuterTracks(f: Tree, p: Frame, g: Frame, m: seq<Dir>)
    requires f.Node? && ValidPath(f, m) && p.dir == g.dir
    ensures ValidPath(Rotate(f, p, g), RotatePath(p, g, m))
    ensures Position(Rotate(f, p, g), RotatePath(p, g, m)) == |Before([p, g])| + Position(f, m)
  {
    var top := Rotate(f, p, g);
    BeforePair(p, g);
    SubtreeAppend(top, [g.dir], m);
    assert [g.dir][1..] == [];
    assert Subtree(top, [g.dir]) == f;
  }

  lemma RotateInnerTracks(f: Tree, p: Frame, g: Frame, m: seq<Dir>)
    requires f.Node? && ValidPath(f, m) && p.dir != g.dir && m != []
    ensures ValidPath(Rotate(f, p, g), RotatePath(p, g, m))
    ensures Position(Rotate(f, p, g), RotatePath(p, g, m)) == |Before([p, g])| + Position(f, m)
  {
    var top := Rotate(f, p, g);
    BeforePair(p, g);
    var bp := if p.dir == R then Count(p.sibling) + 1 else 0;
    var bg := if g.dir == R then Count(g.sibling) + 1 else 0;
    var q := m[1..];
    assert m == [m[0]] + q;
    assert [m[0]][1..] == [];
    SubtreeAppend(f, [m[0]], q);
    var d := if m[0] == L then [L, R] else [R, L];
    var child := if m[0] == L then f.left else f.right;
    assert [d[1]][1..] == [] && d[1..] == [d[1]];
    assert Subtree(top, d) == child;
    assert Offset(f, [m[0]]) == (if m[0] == L then 0 else Count(f.left) + 1);
    assert Offset(top, d) == bg + bp + Offset(f, [m[0]]);
    SubtreeAppend(top, d, q);
    assert RotatePath(p, g, m) == d + q;
  }

  lemma RecolorTracks(f: Tree, p: Frame, g: Frame, m: seq<Dir>)
    requires f.Node? && ValidPath(f, m)
    ensures ValidPath(Recolor(f, p, g), [g.dir, p.dir] + m)
    ensures Position(Recolor(f, p, g), [g.dir, p.dir] + m) == |Before([p, g])| + Position(f, m)
  {
    var c := [p.(color := Black), g.(color := Red, sibling := Paint(g.sibling, Black))];
    PlugTwice(f, c);
    assert c[2..] == [];
    assert Plug(f, c) == Recolor(f, p, g);
    assert c[1..] == [c[1]] && c[1..][1..] == [];
    assert CtxPath(c) == [g.dir, p.dir];
    PlugPosition(f, c, m);
    assert [p, g][1..] == [g] && [p, g][1..][1..] == [];
    assert Before([g][1..]) == [] && Before(c[1..][1..]) == [];
    assert |Before([p, g])| == |Before(c)|;
  }

  /** The node at `m` below the focus is still a node of the repaired tree, at the
      same in-order position as in the tree before the fix-up. */
  lemma {:induction false} BalanceTracks(f: Tree, ctx: seq<Frame>, m: seq<Dir>)
    requires f.Node? && RootFrameBlack(ctx) && ValidPath(f, m)
    ensures var r := Balance(f, ctx, m);
            ValidPath(r.0, r.1) && Position(r.0, r.1) == |Before(ctx)| + Position(f, m)
    decreases |ctx|
  {
    if ctx == [] {
      if m != [] {
        assert Subtree(f.(color := Black), m) == Subtree(f, m);
        assert Offset(f.(color := Black), m) == Offset(f, m);
      }
    } else if ctx[0].color == Black {
      PlugPosition(f, ctx, m);
    } else {
      var p, g := ctx[0], ctx[1];
      assert ctx == [p, g] + ctx[2..];
      BeforeAppend([p, g], ctx[2..]);
      if g.sibling.Node? && g.sibling.color == Red && g.color == Black {
        RecolorTracks(f, p, g, m);
        BalanceTracks(Recolor(f, p, g), ctx[2..], [g.dir, p.dir] + m);
      } else if g.color == Black {
        RotateTracks(f, p, g, m);
        PlugPosition(Rotate(f, p, g), ctx[2..], RotatePath(p, g, m));
      } else {
        PlugPosition(f, ctx, m);
      }
    }
  }

  // ---------------------------------------------------------------------------
  // The descent of BST::insert
  // ---------------------------------------------------------------------------

  /** Where the descent stops. */
  datatype Landing =
    | Duplicate(node: Tree, ctx: seq<Frame>)   // keepUnique, and a node with an equal key was met
    | Slot(ctx: seq<Frame>)                    // the null child pointer to hang the new node on

  /** The loop of `BST::insert` from subtree `t` (whose ancestors are `ctx`):
      with `keepUnique` an equal key stops it; a strictly smaller key goes left,
      anything else goes right. */
  function Descend(t: Tree, x: int, keepUnique: bool, ctx: seq<Frame>): (r: Landing)
    ensures r.Slot? ==> Plug(Leaf, r.ctx) == Plug(t, ctx)
    ensures r.Duplicate? ==> keepUnique && r.node.Node? && r.node.key == x && Plug(r.node, r.ctx) == Plug(t, ctx)
    ensures !keepUnique ==> r.Slot?
    decreases t
  {
    match t
    case Leaf => Slot(ctx)
    case Node(c, l, k, rt) =>
      if keepUnique && x == k then Duplicate(t, ctx)
      else if x < k then
        assert ([Frame(L, c, k, rt)] + ctx)[1..] == ctx;
        Descend(l, x, keepUnique, [Frame(L, c, k, rt)] + ctx)
      else
        assert ([Frame(R, c, k, l)] + ctx)[1..] == ctx;
        Descend(rt, x, keepUnique, [Frame(R, c, k, l)] + ctx)
  }

  predicate AllLe(s: seq<int>, x: int) { forall y :: y in s ==> y <= x }
  predicate AllGt(s: seq<int>, x: int) { forall y :: y in s ==> x < y }

  /** The frames pushed by one step of the descent keep the whole in-order sequence. */
  lemma StepLeft(c: Color, l: Tree, k: int, r: Tree, ctx: seq<Frame>)
    ensures var ctx' := [Frame(L, c, k, r)] + ctx;
            Before(ctx') == Before(ctx) && After(ctx') == [k] + InOrder(r) + After(ctx)
  {
    assert ([Frame(L, c, k, r)] + ctx)[1..] == ctx;
  }

  lemma StepRight(c: Color, l: Tree, k: int, r: Tree, ctx: seq<Frame>)
    ensures var ctx' := [Frame(R, c, k, l)] + ctx;
            Before(ctx') == Before(ctx) + InOrder(l) + [k] && After(ctx') == After(ctx)
  {
    assert ([Frame(R, c, k, l)] + ctx)[1..] == ctx;
  }

  /** In an ordered tree the descent stops between the keys `<= x` and the keys `> x`. */
  lemma {:induction false} DescendSplits(t: Tree, x: int, keepUnique: bool, ctx: seq<Frame>)
    requires Ordered(t) && AllLe(Before(ctx), x) && AllGt(After(ctx), x)
    ensures var r := Descend(t, x, keepUnique, ctx);
            r.Slot? ==> AllLe(Before(r.ctx), x) && AllGt(After(r.ctx), x)
    decreases t
  {
    match t
    case Leaf =>
    case Node(c, l, k, rt) =>
      if keepUnique && x == k {
      } else if x < k {
        StepLeft(c, l, k, rt, ctx);
        DescendSplits(l, x, keepUnique, [Frame(L, c, k, rt)] + ctx);
      } else {
        StepRight(c, l, k, rt, ctx);
        DescendSplits(rt, x, keepUnique, [Frame(R, c, k, l)] + ctx);
      }
  }

  /** With `keepUnique`, the descent in an ordered tree stops at an equal key
      whenever the tree holds one. */
  lemma {:induction false} DescendFindsEqual(t: Tree, x: int, ctx: seq<Frame>)
    requires Ordered(t) && x in InOrder(t)
    ensures Descend(t, x, true, ctx).Duplicate?
    decreases t
  {
    var Node(c, l, k, rt) := t;
    if x != k {
      if x < k {
        assert x !in InOrder(rt);
        DescendFindsEqual(l, x, [Frame(L, c, k, rt)] + ctx);
      } else {
        assert x !in InOrder(l);
        DescendFindsEqual(rt, x, [Frame(R, c, k, l)] + ctx);
      }
    }
  }

  // ---------------------------------------------------------------------------
  // BST::insert
  // ---------------------------------------------------------------------------

  /** Hang a new red node with key `x` on the null child pointer the descent reached
      and run `balance` from it. The new key sits exactly between the keys before and
      after the slot, and the returned path leads to the new node. */
  function HangAndBalance(x: int, ctx: seq<Frame>): (r: (Tree, seq<Dir>))
    requires RootFrameBlack(ctx)
    ensures InOrder(r.0) == Before(ctx) + [x] + After(ctx)
    ensures ValidPath(r.0, r.1) && Position(r.0, r.1) == |Before(ctx)| && Subtree(r.0, r.1).key == x
  {
    var f := Node(Red, Leaf, x, Leaf);
    var r := Balance(f, ctx, []);
    PlugInOrder(f, ctx);
    BalanceTracks(f, ctx, []);
    PositionKey(r.0, r.1);
    assert InOrder(f) == [x];
    r
  }

  /** The pair `BST::insert` returns, with the tree after the call. */
  datatype InsertResult = InsertResult(tree: BST, it: Iter, inserted: bool)

  /** `BST::insert(t, keepUnique)`. Into an empty tree: a single black root. With
      `keepUnique` and an equal key on the way down: that node, `false`, nothing
      changes. Otherwise a new node, the counter incremented, and an iterator to the
      new node. */
  function Insert(b: BST, x: int, keepUnique: bool): (r: InsertResult)
    requires RootColor(b.root) == Black
    ensures b.root == Leaf ==> r == InsertResult(BST(Node(Black, Leaf, x, Leaf), b.size + 1), At([]), true)
    ensures r.inserted ==> r.tree.size == b.size + 1 && Count(r.tree.root) == Count(b.root) + 1
    ensures !r.inserted ==> keepUnique && r.tree == b
    ensures !keepUnique ==> r.inserted
    ensures r.it.At? && ValidPath(r.tree.root, r.it.path) && Subtree(r.tree.root, r.it.path).key == x
    ensures r.inserted ==>
              var s, i := InOrder(b.root), Position(r.tree.root, r.it.path);
              i <= |s| && InOrder(r.tree.root) == s[..i] + [x] + s[i..]
  {
    if b.root == Leaf then
      InsertResult(BST(Node(Black, Leaf, x, Leaf), b.size + 1), At([]), true)
    else
      match Descend(b.root, x, keepUnique, [])
      case Duplicate(n, ctx) =>
        PlugLocate(n, ctx);
        InsertResult(b, At(CtxPath(ctx)), false)
      case Slot(ctx) =>
        PlugRootColor(Leaf, ctx);
        var (t, p) := HangAndBalance(x, ctx);
        PlugInOrder(Leaf, ctx);
        assert InOrder(b.root) == Before(ctx) + After(ctx) by {
          assert Before(ctx) + InOrder(Leaf) + After(ctx) == Before(ctx) + After(ctx);
        }
        SplitAt(InOrder(b.root), Before(ctx), After(ctx));
        InsertResult(BST(t, b.size + 1), At(p), true)
  }

  /** Cutting a concatenation at the seam gives back its two parts. */
  lemma SplitAt(s: seq<int>, a: seq<int>, b: seq<int>)
    requires s == a + b
    ensures s[..|a|] == a && s[|a|..] == b
  {
  }

  /** A successful insert into a non-empty tree is the slot case of the descent. */
  lemma InsertSlotCase(b: BST, x: int, keepUnique: bool, ctx: seq<Frame>)
    requires RootColor(b.root) == Black && b.root != Leaf
    requires Descend(b.root, x, keepUnique, []) == Slot(ctx)
    ensures RootFrameBlack(ctx)
    ensures var r := Insert(b, x, keepUnique);
            r.tree.root == HangAndBalance(x, ctx).0 && r.it == At(HangAndBalance(x, ctx).1)
  {
    PlugRootColor(Leaf, ctx);
  }

  /** In an ordered tree the new key goes after every key `<= x` and before every
      key `> x`: the source descends right on equal keys, so a duplicate lands after
      the keys equal to it. */
  lemma InsertBetween(b: BST, x: int, keepUnique: bool)
    requires RootColor(b.root) == Black && Ordered(b.root)
    ensures var r := Insert(b, x, keepUnique);
            var s := InOrder(b.root);
            r.inserted ==>
              var i := Position(r.tree.root, r.it.path);
              (forall j :: 0 <= j < i ==> s[j] <= x) && (forall j :: i <= j < |s| ==> x < s[j])
  {
    if b.root != Leaf && Descend(b.root, x, keepUnique, []).Slot? {
      var ctx := Descend(b.root, x, keepUnique, []).ctx;
      InsertSlotCase(b, x, keepUnique, ctx);
      PlugInOrder(Leaf, ctx);
      assert InOrder(b.root) == Before(ctx) + After(ctx) by {
        assert Before(ctx) + InOrder(Leaf) + After(ctx) == Before(ctx) + After(ctx);
      }
      DescendSplits(b.root, x, keepUnique, []);
      BoundsByIndex(InOrder(b.root), Before(ctx), After(ctx), x);
    }
  }

  lemma BoundsByIndex(s: seq<int>, bf: seq<int>, af: seq<int>, x: int)
    requires s == bf + af && AllLe(bf, x) && AllGt(af, x)
    ensures forall j :: 0 <= j < |bf| ==> s[j] <= x
    ensures forall j :: |bf| <= j < |s| ==> x < s[j]
  {
    forall j | 0 <= j < |bf| ensures s[j] <= x {
      assert s[j] == bf[j] && bf[j] in bf;
    }
    forall j | |bf| <= j < |s| ensures x < s[j] {
      assert s[j] == af[j - |bf|] && af[j - |bf|] in af;
    }
  }

  /** Inserting into an ordered tree leaves an ordered tree. */
  lemma InsertKeepsOrdered(b: BST, x: int, keepUnique: bool)
    requires RootColor(b.root) == Black && Ordered(b.root)
    ensures Ordered(Insert(b, x, keepUnique).tree.root)
  {
    var r := Insert(b, x, keepUnique);
    if r.inserted {
      var s := InOrder(b.root);
      var i := Position(r.tree.root, r.it.path);
      InsertBetween(b, x, keepUnique);
      OrderedIffSorted(b.root);
      SortedInsertAt(s, i, x);
      OrderedIffSorted(r.tree.root);
    }
  }

  /** Putting `x` at index `i` of a sorted sequence, after the keys `<= x` and before
      the keys `> x`, keeps it sorted. */
  lemma SortedInsertAt(s: seq<int>, i: int, x: int)
    requires Sorted(s) && 0 <= i <= |s|
    requires forall j :: 0 <= j < i ==> s[j] <= x
    requires forall j :: i <= j < |s| ==> x < s[j]
    ensures Sorted(s[..i] + [x] + s[i..])
  {
    SortedSlice(s, 0, i);
    SortedSlice(s, i, |s|);
    assert s[..i] == s[0..i] && s[i..] == s[i..|s|];
    forall y | y in s[..i] ensures y <= x {
      var j :| 0 <= j < i && s[..i][j] == y;
    }
    forall y | y in s[i..] ensures x <= y {
      var j :| 0 <= j < |s| - i && s[i..][j] == y;
      assert s[i + j] == y;
    }
    SortedSplit(s[..i], x, s[i..]);
  }

  /** With `keepUnique`, an ordered tree rejects `x` exactly when `x` is already
      one of its keys. */
  lemma InsertUniqueIffAbsent(b: BST, x: int)
    requires RootColor(b.root) == Black && Ordered(b.root)
    ensures Insert(b, x, true).inserted <==> x !in InOrder(b.root)
  {
    if b.root != Leaf {
      match Descend(b.root, x, true, [])
      case Duplicate(n, ctx) =>
        PlugInOrder(n, ctx);
        assert n.key in InOrder(n);
      case Slot(ctx) =>
        if x in InOrder(b.root) {
          DescendFindsEqual(b.root, x, []);
        }
    }
  }

  /** Inserting into a red-black tree leaves a red-black tree. */
  lemma InsertKeepsRedBlack(b: BST, x: int, keepUnique: bool)
    requires IsRedBlack(b.root)
    ensures IsRedBlack(Insert(b, x, keepUnique).tree.root)
  {
    if b.root != Leaf {
      match Descend(b.root, x, keepUnique, [])
      case Duplicate(_, _) =>
      case Slot(ctx) =>
        var f := Node(Red, Leaf, x, Leaf);
        PlugRootColor(Leaf, ctx);
        PlugRedIff(Leaf, ctx);
        PlugBlackIff(Leaf, ctx);
        BalanceRestoresRedBlack(f, ctx, []);
    }
  }

  /** Insert keeps the root black, so inserts can follow one another. */
  lemma InsertKeepsRootBlack(b: BST, x: int, keepUnique: bool)
    requires RootColor(b.root) == Black
    ensures RootColor(Insert(b, x, keepUnique).tree.root) == Black
  {
    if b.root != Leaf {
      match Descend(b.root, x, keepUnique, [])
      case Duplicate(_, _) =>
      case Slot(ctx) =>
        InsertSlotCase(b, x, keepUnique, ctx);
        BalanceKeepsRootBlack(Node(Red, Leaf, x, Leaf), ctx, []);
    }
  }

  lemma MultisetSplice(s: seq<int>, i: int, x: int)
    requires 0 <= i <= |s|
    ensures multiset(s[..i] + [x] + s[i..]) == multiset(s) + multiset{x}
  {
    assert s == s[..i] + s[i..];
  }

  /** A successful insert adds exactly one occurrence of the key and nothing else. */
  lemma InsertAddsOne(b: BST, x: int, keepUnique: bool)
    requires RootColor(b.root) == Black
    ensures var r := Insert(b, x, keepUnique);
            multiset(InOrder(r.tree.root)) == multiset(InOrder(b.root)) + (if r.inserted then multiset{x} else multiset{})
  {
    var r := Insert(b, x, keepUnique);
    if r.inserted {
      MultisetSplice(InOrder(b.root), Position(r.tree.root, r.it.path), x);
    }
  }
}

/** The way up from a node to the root. In bst.h every `BNode` keeps a `pParent`
    pointer, and `BNode::balance` reads the parent, grandparent, aunt and sibling
    through it. Here that upward view is a zipper: the subtree in focus plus the
    list of frames above it, innermost (the parent) first. */
module RbZipper {
  import opened RbTree

  /** One step above a position: the side of the parent the position hangs on, the
      parent's colour and key, and the parent's other child. */
  datatype Frame = Frame(dir: Dir, color: Color, key: int, sibling: Tree)

  /** The parent node described by `fr`, with `t` hanging on side `fr.dir`. */
  function Fill(fr: Frame, t: Tree): Tree
  {
    if fr.dir == L then Node(fr.color, t, fr.key, fr.sibling) else Node(fr.color, fr.sibling, fr.key, t)
  }

  /** Keys that precede the hole in in-order. */
  function Before(ctx: seq<Frame>): seq<int>
    decreases |ctx|
  {
    if ctx == [] then []
    else if ctx[0].dir == L then Before(ctx[1..])
    else Before(ctx[1..]) + InOrder(ctx[0].sibling) + [ctx[0].key]
  }

  /** Keys that follow the hole in in-order. */
  function After(ctx: seq<Frame>): seq<int>
    decreases |ctx|
  {
    if ctx == [] then []
    else if ctx[0].dir == L then [ctx[0].key] + InOrder(ctx[0].sibling) + After(ctx[1..])
    else After(ctx[1..])
  }

  /** The path from the root down to the hole. */
  function CtxPath(ctx: seq<Frame>): (p: seq<Dir>)
    ensures |p| == |ctx|
    decreases |ctx|
  {
    if ctx == [] then [] else CtxPath(ctx[1..]) + [ctx[0].dir]
  }

  /** The whole tree rebuilt with `t` in the hole. */
  function Plug(t: Tree, ctx: seq<Frame>): Tree
    decreases |ctx|
  {
    if ctx == [] then t else Plug(Fill(ctx[0], t), ctx[1..])
  }

  /** The keys of `t` sit exactly between the keys before and after the hole. */
  lemma {:induction false} PlugInOrder(t: Tree, ctx: seq<Frame>)
    ensures InOrder(Plug(t, ctx)) == Before(ctx) + InOrder(t) + After(ctx)
    decreases |ctx|
  {
    if ctx == [] {
      assert Before(ctx) + InOrder(t) + After(ctx) == InOrder(t);
    } else {
      var fr := ctx[0];
      PlugInOrder(Fill(fr, t), ctx[1..]);
      FillInOrder(fr, t, Before(ctx[1..]), After(ctx[1..]));
    }
  }

  /** Subtrees with the same keys give whole trees with the same keys. */
  lemma PlugSameKeys(a: Tree, b: Tree, ctx: seq<Frame>)
    requires InOrder(a) == InOrder(b)
    ensures InOrder(Plug(a, ctx)) == InOrder(Plug(b, ctx))
  {
    PlugInOrder(a, ctx);
    PlugInOrder(b, ctx);
  }

  /** One frame moves its key and sibling from the context into the subtree. */
  lemma FillInOrder(fr: Frame, t: Tree, b: seq<int>, a: seq<int>)
    ensures fr.dir == L ==> b + InOrder(Fill(fr, t)) + a == b + InOrder(t) + ([fr.key] + InOrder(fr.sibling) + a)
    ensures fr.dir == R ==> b + InOrder(Fill(fr, t)) + a == (b + InOrder(fr.sibling) + [fr.key]) + InOrder(t) + a
  {
    var s, m := InOrder(fr.sibling), InOrder(t);
    if fr.dir == L {
      assert InOrder(Fill(fr, t)) == m + [fr.key] + s;
      assert b + (m + [fr.key] + s) + a == b + m + ([fr.key] + s + a);
    } else {
      assert InOrder(Fill(fr, t)) == s + [fr.key] + m;
      assert b + (s + [fr.key] + m) + a == (b + s + [fr.key]) + m + a;
    }
  }

  /** The top frame is the root's; the root is black. */
  predicate RootFrameBlack(ctx: seq<Frame>)
  {
    ctx == [] || ctx[|ctx| - 1].color == Black
  }

  lemma {:induction false} PlugRootColor(t: Tree, ctx: seq<Frame>)
    requires ctx != []
    ensures RootColor(Plug(t, ctx)) == ctx[|ctx| - 1].color
    decreases |ctx|
  {
    if |ctx| > 1 {
      PlugRootColor(Fill(ctx[0], t), ctx[1..]);
    }
  }

  lemma {:induction false} PlugAppend(t: Tree, a: seq<Frame>, b: seq<Frame>)
    ensures Plug(t, a + b) == Plug(Plug(t, a), b)
    decreases |a|
  {
    if a == [] {
      assert a + b == b;
    } else {
      assert (a + b)[0] == a[0] && (a + b)[1..] == a[1..] + b;
      PlugAppend(Fill(a[0], t), a[1..], b);
    }
  }

  lemma {:induction false} CtxPathAppend(a: seq<Frame>, b: seq<Frame>)
    ensures CtxPath(a + b) == CtxPath(b) + CtxPath(a)
    decreases |a|
  {
    if a == [] {
      assert a + b == b;
    } else {
      assert (a + b)[0] == a[0] && (a + b)[1..] == a[1..] + b;
      CtxPathAppend(a[1..], b);
    }
  }

  lemma {:induction false} BeforeAppend(a: seq<Frame>, b: seq<Frame>)
    ensures Before(a + b) == Before(b) + Before(a)
    decreases |a|
  {
    if a == [] {
      assert a + b == b;
    } else {
      assert (a + b)[0] == a[0] && (a + b)[1..] == a[1..] + b;
      BeforeAppend(a[1..], b);
      var x := if a[0].dir == L then [] else InOrder(a[0].sibling) + [a[0].key];
      assert Before(a) == Before(a[1..]) + x;
      assert Before(a + b) == Before(a[1..] + b) + x;
      assert Before(b) + Before(a[1..]) + x == Before(b) + (Before(a[1..]) + x);
    }
  }

  /** The hole of `Plug(t, ctx)` is at `CtxPath(ctx)`, preceded by `|Before(ctx)|` keys. */
  lemma {:induction false} PlugLocate(t: Tree, ctx: seq<Frame>)
    ensures Subtree(Plug(t, ctx), CtxPath(ctx)) == t
    ensures Offset(Plug(t, ctx), CtxPath(ctx)) == |Before(ctx)|
    decreases |ctx|
  {
    if ctx != [] {
      var f := Fill(ctx[0], t);
      PlugLocate(f, ctx[1..]);
      SubtreeAppend(Plug(t, ctx), CtxPath(ctx[1..]), [ctx[0].dir]);
      assert [ctx[0].dir][1..] == [];
    }
  }

  /** A node at path `m` inside the plugged subtree keeps its position, shifted by
      the keys before the hole. */
  lemma PlugPosition(t: Tree, ctx: seq<Frame>, m: seq<Dir>)
    requires ValidPath(t, m)
    ensures ValidPath(Plug(t, ctx), CtxPath(ctx) + m)
    ensures Position(Plug(t, ctx), CtxPath(ctx) + m) == |Before(ctx)| + Position(t, m)
  {
    PlugLocate(t, ctx);
    SubtreeAppend(Plug(t, ctx), CtxPath(ctx), m);
  }

  /** Cut `t` open at the node `p` addresses: the node and the frames above it. */
  function Unzip(t: Tree, p: seq<Dir>): (r: (Tree, seq<Frame>))
    requires ValidPath(t, p)
    ensures r.0 == Subtree(t, p) && Plug(r.0, r.1) == t && CtxPath(r.1) == p
    decreases |p|
  {
    if p == [] then (t, [])
    else
      var q := p[..|p| - 1];
      var d := p[|p| - 1];
      PrefixValid(t, p, |p| - 1);
      var (n, ctx) := Unzip(t, q);
      assert q + [d] == p;
      SubtreeAppend(t, q, [d]);
      assert [d][1..] == [];
      var fr := if d == L then Frame(L, n.color, n.key, n.right) else Frame(R, n.color, n.key, n.left);
      (if d == L then n.left else n.right, [fr] + ctx)
  }

  // ---------------------------------------------------------------------------
  // The red-black rules, split between a subtree and the frames above it.
  // ---------------------------------------------------------------------------

  /** Every sibling above the hole is black-balanced, with the black height a subtree
      of black height `h` in the hole needs at that level. */
  predicate CtxBlack(ctx: seq<Frame>, h: nat)
    decreases |ctx|
  {
    ctx == [] ||
    (&& BlackBalanced(ctx[0].sibling)
     && BlackHeight(ctx[0].sibling) == h
     && CtxBlack(ctx[1..], h + (if ctx[0].color == Black then 1 else 0)))
  }

  /** No red node above the hole has a red child, when the hole's occupant has root
      colour `below`. */
  predicate CtxRed(ctx: seq<Frame>, below: Color)
    decreases |ctx|
  {
    ctx == [] ||
    (&& NoRedRed(ctx[0].sibling)
     && (ctx[0].color == Red ==> below == Black && RootColor(ctx[0].sibling) == Black)
     && CtxRed(ctx[1..], ctx[0].color))
  }

  lemma {:induction false} PlugBlackIff(t: Tree, ctx: seq<Frame>)
    ensures BlackBalanced(Plug(t, ctx)) <==> BlackBalanced(t) && CtxBlack(ctx, BlackHeight(t))
    decreases |ctx|
  {
    if ctx != [] {
      var f := Fill(ctx[0], t);
      PlugBlackIff(f, ctx[1..]);
      if BlackBalanced(f) {
        assert BlackHeight(f) == BlackHeight(t) + (if ctx[0].color == Black then 1 else 0);
      }
    }
  }

  lemma {:induction false} PlugRedIff(t: Tree, ctx: seq<Frame>)
    ensures NoRedRed(Plug(t, ctx)) <==> NoRedRed(t) && CtxRed(ctx, RootColor(t))
    decreases |ctx|
  {
    if ctx != [] {
      PlugRedIff(Fill(ctx[0], t), ctx[1..]);
    }
  }
}

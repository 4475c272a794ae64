/** The debug checks of bst.h (`findDepth`, `verifyRedBlack`, `verifyBTree`) as
    functions, related to the invariants of `RbTree` they are meant to check. A
    failed `assert` inside a check is `None` / `false`. */
module RbVerify {
  import opened RbTree

  function BlackBit(c: Color): nat
  {
    if c == Black then 1 else 0
  }

  /** `BNode::findDepth`: black nodes on the path that prefers the right child,
      this node included. */
  function FindDepth(t: Tree): (d: nat)
    requires t.Node?
    ensures d >= BlackBit(t.color)
    decreases t
  {
    if t.right.Node? then BlackBit(t.color) + FindDepth(t.right)
    else if t.left.Node? then BlackBit(t.color) + FindDepth(t.left)
    else BlackBit(t.color)
  }

  /** In a black-balanced tree every path agrees, so the right-preferring path
      `findDepth` walks measures the black height. */
  lemma {:induction false} FindDepthIsBlackHeight(t: Tree)
    requires t.Node? && BlackBalanced(t)
    ensures FindDepth(t) == BlackHeight(t)
    decreases t
  {
    if t.right.Node? {
      FindDepthIsBlackHeight(t.right);
    } else if t.left.Node? {
      FindDepthIsBlackHeight(t.left);
    }
  }

  /** `BNode::verifyRedBlack(depth)` with the childless-node test of bst.h:872 read
      as intended (`pLeft == nullptr && pRight == nullptr`): the root (`isRoot`, no
      parent) is black, a red node has no red child, and a node without children
      sits exactly `depth` black nodes down. */
  predicate VerifyRedBlack(t: Tree, depth: int, isRoot: bool)
    requires t.Node?
    decreases t
  {
    var d := depth - BlackBit(t.color);
    && !(isRoot && t.color == Red)
    && (t.color == Red ==> RootColor(t.left) == Black && RootColor(t.right) == Black)
    && (t.left.Leaf? && t.right.Leaf? ==> d == 0)
    && (t.left.Node? ==> VerifyRedBlack(t.left, d, false))
    && (t.right.Node? ==> VerifyRedBlack(t.right, d, false))
  }

  /** `verifyRedBlack` as bst.h:872 writes it: `pRight && nullptr` is always false, so
      the depth is never compared with anything. */
  predicate VerifyRedBlackAsWritten(t: Tree, depth: int, isRoot: bool)
    requires t.Node?
    decreases t
  {
    var d := depth - BlackBit(t.color);
    && !(isRoot && t.color == Red)
    && (t.color == Red ==> RootColor(t.left) == Black && RootColor(t.right) == Black)
    && (t.left.Node? ==> VerifyRedBlackAsWritten(t.left, d, false))
    && (t.right.Node? ==> VerifyRedBlackAsWritten(t.right, d, false))
  }

  /** Every subtree that keeps the rules passes the corrected check when started at
      its black height. */
  lemma {:induction false} RulesPassCheck(t: Tree, isRoot: bool)
    requires t.Node? && NoRedRed(t) && BlackBalanced(t) && (isRoot ==> t.color == Black)
    ensures VerifyRedBlack(t, BlackHeight(t), isRoot)
    decreases t
  {
    if t.left.Node? {
      RulesPassCheck(t.left, false);
    }
    if t.right.Node? {
      RulesPassCheck(t.right, false);
    }
  }

  /** A red-black tree passes `root->verifyRedBlack(root->findDepth())`. */
  lemma RedBlackPassesCheck(t: Tree)
    requires t.Node? && IsRedBlack(t)
    ensures VerifyRedBlack(t, FindDepth(t), true)
  {
    FindDepthIsBlackHeight(t);
    RulesPassCheck(t, true);
  }

  /** Passing the corrected check means rules b and c hold. */
  lemma {:induction false} CheckGivesColorRules(t: Tree, depth: int, isRoot: bool)
    requires t.Node? && VerifyRedBlack(t, depth, isRoot)
    ensures NoRedRed(t) && (isRoot ==> t.color == Black)
    decreases t
  {
    var d := depth - BlackBit(t.color);
    if t.left.Node? {
      CheckGivesColorRules(t.left, d, false);
    }
    if t.right.Node? {
      CheckGivesColorRules(t.right, d, false);
    }
  }

  /** As written the check is exactly rules b and c, whatever `depth` is. */
  lemma {:induction false} AsWrittenIsColorRules(t: Tree, depth: int, isRoot: bool)
    requires t.Node?
    ensures VerifyRedBlackAsWritten(t, depth, isRoot) <==> NoRedRed(t) && !(isRoot && t.color == Red)
    decreases t
  {
    var d := depth - BlackBit(t.color);
    if t.left.Node? {
      AsWrittenIsColorRules(t.left, d, false);
    }
    if t.right.Node? {
      AsWrittenIsColorRules(t.right, d, false);
    }
  }

  /** An all-black tree with one path a black node longer than the others: the check
      as written accepts it, the corrected one rejects it. */
  lemma AsWrittenMissesBlackHeight()
    ensures var t := Node(Black, Node(Black, Node(Black, Leaf, 0, Leaf), 1, Node(Black, Leaf, 2, Leaf)), 3,
                          Node(Black, Leaf, 4, Leaf));
            && !BlackBalanced(t)
            && VerifyRedBlackAsWritten(t, FindDepth(t), true)
            && !VerifyRedBlack(t, FindDepth(t), true)
  {
    var t := Node(Black, Node(Black, Node(Black, Leaf, 0, Leaf), 1, Node(Black, Leaf, 2, Leaf)), 3,
                  Node(Black, Leaf, 4, Leaf));
    assert FindDepth(t) == 2;
    AsWrittenIsColorRules(t, 2, true);
  }

  /** `BNode::verifyBTree`: the smallest and largest key of the subtree, or `None`
      when one of its ordering asserts fails. */
  function VerifyBTree(t: Tree): Option<(int, int)>
    requires t.Node?
    decreases t, 0
  {
    var lo, hi := LowCheck(t.left, t.key), HighCheck(t.right, t.key);
    if lo.Some? && hi.Some? then Some((lo.value, hi.value)) else None
  }

  /** The left-child half of `verifyBTree` for a node holding `k`: the child may not
      be greater than `k`, nor may the largest key of its subtree; the smallest key
      of the whole is the child subtree's smallest, or `k` without a left child. */
  function LowCheck(l: Tree, k: int): Option<int>
    decreases l, 1
  {
    if l.Leaf? then Some(k)
    else if k < l.key then None
    else match VerifyBTree(l)
      case None => None
      case Some(e) => if k < e.1 then None else Some(e.0)
  }

  /** The right-child half, mirrored. */
  function HighCheck(r: Tree, k: int): Option<int>
    decreases r, 1
  {
    if r.Leaf? then Some(k)
    else if r.key < k then None
    else match VerifyBTree(r)
      case None => None
      case Some(e) => if e.0 < k then None else Some(e.1)
  }

  /** What `verifyBTree` promises of one subtree: it passes exactly when the subtree
      is ordered, and then reports its first and last key in order. */
  predicate ReportsExtremes(t: Tree)
    requires t.Node?
  {
    && (VerifyBTree(t).Some? <==> Ordered(t))
    && (VerifyBTree(t).Some? ==> VerifyBTree(t).value == (InOrder(t)[0], InOrder(t)[Count(t) - 1]))
  }

  lemma LowCheckIff(l: Tree, k: int)
    requires l.Node? ==> ReportsExtremes(l)
    ensures LowCheck(l, k).Some? <==> Ordered(l) && forall y :: y in InOrder(l) ==> y <= k
    ensures LowCheck(l, k).Some? ==> LowCheck(l, k).value == (InOrder(l) + [k])[0]
  {
    if l.Node? {
      assert l.key in InOrder(l) by { PositionKey(l, []); }
      assert (InOrder(l) + [k])[0] == InOrder(l)[0];
      if Ordered(l) {
        OrderedIffSorted(l);
        LastIsMax(InOrder(l));
        assert InOrder(l)[Count(l) - 1] in InOrder(l);
      }
    }
  }

  lemma HighCheckIff(r: Tree, k: int)
    requires r.Node? ==> ReportsExtremes(r)
    ensures HighCheck(r, k).Some? <==> Ordered(r) && forall y :: y in InOrder(r) ==> k <= y
    ensures HighCheck(r, k).Some? ==> HighCheck(r, k).value == ([k] + InOrder(r))[Count(r)]
  {
    if r.Node? {
      assert r.key in InOrder(r) by { PositionKey(r, []); }
      assert ([k] + InOrder(r))[Count(r)] == InOrder(r)[Count(r) - 1];
      if Ordered(r) {
        OrderedIffSorted(r);
        FirstIsMin(InOrder(r));
        assert InOrder(r)[0] in InOrder(r);
      }
    }
  }

  /** `verifyBTree` passes exactly on ordered trees, and then reports the first and
      the last key in order. */
  lemma {:induction false} VerifyBTreeIffOrdered(t: Tree)
    requires t.Node?
    ensures ReportsExtremes(t)
    decreases t
  {
    var Node(_, l, k, r) := t;
    if l.Node? {
      VerifyBTreeIffOrdered(l);
    }
    if r.Node? {
      VerifyBTreeIffOrdered(r);
    }
    LowCheckIff(l, k);
    HighCheckIff(r, k);
    var ls, rs := InOrder(l), InOrder(r);
    assert InOrder(t) == ls + [k] + rs;
    assert InOrder(t)[0] == (ls + [k])[0];
    assert InOrder(t)[Count(t) - 1] == ([k] + rs)[Count(r)];
  }

  lemma LastIsMax(s: seq<int>)
    requires Sorted(s) && s != []
    ensures forall y :: y in s ==> y <= s[|s| - 1]
  {
  }

  lemma FirstIsMin(s: seq<int>)
    requires Sorted(s) && s != []
    ensures forall y :: y in s ==> s[0] <= y
  {
  }
}

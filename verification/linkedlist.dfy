/** The free functions on `Node<T>` of node.h. A node is a cell of a heap, found by
    its address; `Node<T>*` is a `Link`, null or an address. A list is the sequence
    of addresses its `pNext` links run through, and its contents the data of those
    cells in that order. `new` hands out the address `top` and raises it; `delete`
    takes the cell out of the heap. */
module LinkedList {

  datatype Link = Null | To(addr: nat)

  /** One `Node<T>`: `data`, `pNext`, `pPrev`. */
  datatype Cell<T> = Cell(data: T, next: Link, prev: Link)

  datatype Heap<T> = Heap(cells: map<nat, Cell<T>>, top: nat)

  /** Every cell in use lies below `top`, so `new` never reuses one. */
  predicate HeapOk<T>(h: Heap<T>)
  {
    forall a :: a in h.cells ==> a < h.top
  }

  /** A link that may be followed: null, or to a cell that exists. */
  predicate Live<T>(h: Heap<T>, l: Link)
  {
    l.To? ==> l.addr in h.cells
  }

  /** The link to the `i`-th node of `ps`, null outside it. */
  function LinkAt(ps: seq<nat>, i: int): Link
  {
    if 0 <= i < |ps| then To(ps[i]) else Null
  }

  predicate AllLive<T>(h: Heap<T>, ps: seq<nat>)
  {
    forall i {:trigger ps[i] in h.cells} :: 0 <= i < |ps| ==> ps[i] in h.cells
  }

  predicate Distinct(ps: seq<nat>)
  {
    forall i, j :: 0 <= i < j < |ps| ==> ps[i] != ps[j]
  }

  /** `ps` is a whole list of `h`: distinct cells, each `pNext` leading to the next
      one and each `pPrev` to the one before, both null at the ends. */
  predicate IsList<T>(h: Heap<T>, ps: seq<nat>)
  {
    && AllLive(h, ps) && Distinct(ps)
    && (forall i {:trigger h.cells[ps[i]]} :: 0 <= i < |ps| ==> h.cells[ps[i]].next == LinkAt(ps, i + 1))
    && (forall i {:trigger h.cells[ps[i]]} :: 0 <= i < |ps| ==> h.cells[ps[i]].prev == LinkAt(ps, i - 1))
  }

  /** The data along `ps`. */
  function Data<T>(h: Heap<T>, ps: seq<nat>): (r: seq<T>)
    requires AllLive(h, ps)
    ensures |r| == |ps|
    ensures forall i {:trigger r[i]} :: 0 <= i < |ps| ==> r[i] == h.cells[ps[i]].data
  {
    if ps == [] then [] else Data(h, ps[..|ps| - 1]) + [h.cells[ps[|ps| - 1]].data]
  }

  /** `h'` keeps every cell of `h` outside `ps` as it was. */
  ghost predicate Untouched<T>(h: Heap<T>, h': Heap<T>, ps: seq<nat>)
  {
    forall a {:trigger h'.cells[a]} {:trigger a in h'.cells} :: a in h.cells && a !in ps ==> a in h'.cells && h'.cells[a] == h.cells[a]
  }

  /** A list is unaffected by changes to cells outside it. */
  lemma ListFrame<T>(h: Heap<T>, h': Heap<T>, ps: seq<nat>, qs: seq<nat>)
    requires IsList(h, ps) && Untouched(h, h', qs)
    requires forall i :: 0 <= i < |ps| ==> ps[i] !in qs
    ensures IsList(h', ps) && Data(h', ps) == Data(h, ps)
  {
    assert forall i :: 0 <= i < |ps| ==> h'.cells[ps[i]] == h.cells[ps[i]];
  }

  /** Two whole lists of one heap that start at the same head run through the same
      nodes: a head pointer determines its list. */
  lemma {:induction false} ListFromHead<T>(h: Heap<T>, ps: seq<nat>, qs: seq<nat>)
    requires IsList(h, ps) && IsList(h, qs) && LinkAt(ps, 0) == LinkAt(qs, 0)
    ensures ps == qs
  {
    var k := if |ps| < |qs| then |ps| else |qs|;
    ListsAgree(h, ps, qs, k);
    assert ps == ps[..k] && qs == qs[..k];
  }

  /** Two lists from the same head run through the same first `k` nodes and link
      on to the same place. */
  lemma {:induction false} ListsAgree<T>(h: Heap<T>, ps: seq<nat>, qs: seq<nat>, k: nat)
    requires IsList(h, ps) && IsList(h, qs) && LinkAt(ps, 0) == LinkAt(qs, 0)
    requires k <= |ps| && k <= |qs|
    ensures ps[..k] == qs[..k] && LinkAt(ps, k) == LinkAt(qs, k)
  {
    if k > 0 {
      ListsAgree(h, ps, qs, k - 1);
      assert ps[..k] == ps[..k - 1] + [ps[k - 1]] && qs[..k] == qs[..k - 1] + [qs[k - 1]];
      assert h.cells[ps[k - 1]].next == LinkAt(ps, k) && h.cells[qs[k - 1]].next == LinkAt(qs, k);
    }
  }

  // ---------------------------------------------------------------------------
  // size
  // ---------------------------------------------------------------------------

  /** `size(pHead)`: follow `pNext` from the head, counting. */
  method Size<T>(h: Heap<T>, head: Link, ghost ps: seq<nat>) returns (n: nat)
    requires Chain(h, ps) && head == LinkAt(ps, 0)
    ensures n == |ps|
  {
    n := 0;
    var p := head;
    while p.To?
      invariant n <= |ps| && p == LinkAt(ps, n)
      decreases |ps| - n
    {
      p := h.cells[p.addr].next;
      n := n + 1;
    }
  }

  // ---------------------------------------------------------------------------
  // insert and remove
  // ---------------------------------------------------------------------------

  /** `insert(pCurrent, t, after)`: a new node holding `t`, returned. With a null
      `pCurrent` it stands alone; otherwise it is linked in just before `pCurrent`,
      or just after it when `after` is set, fixing the neighbour's back or forward
      link when there is a neighbour. */
  function Insert<T>(h: Heap<T>, cur: Link, t: T, after: bool): (r: (Heap<T>, nat))
    requires HeapOk(h) && Live(h, cur)
    requires cur.To? ==> Live(h, if after then h.cells[cur.addr].next else h.cells[cur.addr].prev)
    ensures HeapOk(r.0) && r.1 !in h.cells && r.0.cells.Keys == h.cells.Keys + {r.1}
    ensures r.0.cells[r.1].data == t
    ensures cur.Null? ==> IsList(r.0, [r.1])
  {
    var q := h.top;
    var c := h.cells[q := Cell(t, Null, Null)];
    if cur.Null? then
      (Heap(c, q + 1), q)
    else if after then
      var a := cur.addr;
      var n := c[a].next;
      var c1 := c[q := Cell(t, n, cur)];
      var c2 := if n.To? then c1[n.addr := c1[n.addr].(prev := To(q))] else c1;
      (Heap(c2[a := c2[a].(next := To(q))], q + 1), q)
    else
      var a := cur.addr;
      var p := c[a].prev;
      var c1 := c[q := Cell(t, cur, p)];
      var c2 := if p.To? then c1[p.addr := c1[p.addr].(next := To(q))] else c1;
      (Heap(c2[a := c2[a].(prev := To(q))], q + 1), q)
  }

  /** Cell by cell: `h'` is `h` with the fresh node `q`, holding `t`, linked in
      between the nodes `j - 1` and `j` of `ps`. */
  ghost predicate LinkedIn<T>(h: Heap<T>, h': Heap<T>, ps: seq<nat>, j: nat, q: nat, t: T)
    requires j <= |ps|
  {
    && h'.cells.Keys == h.cells.Keys + {q}
    && h'.cells[q] == Cell(t, LinkAt(ps, j), LinkAt(ps, j - 1))
    && (j > 0 ==> ps[j - 1] in h.cells && h'.cells[ps[j - 1]] == h.cells[ps[j - 1]].(next := To(q)))
    && (j < |ps| ==> ps[j] in h.cells && h'.cells[ps[j]] == h.cells[ps[j]].(prev := To(q)))
    && forall a {:trigger h'.cells[a]} :: a in h.cells && To(a) != LinkAt(ps, j - 1) && To(a) != LinkAt(ps, j) ==> h'.cells[a] == h.cells[a]
  }

  /** What `insert` does to each cell, told by the links of `pCurrent` alone. */
  lemma InsertCells<T>(h: Heap<T>, a: nat, t: T, after: bool)
    requires HeapOk(h) && a in h.cells
    requires Live(h, h.cells[a].next) && Live(h, h.cells[a].prev)
    requires h.cells[a].next != To(a) && h.cells[a].prev != To(a)
    ensures var (h', q) := Insert(h, To(a), t, after);
            var c := h.cells[a];
            var (before, behind) := if after then (To(a), c.next) else (c.prev, To(a));
            && q !in h.cells && h'.cells.Keys == h.cells.Keys + {q}
            && h'.cells[q] == Cell(t, behind, before)
            && (before.To? ==> h'.cells[before.addr] == h.cells[before.addr].(next := To(q)))
            && (behind.To? ==> h'.cells[behind.addr] == h.cells[behind.addr].(prev := To(q)))
            && forall b {:trigger h'.cells[b]} :: b in h.cells && To(b) != before && To(b) != behind ==> h'.cells[b] == h.cells[b]
  {
  }

  /** Inserting next to the `i`-th node of a list links the new node in between
      the nodes `j - 1` and `j`, where `j` is `i + 1` after and `i` before. */
  lemma InsertLinksIn<T>(h: Heap<T>, ps: seq<nat>, i: nat, t: T, after: bool)
    requires HeapOk(h) && IsList(h, ps) && i < |ps|
    ensures var (h', q) := Insert(h, To(ps[i]), t, after);
            q !in h.cells && LinkedIn(h, h', ps, if after then i + 1 else i, q, t)
  {
    var a := ps[i];
    var c := h.cells[a];
    assert c.next == LinkAt(ps, i + 1) && c.prev == LinkAt(ps, i - 1);
    assert c.next != To(a) && c.prev != To(a) by {
      if i + 1 < |ps| { assert ps[i + 1] != ps[i]; }
      if i > 0 { assert ps[i - 1] != ps[i]; }
    }
    if after {
      InsertLinksInAfter(h, ps, i, t);
    } else {
      InsertLinksInBefore(h, ps, i, t);
    }
  }

  lemma InsertLinksInAfter<T>(h: Heap<T>, ps: seq<nat>, i: nat, t: T)
    requires HeapOk(h) && IsList(h, ps) && i < |ps|
    requires h.cells[ps[i]].next == LinkAt(ps, i + 1) && h.cells[ps[i]].prev == LinkAt(ps, i - 1)
    requires h.cells[ps[i]].next != To(ps[i]) && h.cells[ps[i]].prev != To(ps[i])
    ensures var (h', q) := Insert(h, To(ps[i]), t, true);
            q !in h.cells && LinkedIn(h, h', ps, i + 1, q, t)
  {
    InsertCells(h, ps[i], t, true);
  }

  lemma InsertLinksInBefore<T>(h: Heap<T>, ps: seq<nat>, i: nat, t: T)
    requires HeapOk(h) && IsList(h, ps) && i < |ps|
    requires h.cells[ps[i]].next == LinkAt(ps, i + 1) && h.cells[ps[i]].prev == LinkAt(ps, i - 1)
    requires h.cells[ps[i]].next != To(ps[i]) && h.cells[ps[i]].prev != To(ps[i])
    ensures var (h', q) := Insert(h, To(ps[i]), t, false);
            q !in h.cells && LinkedIn(h, h', ps, i, q, t)
  {
    InsertCells(h, ps[i], t, false);
  }

  /** Putting `q`, not in `ps`, into `ps` keeps its nodes distinct. */
  lemma SpliceDistinct(ps: seq<nat>, j: nat, q: nat)
    requires Distinct(ps) && j <= |ps| && q !in ps
    ensures Distinct(ps[..j] + [q] + ps[j..])
  {
    var ps' := ps[..j] + [q] + ps[j..];
    forall a, b | 0 <= a < b < |ps'|
      ensures ps'[a] != ps'[b]
    {
      if a < j && b > j {
        assert ps'[a] == ps[a] && ps'[b] == ps[b - 1];
      } else if a > j {
        assert ps'[a] == ps[a - 1] && ps'[b] == ps[b - 1];
      } else if b < j {
        assert ps'[a] == ps[a] && ps'[b] == ps[b];
      }
    }
  }

  /** The nodes of the spliced list before the new one: as they were, but for the
      forward link of the last of them. */
  lemma SpliceInBefore<T>(h: Heap<T>, h': Heap<T>, ps: seq<nat>, j: nat, q: nat, t: T, k: nat)
    requires IsList(h, ps) && j <= |ps| && q !in h.cells && LinkedIn(h, h', ps, j, q, t)
    requires k < j
    ensures var ps' := ps[..j] + [q] + ps[j..];
            && ps'[k] == ps[k] && ps[k] in h'.cells
            && h'.cells[ps[k]].next == LinkAt(ps', k + 1)
            && h'.cells[ps[k]].prev == LinkAt(ps', k - 1)
            && h'.cells[ps[k]].data == h.cells[ps[k]].data
  {
    var ps' := ps[..j] + [q] + ps[j..];
    assert ps'[k] == ps[k];
    assert h.cells[ps[k]].next == LinkAt(ps, k + 1) && h.cells[ps[k]].prev == LinkAt(ps, k - 1);
    if k < j - 1 {
      assert ps'[k + 1] == ps[k + 1];
      assert ps[k] != ps[j - 1];
      if j < |ps| { assert ps[k] != ps[j]; }
    }
    if k > 0 {
      assert ps'[k - 1] == ps[k - 1];
    }
  }

  /** The new node of the spliced list. */
  lemma SpliceInNew<T>(h: Heap<T>, h': Heap<T>, ps: seq<nat>, j: nat, q: nat, t: T)
    requires IsList(h, ps) && j <= |ps| && q !in h.cells && LinkedIn(h, h', ps, j, q, t)
    ensures var ps' := ps[..j] + [q] + ps[j..];
            && ps'[j] == q && q in h'.cells
            && h'.cells[q].next == LinkAt(ps', j + 1)
            && h'.cells[q].prev == LinkAt(ps', j - 1)
            && h'.cells[q].data == t
  {
    var ps' := ps[..j] + [q] + ps[j..];
    assert ps'[j] == q;
    if j > 0 {
      assert ps'[j - 1] == ps[j - 1];
    }
    if j < |ps| {
      assert ps'[j + 1] == ps[j];
    }
  }

  /** The nodes of the spliced list after the new one: as they were, but for the
      back link of the first of them. */
  lemma SpliceInAfter<T>(h: Heap<T>, h': Heap<T>, ps: seq<nat>, j: nat, q: nat, t: T, k: nat)
    requires IsList(h, ps) && j <= |ps| && q !in h.cells && LinkedIn(h, h', ps, j, q, t)
    requires j < k <= |ps|
    ensures var ps' := ps[..j] + [q] + ps[j..];
            && ps'[k] == ps[k - 1] && ps[k - 1] in h'.cells
            && h'.cells[ps[k - 1]].next == LinkAt(ps', k + 1)
            && h'.cells[ps[k - 1]].prev == LinkAt(ps', k - 1)
            && h'.cells[ps[k - 1]].data == h.cells[ps[k - 1]].data
  {
    var ps' := ps[..j] + [q] + ps[j..];
    assert ps'[k] == ps[k - 1];
    assert h.cells[ps[k - 1]].next == LinkAt(ps, k) && h.cells[ps[k - 1]].prev == LinkAt(ps, k - 2);
    if k + 1 < |ps'| {
      assert ps'[k + 1] == ps[k];
    }
    if k > j + 1 {
      assert ps'[k - 1] == ps[k - 2];
      assert ps[k - 1] != ps[j];
      if j > 0 { assert ps[k - 1] != ps[j - 1]; }
    }
  }

  /** Linking a fresh node in between two neighbours of a list gives the list with
      the node at that place. */
  lemma SpliceIn<T>(h: Heap<T>, h': Heap<T>, ps: seq<nat>, j: nat, q: nat, t: T)
    requires IsList(h, ps) && j <= |ps| && q !in h.cells && LinkedIn(h, h', ps, j, q, t)
    ensures IsList(h', ps[..j] + [q] + ps[j..])
  {
    var ps' := ps[..j] + [q] + ps[j..];
    assert q !in ps;
    SpliceDistinct(ps, j, q);
    forall k | 0 <= k < |ps'|
      ensures ps'[k] in h'.cells
      ensures h'.cells[ps'[k]].next == LinkAt(ps', k + 1)
      ensures h'.cells[ps'[k]].prev == LinkAt(ps', k - 1)
    {
      if k < j {
        SpliceInBefore(h, h', ps, j, q, t, k);
      } else if k == j {
        SpliceInNew(h, h', ps, j, q, t);
      } else {
        SpliceInAfter(h, h', ps, j, q, t, k);
      }
    }
  }

  /** The data of the spliced list. */
  lemma SpliceInData<T>(h: Heap<T>, h': Heap<T>, ps: seq<nat>, j: nat, q: nat, t: T)
    requires IsList(h, ps) && j <= |ps| && q !in h.cells && LinkedIn(h, h', ps, j, q, t)
    ensures AllLive(h', ps[..j] + [q] + ps[j..])
    ensures Data(h', ps[..j] + [q] + ps[j..]) == Data(h, ps)[..j] + [t] + Data(h, ps)[j..]
  {
    var ps' := ps[..j] + [q] + ps[j..];
    forall k | 0 <= k < |ps'|
      ensures ps'[k] in h'.cells
      ensures h'.cells[ps'[k]].data == (if k < j then h.cells[ps[k]].data else if k == j then t else h.cells[ps[k - 1]].data)
    {
      if k < j {
        SpliceInBefore(h, h', ps, j, q, t, k);
      } else if k == j {
        SpliceInNew(h, h', ps, j, q, t);
      } else {
        SpliceInAfter(h, h', ps, j, q, t, k);
      }
    }
    DataSpliceIn(h, h', ps, ps', j, q, t);
  }

  /** Linking in leaves every cell outside the list as it was. */
  lemma SpliceInFrame<T>(h: Heap<T>, h': Heap<T>, ps: seq<nat>, j: nat, q: nat, t: T)
    requires IsList(h, ps) && j <= |ps| && q !in h.cells && LinkedIn(h, h', ps, j, q, t)
    ensures Untouched(h, h', ps)
  {
    forall a | a in h.cells && a !in ps
      ensures a in h'.cells && h'.cells[a] == h.cells[a]
    {
      if j > 0 { assert a != ps[j - 1]; }
      if j < |ps| { assert a != ps[j]; }
    }
  }

  lemma DataSpliceIn<T>(h: Heap<T>, h': Heap<T>, ps: seq<nat>, ps': seq<nat>, j: nat, q: nat, t: T)
    requires AllLive(h, ps) && j <= |ps| && ps' == ps[..j] + [q] + ps[j..] && AllLive(h', ps')
    requires forall k {:trigger ps'[k]} :: 0 <= k < |ps'| ==>
               h'.cells[ps'[k]].data == (if k < j then h.cells[ps[k]].data else if k == j then t else h.cells[ps[k - 1]].data)
    ensures Data(h', ps') == Data(h, ps)[..j] + [t] + Data(h, ps)[j..]
  {
    var d, d' := Data(h, ps), Data(h, ps)[..j] + [t] + Data(h, ps)[j..];
    forall k | 0 <= k < |ps'|
      ensures Data(h', ps')[k] == d'[k]
    {
      assert Data(h', ps')[k] == h'.cells[ps'[k]].data;
      assert h'.cells[ps'[k]].data == (if k < j then h.cells[ps[k]].data else if k == j then t else h.cells[ps[k - 1]].data);
      if k < j {
        assert d'[k] == d[k] == h.cells[ps[k]].data;
      } else if k == j {
        assert d'[k] == t;
      } else {
        assert d'[k] == d[k - 1] == h.cells[ps[k - 1]].data;
      }
    }
  }

  /** Inserting before the `i`-th node of a list, or after it, splices the new node
      in at that place; no other cell changes but the two neighbours. */
  lemma InsertSplices<T>(h: Heap<T>, ps: seq<nat>, i: nat, t: T, after: bool)
    requires HeapOk(h) && IsList(h, ps) && i < |ps|
    ensures var (h', q) := Insert(h, To(ps[i]), t, after);
            var j := if after then i + 1 else i;
            var ps' := ps[..j] + [q] + ps[j..];
            && IsList(h', ps')
            && Data(h', ps') == Data(h, ps)[..j] + [t] + Data(h, ps)[j..]
            && Untouched(h, h', ps)
  {
    var (h', q) := Insert(h, To(ps[i]), t, after);
    var j := if after then i + 1 else i;
    InsertLinksIn(h, ps, i, t, after);
    SpliceIn(h, h', ps, j, q, t);
    SpliceInData(h, h', ps, j, q, t);
    SpliceInFrame(h, h', ps, j, q, t);
  }

  /** `remove(pRemove)`: link the neighbours of the node to each other, delete it,
      and return the node before it if there is one, else the one after, else null.
      A null `pRemove` changes nothing. */
  function Remove<T>(h: Heap<T>, p: Link): (r: (Heap<T>, Link))
    requires Live(h, p) && (p.To? ==> Live(h, h.cells[p.addr].next) && Live(h, h.cells[p.addr].prev))
    ensures p.To? ==> r.0.cells.Keys == h.cells.Keys - {p.addr}
    ensures p.Null? ==> r == (h, Null)
    ensures r.0.top == h.top
  {
    if p.Null? then (h, Null)
    else
      var c := h.cells[p.addr];
      var c1 := if c.next.To? then h.cells[c.next.addr := h.cells[c.next.addr].(prev := c.prev)] else h.cells;
      var c2 := if c.prev.To? then c1[c.prev.addr := c1[c.prev.addr].(next := c.next)] else c1;
      var ret := if c.prev.To? then c.prev else if c.next.To? then c.next else Null;
      (Heap(c2 - {p.addr}, h.top), ret)
  }

  /** What `remove` does to each cell, told by the links of `pRemove` alone. */
  lemma RemoveCells<T>(h: Heap<T>, a: nat)
    requires a in h.cells && Live(h, h.cells[a].next) && Live(h, h.cells[a].prev)
    requires h.cells[a].next != To(a) && h.cells[a].prev != To(a)
    requires h.cells[a].next.To? ==> h.cells[a].next != h.cells[a].prev
    ensures var (h', ret) := Remove(h, To(a));
            var c := h.cells[a];
            && h'.cells.Keys == h.cells.Keys - {a}
            && (c.prev.To? ==> h'.cells[c.prev.addr] == h.cells[c.prev.addr].(next := c.next))
            && (c.next.To? ==> h'.cells[c.next.addr] == h.cells[c.next.addr].(prev := c.prev))
            && (forall b {:trigger h'.cells[b]} :: b in h.cells && b != a && To(b) != c.prev && To(b) != c.next ==> h'.cells[b] == h.cells[b])
            && ret == (if c.prev.To? then c.prev else c.next)
  {
  }

  /** Cell by cell: `h'` is `h` with the node `i` of `ps` deleted and its neighbours
      linked to each other. */
  ghost predicate LinkedOut<T>(h: Heap<T>, h': Heap<T>, ps: seq<nat>, i: nat)
    requires i < |ps|
  {
    && h'.cells.Keys == h.cells.Keys - {ps[i]}
    && (i > 0 ==> ps[i - 1] in h.cells && ps[i - 1] in h'.cells && h'.cells[ps[i - 1]] == h.cells[ps[i - 1]].(next := LinkAt(ps, i + 1)))
    && (i + 1 < |ps| ==> ps[i + 1] in h.cells && ps[i + 1] in h'.cells && h'.cells[ps[i + 1]] == h.cells[ps[i + 1]].(prev := LinkAt(ps, i - 1)))
    && forall b {:trigger h'.cells[b]} :: b in h.cells && b != ps[i] && To(b) != LinkAt(ps, i - 1) && To(b) != LinkAt(ps, i + 1) ==> h'.cells[b] == h.cells[b]
  }

  lemma RemoveLinksOut<T>(h: Heap<T>, ps: seq<nat>, i: nat)
    requires IsList(h, ps) && i < |ps|
    ensures var (h', ret) := Remove(h, To(ps[i]));
            && LinkedOut(h, h', ps, i)
            && ret == (if i > 0 then LinkAt(ps, i - 1) else LinkAt(ps, i + 1))
  {
    var a := ps[i];
    var c := h.cells[a];
    assert c.next == LinkAt(ps, i + 1) && c.prev == LinkAt(ps, i - 1);
    assert c.next != To(a) && c.prev != To(a) && (c.next.To? ==> c.next != c.prev) by {
      if i + 1 < |ps| { assert ps[i + 1] != ps[i]; }
      if i > 0 { assert ps[i - 1] != ps[i]; }
      if i > 0 && i + 1 < |ps| { assert ps[i - 1] != ps[i + 1]; }
    }
    assert Live(h, c.next) && Live(h, c.prev);
    RemoveCells(h, a);
  }

  lemma SpliceOutDistinct(ps: seq<nat>, i: nat)
    requires Distinct(ps) && i < |ps|
    ensures Distinct(ps[..i] + ps[i + 1..])
    ensures ps[i] !in ps[..i] + ps[i + 1..]
  {
    var ps' := ps[..i] + ps[i + 1..];
    forall a, b | 0 <= a < b < |ps'|
      ensures ps'[a] != ps'[b]
    {
      if b < i {
        assert ps'[a] == ps[a] && ps'[b] == ps[b];
      } else if a < i {
        assert ps'[a] == ps[a] && ps'[b] == ps[b + 1];
      } else {
        assert ps'[a] == ps[a + 1] && ps'[b] == ps[b + 1];
      }
    }
    forall k | 0 <= k < |ps'|
      ensures ps'[k] != ps[i]
    {
      if k < i {
        assert ps'[k] == ps[k];
      } else {
        assert ps'[k] == ps[k + 1];
      }
    }
  }

  /** What a node of the shortened list must satisfy at index `k`. */
  ghost predicate OutNodeOk<T>(h: Heap<T>, h': Heap<T>, ps': seq<nat>, k: nat, p: nat)
    requires k < |ps'|
  {
    && ps'[k] == p && p in h.cells && p in h'.cells
    && h'.cells[p].next == LinkAt(ps', k + 1)
    && h'.cells[p].prev == LinkAt(ps', k - 1)
    && h'.cells[p].data == h.cells[p].data
  }

  /** A node well before the removed one is untouched. */
  lemma SpliceOutFar<T>(h: Heap<T>, h': Heap<T>, ps: seq<nat>, i: nat, k: nat)
    requires IsList(h, ps) && i < |ps| && LinkedOut(h, h', ps, i)
    requires k + 1 < i
    ensures OutNodeOk(h, h', ps[..i] + ps[i + 1..], k, ps[k])
  {
    var ps' := ps[..i] + ps[i + 1..];
    assert ps'[k] == ps[k] && ps'[k + 1] == ps[k + 1];
    assert ps[k] != ps[i] && ps[k] != ps[i - 1];
    assert i + 1 < |ps| ==> ps[k] != ps[i + 1];
    assert h'.cells[ps[k]] == h.cells[ps[k]];
    assert h.cells[ps[k]].next == LinkAt(ps, k + 1) && h.cells[ps[k]].prev == LinkAt(ps, k - 1);
    if k > 0 {
      assert ps'[k - 1] == ps[k - 1];
    }
  }

  /** The node just before the removed one now leads to the one just after. */
  lemma SpliceOutPred<T>(h: Heap<T>, h': Heap<T>, ps: seq<nat>, i: nat)
    requires IsList(h, ps) && 0 < i < |ps| && LinkedOut(h, h', ps, i)
    ensures OutNodeOk(h, h', ps[..i] + ps[i + 1..], i - 1, ps[i - 1])
  {
    var ps' := ps[..i] + ps[i + 1..];
    assert ps'[i - 1] == ps[i - 1];
    assert h.cells[ps[i - 1]].prev == LinkAt(ps, i - 2);
    if i + 1 < |ps| {
      assert ps'[i] == ps[i + 1];
    }
    if i > 1 {
      assert ps'[i - 2] == ps[i - 2];
    }
  }

  /** The node just after the removed one now leads back to the one just before. */
  lemma SpliceOutSucc<T>(h: Heap<T>, h': Heap<T>, ps: seq<nat>, i: nat)
    requires IsList(h, ps) && i + 1 < |ps| && LinkedOut(h, h', ps, i)
    ensures OutNodeOk(h, h', ps[..i] + ps[i + 1..], i, ps[i + 1])
  {
    var ps' := ps[..i] + ps[i + 1..];
    assert ps'[i] == ps[i + 1];
    assert h.cells[ps[i + 1]].next == LinkAt(ps, i + 2);
    if i + 2 < |ps| {
      assert ps'[i + 1] == ps[i + 2];
    }
    if i > 0 {
      assert ps'[i - 1] == ps[i - 1];
    }
  }

  /** A node well after the removed one is untouched. */
  lemma SpliceOutFarAfter<T>(h: Heap<T>, h': Heap<T>, ps: seq<nat>, i: nat, k: nat)
    requires IsList(h, ps) && i < |ps| && LinkedOut(h, h', ps, i)
    requires i < k < |ps| - 1
    ensures OutNodeOk(h, h', ps[..i] + ps[i + 1..], k, ps[k + 1])
  {
    var ps' := ps[..i] + ps[i + 1..];
    assert ps'[k] == ps[k + 1] && ps'[k - 1] == ps[k];
    assert ps[k + 1] != ps[i] && ps[k + 1] != ps[i + 1];
    assert i > 0 ==> ps[k + 1] != ps[i - 1];
    assert h'.cells[ps[k + 1]] == h.cells[ps[k + 1]];
    assert h.cells[ps[k + 1]].next == LinkAt(ps, k + 2) && h.cells[ps[k + 1]].prev == LinkAt(ps, k);
    if k + 1 < |ps'| {
      assert ps'[k + 1] == ps[k + 2];
    }
  }

  /** Every node of the shortened list. */
  lemma SpliceOutAt<T>(h: Heap<T>, h': Heap<T>, ps: seq<nat>, i: nat, k: nat)
    requires IsList(h, ps) && i < |ps| && LinkedOut(h, h', ps, i)
    requires k < |ps| - 1
    ensures OutNodeOk(h, h', ps[..i] + ps[i + 1..], k, if k < i then ps[k] else ps[k + 1])
  {
    if k + 1 < i {
      SpliceOutFar(h, h', ps, i, k);
    } else if k + 1 == i {
      SpliceOutPred(h, h', ps, i);
    } else if k == i {
      SpliceOutSucc(h, h', ps, i);
    } else {
      SpliceOutFarAfter(h, h', ps, i, k);
    }
  }

  /** Linking the neighbours of a node to each other and deleting it gives the list
      without the node. */
  lemma SpliceOut<T>(h: Heap<T>, h': Heap<T>, ps: seq<nat>, i: nat)
    requires IsList(h, ps) && i < |ps| && LinkedOut(h, h', ps, i)
    ensures IsList(h', ps[..i] + ps[i + 1..])
  {
    var ps' := ps[..i] + ps[i + 1..];
    SpliceOutDistinct(ps, i);
    forall k | 0 <= k < |ps'|
      ensures ps'[k] in h'.cells
      ensures h'.cells[ps'[k]].next == LinkAt(ps', k + 1)
      ensures h'.cells[ps'[k]].prev == LinkAt(ps', k - 1)
    {
      SpliceOutAt(h, h', ps, i, k);
    }
  }

  lemma DataSpliceOut<T>(h: Heap<T>, h': Heap<T>, ps: seq<nat>, ps': seq<nat>, i: nat)
    requires AllLive(h, ps) && i < |ps| && ps' == ps[..i] + ps[i + 1..] && AllLive(h', ps')
    requires forall k {:trigger ps'[k]} :: 0 <= k < |ps'| ==>
               h'.cells[ps'[k]].data == (if k < i then h.cells[ps[k]].data else h.cells[ps[k + 1]].data)
    ensures Data(h', ps') == Data(h, ps)[..i] + Data(h, ps)[i + 1..]
  {
    var d, d' := Data(h, ps), Data(h, ps)[..i] + Data(h, ps)[i + 1..];
    forall k | 0 <= k < |ps'|
      ensures Data(h', ps')[k] == d'[k]
    {
      assert Data(h', ps')[k] == h'.cells[ps'[k]].data;
      if k < i {
        assert d'[k] == d[k] == h.cells[ps[k]].data;
      } else {
        assert d'[k] == d[k + 1] == h.cells[ps[k + 1]].data;
      }
    }
  }

  /** The data of the shortened list. */
  lemma SpliceOutData<T>(h: Heap<T>, h': Heap<T>, ps: seq<nat>, i: nat)
    requires IsList(h, ps) && i < |ps| && LinkedOut(h, h', ps, i)
    ensures AllLive(h', ps[..i] + ps[i + 1..])
    ensures Data(h', ps[..i] + ps[i + 1..]) == Data(h, ps)[..i] + Data(h, ps)[i + 1..]
  {
    var ps' := ps[..i] + ps[i + 1..];
    forall k | 0 <= k < |ps'|
      ensures ps'[k] in h'.cells
      ensures h'.cells[ps'[k]].data == (if k < i then h.cells[ps[k]].data else h.cells[ps[k + 1]].data)
    {
      SpliceOutAt(h, h', ps, i, k);
    }
    DataSpliceOut(h, h', ps, ps', i);
  }

  /** Removing leaves every cell outside the list as it was. */
  lemma SpliceOutFrame<T>(h: Heap<T>, h': Heap<T>, ps: seq<nat>, i: nat)
    requires IsList(h, ps) && i < |ps| && LinkedOut(h, h', ps, i)
    ensures Untouched(h, h', ps)
  {
    forall a | a in h.cells && a !in ps
      ensures a in h'.cells && h'.cells[a] == h.cells[a]
    {
      assert a != ps[i];
      if i > 0 { assert a != ps[i - 1]; }
      if i + 1 < |ps| { assert a != ps[i + 1]; }
    }
  }

  /** Removing the `i`-th node of a list takes exactly it out of the list and the
      heap, and returns its predecessor, else its successor, else null. */
  lemma RemoveSplices<T>(h: Heap<T>, ps: seq<nat>, i: nat)
    requires IsList(h, ps) && i < |ps|
    ensures var (h', ret) := Remove(h, To(ps[i]));
            var ps' := ps[..i] + ps[i + 1..];
            && ps[i] !in h'.cells
            && IsList(h', ps')
            && Data(h', ps') == Data(h, ps)[..i] + Data(h, ps)[i + 1..]
            && ret == (if i > 0 then LinkAt(ps, i - 1) else LinkAt(ps, i + 1))
            && Untouched(h, h', ps)
  {
    var (h', ret) := Remove(h, To(ps[i]));
    RemoveLinksOut(h, ps, i);
    SpliceOut(h, h', ps, i);
    SpliceOutData(h, h', ps, i);
    SpliceOutFrame(h, h', ps, i);
  }

  /** Unlinking a node that was linked in between two neighbours restores every
      cell as it was. */
  lemma RemoveUnlinks<T>(h: Heap<T>, h': Heap<T>, ps: seq<nat>, j: nat, q: nat, t: T)
    requires IsList(h, ps) && j <= |ps| && q !in h.cells && LinkedIn(h, h', ps, j, q, t)
    ensures Live(h', h'.cells[q].next) && Live(h', h'.cells[q].prev)
    ensures Remove(h', To(q)).0.cells == h.cells
  {
    var c := h'.cells[q];
    assert c.next != To(q) && c.prev != To(q) && (c.next.To? ==> c.next != c.prev) by {
      if j > 0 { assert ps[j - 1] in h.cells; }
      if j < |ps| { assert ps[j] in h.cells; }
      if 0 < j < |ps| { assert ps[j - 1] != ps[j]; }
    }
    RemoveCells(h', q);
    var h'' := Remove(h', To(q)).0;
    forall a | a in h.cells
      ensures a in h''.cells && h''.cells[a] == h.cells[a]
    {
      if j > 0 && a == ps[j - 1] {
        assert h.cells[a].next == LinkAt(ps, j);
      } else if j < |ps| && a == ps[j] {
        assert h.cells[a].prev == LinkAt(ps, j - 1);
      }
    }
    assert h''.cells.Keys == h.cells.Keys;
  }

  /** Removing the node just inserted gives back the heap's cells as they were
      before the insertion. */
  lemma RemoveUndoesInsert<T>(h: Heap<T>, ps: seq<nat>, i: nat, t: T, after: bool)
    requires HeapOk(h) && IsList(h, ps) && i < |ps|
    ensures var (h', q) := Insert(h, To(ps[i]), t, after);
            && Live(h', h'.cells[q].next) && Live(h', h'.cells[q].prev)
            && Remove(h', To(q)).0.cells == h.cells
  {
    var (h', q) := Insert(h, To(ps[i]), t, after);
    InsertLinksIn(h, ps, i, t, after);
    RemoveUnlinks(h, h', ps, if after then i + 1 else i, q, t);
  }

  // ---------------------------------------------------------------------------
  // the states of the list walks of copy, assign and clear
  // ---------------------------------------------------------------------------

  /** The forward half of `IsList`: distinct live nodes, each `pNext` leading to the
      next one and the last null. Walking a list forward and deleting it needs no
      more. */
  ghost predicate Chain<T>(h: Heap<T>, ps: seq<nat>)
  {
    && AllLive(h, ps) && Distinct(ps)
    && forall i {:trigger h.cells[ps[i]]} :: 0 <= i < |ps| ==> h.cells[ps[i]].next == LinkAt(ps, i + 1)
  }

  /** `h'` keeps the links of every node of `ps`, whatever their data. */
  ghost predicate SameLinks<T>(h: Heap<T>, h': Heap<T>, ps: seq<nat>)
    requires AllLive(h, ps)
  {
    forall i :: 0 <= i < |ps| ==>
      && ps[i] in h'.cells
      && h'.cells[ps[i]].next == h.cells[ps[i]].next
      && h'.cells[ps[i]].prev == h.cells[ps[i]].prev
  }

  /** The state of the loop of `copy` and of the second loop of `assign`: `rs'` extends `rs` by fresh nodes and
      holds the first `|rs'|` data of `ps`; `p` is the next source node and `last`
      the last node of `rs'`. */
  ghost predicate Appending<T>(h: Heap<T>, ps: seq<nat>, rs: seq<nat>, h': Heap<T>, rs': seq<nat>, p: Link, last: Link, dest: Link)
  {
    && HeapOk(h') && IsList(h, ps) && IsList(h', rs') && |rs| <= |rs'| <= |ps| && rs'[..|rs|] == rs
    && p == LinkAt(ps, |rs'|) && last == LinkAt(rs', |rs'| - 1) && dest == LinkAt(rs', 0)
    && Data(h', rs') == Data(h, ps)[..|rs'|]
    && (forall i :: |rs| <= i < |rs'| ==> rs'[i] !in h.cells)
    && (forall i :: 0 <= i < |rs| ==> rs[i] !in ps)
    && (forall a :: a in h.cells ==> a in h'.cells)
    && Untouched(h, h', rs)
  }

  /** The state of the first loop of `assign` after `k` steps: the first `k`
      destination nodes hold the first `k` source data, and nothing else changed. */
  ghost predicate Overwriting<T>(h: Heap<T>, h': Heap<T>, ds: seq<nat>, ps: seq<nat>, k: nat)
  {
    && IsList(h, ds) && IsList(h, ps) && k <= |ds| && k <= |ps|
    && (forall i :: 0 <= i < |ds| ==> ds[i] !in ps)
    && h'.top == h.top && h'.cells.Keys == h.cells.Keys
    && SameLinks(h, h', ds) && Untouched(h, h', ds)
    && (forall i :: 0 <= i < |ds| ==> h'.cells[ds[i]].data == (if i < k then h.cells[ps[i]].data else h.cells[ds[i]].data))
  }


  /** After `assign`: `rs` is a list of `h'` holding the values of the source list
      `ps`, which is itself unchanged, and nothing outside `ds` was touched. */
  ghost predicate AssignedFrom<T>(h: Heap<T>, h': Heap<T>, ds: seq<nat>, ps: seq<nat>, rs: seq<nat>)
  {
    && IsList(h, ps) && HeapOk(h') && IsList(h', rs) && Data(h', rs) == Data(h, ps)
    && Untouched(h, h', ds) && IsList(h', ps) && Data(h', ps) == Data(h, ps)
  }

  /** Between the second and third loop of `assign`: the first `k` destination nodes
      hold the source's first `k` values, and only data in `ds` was changed. */
  ghost predicate Overwritten<T>(h: Heap<T>, h1: Heap<T>, ds: seq<nat>, ps: seq<nat>, k: nat)
  {
    && HeapOk(h) && IsList(h, ps) && HeapOk(h1) && h1.top == h.top && h1.cells.Keys == h.cells.Keys
    && Untouched(h, h1, ds) && IsList(h1, ds) && IsList(h1, ps) && Data(h1, ps) == Data(h, ps)
    && k <= |ds| && k <= |ps| && Data(h1, ds)[..k] == Data(h, ps)[..k]
    && (forall i :: 0 <= i < |ps| ==> ps[i] !in ds)
  }
}

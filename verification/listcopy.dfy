/** The whole-list functions of node.h: `copy`, `assign`, `clear` and `swap`. They
    walk a list by its `pNext` links, allocating, overwriting or deleting one node
    per step, on the heap model of `LinkedList`. */
module ListCopy {
  import opened LinkedList

  /** One step of `copy` and of the second loop of `assign`: a new node holding `d`,
      hung after `last` when there is one (`last->pNext = pNew; pNew->pPrev = last`). */
  function LinkNew<T>(h: Heap<T>, last: Link, d: T): (r: (Heap<T>, nat))
    requires Live(h, last)
    ensures r.1 == h.top && r.0.top == h.top + 1
  {
    var q := h.top;
    var c := h.cells[q := Cell(d, Null, Null)];
    if last.To? then
      var c1 := c[last.addr := c[last.addr].(next := To(q))];
      (Heap(c1[q := c1[q].(prev := last)], q + 1), q)
    else (Heap(c, q + 1), q)
  }

  /** Hanging a node after the last one is inserting after it. */
  lemma LinkNewIsInsertAfter<T>(h: Heap<T>, last: Link, d: T)
    requires HeapOk(h) && Live(h, last) && (last.To? ==> h.cells[last.addr].next == Null)
    ensures LinkNew(h, last, d) == Insert(h, last, d, true)
  {
    if last.To? {
      var (h1, q) := LinkNew(h, last, d);
      var (h2, q2) := Insert(h, last, d, true);
      assert h1.cells == h2.cells;
    }
  }

  /** `LinkNew` after the last node of a list extends it by one fresh node holding
      `d`, touching no cell outside the list. */
  lemma Append<T>(h: Heap<T>, qs: seq<nat>, d: T)
    requires HeapOk(h) && IsList(h, qs)
    ensures var (h', q) := LinkNew(h, LinkAt(qs, |qs| - 1), d);
            && HeapOk(h') && q !in h.cells && h'.cells.Keys == h.cells.Keys + {q}
            && IsList(h', qs + [q])
            && Data(h', qs + [q]) == Data(h, qs) + [d]
            && Untouched(h, h', qs)
  {
    if qs == [] {
      AppendToEmpty(h, d);
    } else {
      AppendToLast(h, qs, d);
    }
  }

  lemma AppendToEmpty<T>(h: Heap<T>, d: T)
    requires HeapOk(h)
    ensures var (h', q) := LinkNew(h, Null, d);
            && HeapOk(h') && q !in h.cells && h'.cells.Keys == h.cells.Keys + {q}
            && IsList(h', [q])
            && Data(h', [q]) == [d]
            && Untouched(h, h', [])
  {
    LinkNewIsInsertAfter(h, Null, d);
  }

  lemma AppendToLast<T>(h: Heap<T>, qs: seq<nat>, d: T)
    requires HeapOk(h) && IsList(h, qs) && qs != []
    ensures var (h', q) := LinkNew(h, To(qs[|qs| - 1]), d);
            && HeapOk(h') && q !in h.cells && h'.cells.Keys == h.cells.Keys + {q}
            && IsList(h', qs + [q])
            && Data(h', qs + [q]) == Data(h, qs) + [d]
            && Untouched(h, h', qs)
  {
    var n := |qs|;
    assert h.cells[qs[n - 1]].next == LinkAt(qs, n);
    LinkNewIsInsertAfter(h, To(qs[n - 1]), d);
    var (h', q) := Insert(h, To(qs[n - 1]), d, true);
    InsertAtEnd(h, qs, d, h', q);
  }

  /** Inserting after the last node of a list extends it by one. */
  lemma InsertAtEnd<T>(h: Heap<T>, qs: seq<nat>, d: T, h': Heap<T>, q: nat)
    requires HeapOk(h) && IsList(h, qs) && qs != []
    requires (h', q) == Insert(h, To(qs[|qs| - 1]), d, true)
    ensures IsList(h', qs + [q]) && Data(h', qs + [q]) == Data(h, qs) + [d]
    ensures Untouched(h, h', qs)
  {
    var n := |qs|;
    InsertSplices(h, qs, n - 1, d, true);
    SpliceAtEnd(qs, q, Data(h, qs), d);
  }

  lemma SpliceAtEnd<X, Y>(xs: seq<X>, x: X, ys: seq<Y>, y: Y)
    ensures xs[..|xs|] + [x] + xs[|xs|..] == xs + [x]
    ensures |ys| == |xs| ==> ys[..|xs|] + [y] + ys[|xs|..] == ys + [y]
  {
    assert xs[..|xs|] == xs && xs[|xs|..] == [];
    assert ys[..|ys|] == ys && ys[|ys|..] == [];
  }

  /** Changing only data keeps a list a list. */
  lemma SameLinksList<T>(h: Heap<T>, h': Heap<T>, ps: seq<nat>)
    requires IsList(h, ps) && SameLinks(h, h', ps)
    ensures IsList(h', ps)
  {
    forall i | 0 <= i < |ps|
      ensures h'.cells[ps[i]].next == LinkAt(ps, i + 1) && h'.cells[ps[i]].prev == LinkAt(ps, i - 1)
    {
      assert h.cells[ps[i]].next == LinkAt(ps, i + 1) && h.cells[ps[i]].prev == LinkAt(ps, i - 1);
    }
  }

  // ---------------------------------------------------------------------------
  // copy
  // ---------------------------------------------------------------------------

  /** One step of the loop keeps its state. */
  lemma AppendingStep<T>(h: Heap<T>, ps: seq<nat>, rs: seq<nat>, h': Heap<T>, rs': seq<nat>, p: Link, last: Link, dest: Link)
    requires Appending(h, ps, rs, h', rs', p, last, dest) && p.To?
    ensures p.addr in h'.cells && h'.cells[p.addr] == h.cells[p.addr]
    ensures var (h2, q) := LinkNew(h', last, h'.cells[p.addr].data);
            Appending(h, ps, rs, h2, rs' + [q], h2.cells[p.addr].next, To(q), if last.Null? then To(q) else dest)
  {
    SourceNodeKept(h, ps, rs, h', rs', p, last, dest);
    var d := h'.cells[p.addr].data;
    Append(h', rs', d);
    var (h2, q) := LinkNew(h', last, d);
    AppendingStepFrom(h, ps, rs, h', rs', p, last, dest, h2, q, d);
  }

  /** One pass of the copy loop: a new node holding the source node's value is hung
      after `last`, and the source pointer moves on. */
  method AppendOne<T>(ghost h: Heap<T>, ghost ps: seq<nat>, ghost rs: seq<nat>, h': Heap<T>, ghost rs': seq<nat>, p: Link, last: Link, dest: Link)
    returns (h2: Heap<T>, last2: Link, dest2: Link, ghost rs2: seq<nat>, p2: Link)
    requires Appending(h, ps, rs, h', rs', p, last, dest) && p.To?
    ensures Appending(h, ps, rs, h2, rs2, p2, last2, dest2)
    ensures |rs'| < |rs2| <= |ps|
  {
    AppendingStep(h, ps, rs, h', rs', p, last, dest);
    var (h3, q) := LinkNew(h', last, h'.cells[p.addr].data);
    h2, last2, rs2 := h3, To(q), rs' + [q];
    dest2 := if last.Null? then To(q) else dest;
    p2 := h3.cells[p.addr].next;
  }

  /** The source node a step reads is one of `h`, as it was. */
  lemma SourceNodeKept<T>(h: Heap<T>, ps: seq<nat>, rs: seq<nat>, h': Heap<T>, rs': seq<nat>, p: Link, last: Link, dest: Link)
    requires Appending(h, ps, rs, h', rs', p, last, dest) && p.To?
    ensures p.addr in h.cells && p.addr !in rs' && p.addr in h'.cells && h'.cells[p.addr] == h.cells[p.addr]
  {
    var k := |rs'|;
    assert p.addr == ps[k] && ps[k] in h.cells;
    forall i | 0 <= i < |rs'| ensures rs'[i] != ps[k] {
      if i < |rs| {
        assert rs'[i] == rs[i] && rs[i] !in ps;
      }
    }
  }

  /** The same, told by what `Append` promises of the step. */
  lemma AppendingStepFrom<T>(h: Heap<T>, ps: seq<nat>, rs: seq<nat>, h': Heap<T>, rs': seq<nat>, p: Link, last: Link, dest: Link,
                             h2: Heap<T>, q: nat, d: T)
    requires Appending(h, ps, rs, h', rs', p, last, dest) && p.To?
    requires p.addr in h.cells && p.addr !in rs' && p.addr in h'.cells && h'.cells[p.addr] == h.cells[p.addr]
    requires d == h'.cells[p.addr].data && last == LinkAt(rs', |rs'| - 1)
    requires HeapOk(h2) && q !in h'.cells && h2.cells.Keys == h'.cells.Keys + {q}
    requires IsList(h2, rs' + [q]) && Data(h2, rs' + [q]) == Data(h', rs') + [d] && Untouched(h', h2, rs')
    ensures Appending(h, ps, rs, h2, rs' + [q], h2.cells[p.addr].next, To(q), if last.Null? then To(q) else dest)
  {
    var k, rs2 := |rs'|, rs' + [q];
    assert d == Data(h, ps)[k];
    AppendStep(h, h', h2, rs, rs', q);
    SliceSnoc(Data(h, ps), k);
    assert Data(h2, rs2) == Data(h, ps)[..|rs2|];
    assert h2.cells[ps[k]] == h.cells[ps[k]];
    assert h2.cells[p.addr].next == LinkAt(ps, |rs2|) by {
      assert h.cells[ps[k]].next == LinkAt(ps, k + 1);
    }
    assert To(q) == LinkAt(rs2, |rs2| - 1);
    assert (if last.Null? then To(q) else dest) == LinkAt(rs2, 0) by {
      if last.Null? {
        assert rs' == [];
      }
    }
  }

  /** `pLast->pNext = nullptr`, ending a list at `pLast`. */
  function EndList<T>(h: Heap<T>, last: Link): (r: Heap<T>)
    requires Live(h, last) && last.To?
    ensures r.top == h.top && r.cells.Keys == h.cells.Keys
    ensures r.cells[last.addr].next == Null
  {
    h.(cells := h.cells[last.addr := h.cells[last.addr].(next := Null)])
  }

  /** Ending a list at its own last node changes nothing. */
  lemma EndListKeeps<T>(h: Heap<T>, rs: seq<nat>)
    requires IsList(h, rs) && rs != []
    ensures EndList(h, To(rs[|rs| - 1])) == h
  {
    var n := |rs| - 1;
    assert h.cells[rs[n]].next == LinkAt(rs, n + 1) == Null;
    assert EndList(h, To(rs[n])).cells == h.cells;
  }

  /** The loop of `copy` and the second loop of `assign`: while the source has
      nodes left, hang a new node holding the source node's data after the last
      node made. `rs` are the destination nodes so far, matching the source's
      first `|rs|` data. */
  method AppendRest<T>(h: Heap<T>, ghost ps: seq<nat>, ghost rs: seq<nat>, src: Link, last: Link, dest: Link)
    returns (h': Heap<T>, last': Link, dest': Link, ghost rs': seq<nat>)
    requires HeapOk(h) && IsList(h, ps) && IsList(h, rs) && |rs| <= |ps|
    requires src == LinkAt(ps, |rs|) && last == LinkAt(rs, |rs| - 1) && dest == LinkAt(rs, 0)
    requires forall i :: 0 <= i < |rs| ==> rs[i] !in ps
    requires Data(h, rs) == Data(h, ps)[..|rs|]
    ensures HeapOk(h') && IsList(h', rs') && |rs'| == |ps| && rs'[..|rs|] == rs
    ensures last' == LinkAt(rs', |rs'| - 1) && dest' == LinkAt(rs', 0)
    ensures Data(h', rs') == Data(h, ps)
    ensures forall i :: |rs| <= i < |rs'| ==> rs'[i] !in h.cells
    ensures Untouched(h, h', rs)
  {
    var p;
    AppendingInit(h, ps, rs, src, last, dest);
    h', last', dest', rs', p := AppendFrom(h, ps, rs, h, rs, src, last, dest);
    AppendingDone(h, ps, rs, h', rs', p, last', dest');
  }

  /** The copy loop from some pass on, until the source pointer is null. */
  method AppendFrom<T>(ghost h: Heap<T>, ghost ps: seq<nat>, ghost rs: seq<nat>, h': Heap<T>, ghost rs': seq<nat>, p: Link, last: Link, dest: Link)
    returns (h2: Heap<T>, last2: Link, dest2: Link, ghost rs2: seq<nat>, p2: Link)
    requires Appending(h, ps, rs, h', rs', p, last, dest)
    ensures Appending(h, ps, rs, h2, rs2, p2, last2, dest2) && p2.Null?
    decreases |ps| - |rs'|
  {
    if p.Null? {
      return h', last, dest, rs', p;
    }
    var h3, last3, dest3, rs3, p3 := AppendOne(h, ps, rs, h', rs', p, last, dest);
    h2, last2, dest2, rs2, p2 := AppendFrom(h, ps, rs, h3, rs3, p3, last3, dest3);
  }

  /** Before the first pass nothing is appended yet. */
  lemma AppendingInit<T>(h: Heap<T>, ps: seq<nat>, rs: seq<nat>, src: Link, last: Link, dest: Link)
    requires HeapOk(h) && IsList(h, ps) && IsList(h, rs) && |rs| <= |ps|
    requires src == LinkAt(ps, |rs|) && last == LinkAt(rs, |rs| - 1) && dest == LinkAt(rs, 0)
    requires forall i :: 0 <= i < |rs| ==> rs[i] !in ps
    requires Data(h, rs) == Data(h, ps)[..|rs|]
    ensures Appending(h, ps, rs, h, rs, src, last, dest)
  {
    assert rs[..|rs|] == rs;
  }

  /** When the source pointer runs off the end, every source value is copied. */
  lemma AppendingDone<T>(h: Heap<T>, ps: seq<nat>, rs: seq<nat>, h': Heap<T>, rs': seq<nat>, p: Link, last: Link, dest: Link)
    requires Appending(h, ps, rs, h', rs', p, last, dest) && p.Null?
    ensures HeapOk(h') && IsList(h', rs') && |rs'| == |ps| && rs'[..|rs|] == rs
    ensures last == LinkAt(rs', |rs'| - 1) && dest == LinkAt(rs', 0)
    ensures Data(h', rs') == Data(h, ps)
    ensures forall i :: |rs| <= i < |rs'| ==> rs'[i] !in h.cells
    ensures Untouched(h, h', rs)
  {
    assert Data(h, ps)[..|ps|] == Data(h, ps);
  }

  /** The frame facts of one step of `AppendRest`. */
  lemma AppendStep<T>(h: Heap<T>, h1: Heap<T>, h2: Heap<T>, rs: seq<nat>, rs1: seq<nat>, q: nat)
    requires |rs| <= |rs1| && rs1[..|rs|] == rs && q !in h1.cells
    requires forall i :: |rs| <= i < |rs1| ==> rs1[i] !in h.cells
    requires Untouched(h, h1, rs) && Untouched(h1, h2, rs1)
    requires forall a :: a in h.cells ==> a in h1.cells
    requires forall a :: a in h1.cells ==> a in h2.cells
    ensures Untouched(h, h2, rs)
    ensures (rs1 + [q])[..|rs|] == rs
    ensures forall i :: |rs| <= i < |rs1| + 1 ==> (rs1 + [q])[i] !in h.cells
    ensures forall a :: a in h.cells ==> a in h2.cells
  {
    assert q !in h.cells;
    forall a | a in h.cells && a !in rs
      ensures a in h2.cells && h2.cells[a] == h.cells[a]
    {
      forall i | 0 <= i < |rs1| ensures rs1[i] != a {
        if i < |rs| { assert rs1[i] == rs[i]; }
      }
      assert h1.cells[a] == h.cells[a];
    }
    assert (rs1 + [q])[..|rs|] == rs1[..|rs|];
  }

  lemma SliceSnoc<X>(s: seq<X>, k: nat)
    requires k < |s|
    ensures s[..k] + [s[k]] == s[..k + 1]
  {
  }

  /** `copy(pSource)`: a new list of fresh nodes holding the source's data in order,
      or null for a null source. Nothing already in the heap changes, so the source
      list is still there as it was. */
  method Copy<T>(h: Heap<T>, src: Link, ghost ps: seq<nat>) returns (h': Heap<T>, dest: Link, ghost qs: seq<nat>)
    requires HeapOk(h) && IsList(h, ps) && src == LinkAt(ps, 0)
    ensures HeapOk(h') && IsList(h', qs) && dest == LinkAt(qs, 0)
    ensures Data(h', qs) == Data(h, ps)
    ensures forall i :: 0 <= i < |qs| ==> qs[i] !in h.cells
    ensures Untouched(h, h', [])
    ensures IsList(h', ps) && Data(h', ps) == Data(h, ps)
  {
    if src.Null? {
      return h, Null, [];
    }
    var d := h.cells[src.addr].data;
    AppendToEmpty(h, d);
    var (h1, q) := LinkNew(h, Null, d);
    ListFrame(h, h1, ps, []);
    assert Data(h1, [q]) == Data(h1, ps)[..1];
    assert q !in ps;
    var last;
    h', last, dest, qs := AppendRest(h1, ps, [q], h1.cells[src.addr].next, To(q), To(q));
    CopyDone(h, h1, h', ps, q, qs);
    // pDesCurrent->pNext = nullptr: already so.
    EndListKeeps(h', qs);
    h' := EndList(h', last);
    ListFrame(h, h', ps, []);
  }

  lemma CopyDone<T>(h: Heap<T>, h1: Heap<T>, h': Heap<T>, ps: seq<nat>, q: nat, qs: seq<nat>)
    requires q !in h.cells && h1.cells.Keys == h.cells.Keys + {q}
    requires Untouched(h, h1, []) && Untouched(h1, h', [q])
    requires |qs| >= 1 && qs[..1] == [q]
    requires forall i :: 1 <= i < |qs| ==> qs[i] !in h1.cells
    ensures forall i :: 0 <= i < |qs| ==> qs[i] !in h.cells
    ensures Untouched(h, h', [])
  {
    assert qs[0] == q;
    forall a | a in h.cells
      ensures a in h'.cells && h'.cells[a] == h.cells[a]
    {
      assert a in h1.cells && a != q;
    }
  }

  // ---------------------------------------------------------------------------
  // clear and assign
  // ---------------------------------------------------------------------------

  /** Every tail of a list is a chain. */
  lemma TailChain<T>(h: Heap<T>, ps: seq<nat>, k: nat)
    requires IsList(h, ps) && k <= |ps|
    ensures Chain(h, ps[k..])
  {
    var ts := ps[k..];
    forall i | 0 <= i < |ts|
      ensures ts[i] in h.cells && h.cells[ts[i]].next == LinkAt(ts, i + 1)
    {
      assert ts[i] == ps[k + i];
      assert h.cells[ps[k + i]].next == LinkAt(ps, k + i + 1);
      if i + 1 < |ts| {
        assert ts[i + 1] == ps[k + i + 1];
      }
    }
  }

  /** `clear(pHead)`: delete the nodes from the head on, reading `pNext` before
      each delete; the head ends null. Every node of the list is gone and every
      other cell is as it was. */
  method Clear<T>(h: Heap<T>, head: Link, ghost ps: seq<nat>) returns (h': Heap<T>, head': Link)
    requires Chain(h, ps) && head == LinkAt(ps, 0)
    ensures head' == Null && h'.top == h.top
    ensures forall i :: 0 <= i < |ps| ==> ps[i] !in h'.cells
    ensures forall a :: a in h'.cells ==> a in h.cells && h'.cells[a] == h.cells[a]
    ensures Untouched(h, h', ps)
  {
    h', head' := h, head;
    ghost var k := 0;
    while head'.To?
      invariant k <= |ps| && head' == LinkAt(ps, k) && h'.top == h.top
      invariant forall i :: 0 <= i < k ==> ps[i] !in h'.cells
      invariant forall i :: k <= i < |ps| ==> ps[i] in h'.cells
      invariant forall a :: a in h'.cells ==> a in h.cells && h'.cells[a] == h.cells[a]
      invariant Untouched(h, h', ps)
      decreases |ps| - k
    {
      var doomed := head'.addr;
      head' := h'.cells[doomed].next;
      assert head' == h.cells[ps[k]].next == LinkAt(ps, k + 1);
      h' := h'.(cells := h'.cells - {doomed});
      k := k + 1;
    }
  }

  /** The nodes a step of the first loop reads. */
  lemma OverwriteReads<T>(h: Heap<T>, h1: Heap<T>, ds: seq<nat>, ps: seq<nat>, k: nat)
    requires Overwriting(h, h1, ds, ps, k) && k < |ds| && k < |ps|
    ensures ds[k] in h1.cells && ps[k] in h1.cells && ds[k] != ps[k]
    ensures h1.cells[ps[k]] == h.cells[ps[k]]
  {
    assert ps[k] !in ds by {
      forall i | 0 <= i < |ds| ensures ds[i] != ps[k] {
        assert ds[i] !in ps;
      }
    }
  }

  /** A step of the first loop keeps its state. */
  lemma OverwriteKeeps<T>(h: Heap<T>, h1: Heap<T>, ds: seq<nat>, ps: seq<nat>, k: nat)
    requires Overwriting(h, h1, ds, ps, k) && k < |ds| && k < |ps|
    requires ds[k] in h1.cells && ps[k] in h1.cells && ds[k] != ps[k] && h1.cells[ps[k]] == h.cells[ps[k]]
    ensures var h2 := h1.(cells := h1.cells[ds[k] := h1.cells[ds[k]].(data := h1.cells[ps[k]].data)]);
            && Overwriting(h, h2, ds, ps, k + 1)
            && h2.cells[ds[k]].next == LinkAt(ds, k + 1)
            && h2.cells[ps[k]].next == LinkAt(ps, k + 1)
  {
    var h2 := h1.(cells := h1.cells[ds[k] := h1.cells[ds[k]].(data := h1.cells[ps[k]].data)]);
    OverwriteKeepsLinks(h, h1, h2, ds, k, h1.cells[ps[k]].data);
    OverwriteKeepsData(h, h1, h2, ds, ps, k);
    assert h.cells[ds[k]].next == LinkAt(ds, k + 1) && h.cells[ps[k]].next == LinkAt(ps, k + 1);
  }

  lemma OverwriteKeepsLinks<T>(h: Heap<T>, h1: Heap<T>, h2: Heap<T>, ds: seq<nat>, k: nat, d: T)
    requires AllLive(h, ds) && k < |ds| && ds[k] in h1.cells
    requires h1.cells.Keys == h.cells.Keys && SameLinks(h, h1, ds) && Untouched(h, h1, ds)
    requires h2 == h1.(cells := h1.cells[ds[k] := h1.cells[ds[k]].(data := d)])
    ensures h2.cells.Keys == h.cells.Keys && SameLinks(h, h2, ds) && Untouched(h, h2, ds)
  {
  }

  lemma OverwriteKeepsData<T>(h: Heap<T>, h1: Heap<T>, h2: Heap<T>, ds: seq<nat>, ps: seq<nat>, k: nat)
    requires AllLive(h, ds) && AllLive(h, ps) && Distinct(ds) && k < |ds| && k < |ps| && ds[k] in h1.cells && AllLive(h1, ds)
    requires h2 == h1.(cells := h1.cells[ds[k] := h1.cells[ds[k]].(data := h.cells[ps[k]].data)])
    requires forall i :: 0 <= i < |ds| ==> h1.cells[ds[i]].data == (if i < k then h.cells[ps[i]].data else h.cells[ds[i]].data)
    ensures forall i :: 0 <= i < |ds| ==> h2.cells[ds[i]].data == (if i < k + 1 then h.cells[ps[i]].data else h.cells[ds[i]].data)
  {
    forall i | 0 <= i < |ds|
      ensures h2.cells[ds[i]].data == (if i < k + 1 then h.cells[ps[i]].data else h.cells[ds[i]].data)
    {
      if i != k {
        assert ds[i] != ds[k];
      }
    }
  }

  /** The first loop of `assign`: while both lists have nodes, copy the source
      node's data into the destination node. Links are not touched. */
  method OverwriteData<T>(h: Heap<T>, ghost ds: seq<nat>, ghost ps: seq<nat>, dest: Link, src: Link)
    returns (h': Heap<T>, pDes: Link, pSrc: Link, pDesPrev: Link, ghost k: nat)
    requires IsList(h, ds) && IsList(h, ps) && dest == LinkAt(ds, 0) && src == LinkAt(ps, 0)
    requires forall i :: 0 <= i < |ds| ==> ds[i] !in ps
    ensures k == (if |ds| < |ps| then |ds| else |ps|)
    ensures pDes == LinkAt(ds, k) && pSrc == LinkAt(ps, k) && pDesPrev == LinkAt(ds, k - 1)
    ensures Overwriting(h, h', ds, ps, k)
  {
    h', pDes, pSrc, pDesPrev, k := h, dest, src, Null, 0;
    while pSrc.To? && pDes.To?
      invariant Overwriting(h, h', ds, ps, k)
      invariant pDes == LinkAt(ds, k) && pSrc == LinkAt(ps, k) && pDesPrev == LinkAt(ds, k - 1)
      decreases |ds| - k
    {
      OverwriteReads(h, h', ds, ps, k);
      OverwriteKeeps(h, h', ds, ps, k);
      h' := h'.(cells := h'.cells[pDes.addr := h'.cells[pDes.addr].(data := h'.cells[pSrc.addr].data)]);
      pDesPrev := pDes;
      pDes := h'.cells[pDes.addr].next;
      pSrc := h'.cells[pSrc.addr].next;
      k := k + 1;
    }
  }

  /** What deleting the tail of a list from node `k` on leaves of it. */
  lemma TailCleared<T>(h: Heap<T>, h1: Heap<T>, ds: seq<nat>, k: nat)
    requires IsList(h, ds) && k <= |ds|
    requires forall i :: 0 <= i < |ds[k..]| ==> ds[k..][i] !in h1.cells
    requires Untouched(h, h1, ds[k..])
    ensures forall i :: k <= i < |ds| ==> ds[i] !in h1.cells
    ensures forall i :: 0 <= i < k ==> ds[i] in h1.cells
    ensures forall a :: a in h.cells && a !in ds ==> a in h1.cells
  {
    forall i | k <= i < |ds|
      ensures ds[i] !in h1.cells
    {
      assert ds[k..][i - k] == ds[i];
    }
    forall i | 0 <= i < k
      ensures ds[i] in h1.cells
    {
      forall j | 0 <= j < |ds[k..]| ensures ds[k..][j] != ds[i] {
        assert ds[k..][j] == ds[k + j];
      }
    }
    forall a | a in h.cells && a !in ds
      ensures a in h1.cells
    {
      forall j | 0 <= j < |ds[k..]| ensures ds[k..][j] != a {
        assert ds[k..][j] == ds[k + j];
      }
    }
  }

  /** The links of a list ended after its first `k` nodes. */
  lemma TruncateLinks<T>(h: Heap<T>, h1: Heap<T>, h': Heap<T>, ds: seq<nat>, k: nat)
    requires IsList(h, ds) && k <= |ds|
    requires forall i :: 0 <= i < k ==> ds[i] in h1.cells
    requires forall a :: a in h1.cells ==> a in h.cells && h1.cells[a] == h.cells[a]
    requires k == 0 ==> h' == h1
    requires k > 0 ==> h' == h1.(cells := h1.cells[ds[k - 1] := h1.cells[ds[k - 1]].(next := Null)])
    ensures IsList(h', ds[..k])
    ensures forall i :: 0 <= i < k ==> h'.cells[ds[i]].data == h.cells[ds[i]].data
  {
    var fs := ds[..k];
    forall i | 0 <= i < k
      ensures fs[i] in h'.cells && h'.cells[fs[i]].data == h.cells[ds[i]].data
      ensures h'.cells[fs[i]].next == LinkAt(fs, i + 1) && h'.cells[fs[i]].prev == LinkAt(fs, i - 1)
    {
      TruncateAt(h, h1, h', ds, k, i);
      assert fs[i] == ds[i];
    }
    assert Distinct(fs) by {
      forall i, j | 0 <= i < j < |fs| ensures fs[i] != fs[j] {
        assert fs[i] == ds[i] && fs[j] == ds[j];
      }
    }
  }

  /** One node of a list ended after its first `k` nodes. */
  lemma TruncateAt<T>(h: Heap<T>, h1: Heap<T>, h': Heap<T>, ds: seq<nat>, k: nat, i: nat)
    requires i < k <= |ds| && (i + 1 < k ==> ds[i] != ds[k - 1])
    requires ds[i] in h.cells && h.cells[ds[i]].next == LinkAt(ds, i + 1) && h.cells[ds[i]].prev == LinkAt(ds, i - 1)
    requires ds[i] in h1.cells && h1.cells[ds[i]] == h.cells[ds[i]]
    requires ds[k - 1] in h1.cells
    requires h' == h1.(cells := h1.cells[ds[k - 1] := h1.cells[ds[k - 1]].(next := Null)])
    ensures ds[i] in h'.cells && h'.cells[ds[i]].data == h.cells[ds[i]].data
    ensures h'.cells[ds[i]].next == LinkAt(ds[..k], i + 1) && h'.cells[ds[i]].prev == LinkAt(ds[..k], i - 1)
  {
    if i + 1 < k {
      TruncateBefore(h, h1, h', ds, k, i, h1.cells[ds[k - 1]].(next := Null));
    } else {
      TruncateLast(h, h1, h', ds, k);
    }
  }

  lemma TruncateBefore<T>(h: Heap<T>, h1: Heap<T>, h': Heap<T>, ds: seq<nat>, k: nat, i: nat, c: Cell<T>)
    requires i + 1 < k <= |ds| && ds[i] != ds[k - 1]
    requires ds[i] in h.cells && h.cells[ds[i]].next == LinkAt(ds, i + 1) && h.cells[ds[i]].prev == LinkAt(ds, i - 1)
    requires ds[i] in h1.cells && h1.cells[ds[i]] == h.cells[ds[i]]
    requires h' == h1.(cells := h1.cells[ds[k - 1] := c])
    ensures ds[i] in h'.cells && h'.cells[ds[i]] == h.cells[ds[i]]
    ensures h'.cells[ds[i]].next == LinkAt(ds[..k], i + 1) && h'.cells[ds[i]].prev == LinkAt(ds[..k], i - 1)
  {
    assert ds[..k][i + 1] == ds[i + 1];
    if i > 0 {
      assert ds[..k][i - 1] == ds[i - 1];
    }
  }

  lemma TruncateLast<T>(h: Heap<T>, h1: Heap<T>, h': Heap<T>, ds: seq<nat>, k: nat)
    requires 0 < k <= |ds| && ds[k - 1] in h.cells && h.cells[ds[k - 1]].prev == LinkAt(ds, k - 2)
    requires ds[k - 1] in h1.cells && h1.cells[ds[k - 1]] == h.cells[ds[k - 1]]
    requires h' == h1.(cells := h1.cells[ds[k - 1] := h1.cells[ds[k - 1]].(next := Null)])
    ensures ds[k - 1] in h'.cells && h'.cells[ds[k - 1]].data == h.cells[ds[k - 1]].data
    ensures h'.cells[ds[k - 1]].next == LinkAt(ds[..k], k) && h'.cells[ds[k - 1]].prev == LinkAt(ds[..k], k - 2)
  {
    if k > 1 {
      assert ds[..k][k - 2] == ds[k - 2];
    }
  }

  /** The third loop of `assign` and its last line: delete the destination nodes
      from the `k`-th on, then end the list at node `k - 1`. */
  method DeleteRest<T>(h: Heap<T>, ghost ds: seq<nat>, ghost k: nat, pDes: Link, pDesPrev: Link) returns (h': Heap<T>)
    requires IsList(h, ds) && k <= |ds| && pDes == LinkAt(ds, k) && pDesPrev == LinkAt(ds, k - 1)
    ensures IsList(h', ds[..k]) && Data(h', ds[..k]) == Data(h, ds)[..k]
    ensures forall i :: k <= i < |ds| ==> ds[i] !in h'.cells
    ensures h'.top == h.top && forall a :: a in h'.cells ==> a in h.cells
    ensures Untouched(h, h', ds)
  {
    TailChain(h, ds, k);
    assert pDes == LinkAt(ds[k..], 0);
    var h1, end := Clear(h, pDes, ds[k..]);
    h' := h1;
    if pDesPrev.To? {
      h' := EndList(h1, pDesPrev);
    }
    TruncateDone(h, h1, h', ds, k);
  }

  /** What deleting the nodes from `k` on and ending the list at node `k - 1` leave. */
  lemma TruncateDone<T>(h: Heap<T>, h1: Heap<T>, h': Heap<T>, ds: seq<nat>, k: nat)
    requires IsList(h, ds) && k <= |ds|
    requires forall i :: 0 <= i < |ds[k..]| ==> ds[k..][i] !in h1.cells
    requires forall a :: a in h1.cells ==> a in h.cells && h1.cells[a] == h.cells[a]
    requires Untouched(h, h1, ds[k..]) && h1.top == h.top
    requires k == 0 ==> h' == h1
    requires k > 0 ==> h' == h1.(cells := h1.cells[ds[k - 1] := h1.cells[ds[k - 1]].(next := Null)])
    ensures IsList(h', ds[..k]) && Data(h', ds[..k]) == Data(h, ds)[..k]
    ensures forall i :: k <= i < |ds| ==> ds[i] !in h'.cells
    ensures h'.top == h.top && forall a :: a in h'.cells ==> a in h.cells
    ensures Untouched(h, h', ds)
  {
    TailCleared(h, h1, ds, k);
    TruncateLinks(h, h1, h', ds, k);
    TruncateData(h, h', ds, k);
    TruncateFrame(h, h1, h', ds, k);
  }

  lemma TruncateData<T>(h: Heap<T>, h': Heap<T>, ds: seq<nat>, k: nat)
    requires AllLive(h, ds) && k <= |ds| && AllLive(h', ds[..k])
    requires forall i :: 0 <= i < k ==> h'.cells[ds[i]].data == h.cells[ds[i]].data
    ensures Data(h', ds[..k]) == Data(h, ds)[..k]
  {
  }

  lemma TruncateFrame<T>(h: Heap<T>, h1: Heap<T>, h': Heap<T>, ds: seq<nat>, k: nat)
    requires k <= |ds| && Distinct(ds)
    requires forall i :: 0 <= i < k ==> ds[i] in h1.cells
    requires forall i :: k <= i < |ds| ==> ds[i] !in h1.cells
    requires forall a :: a in h1.cells ==> a in h.cells && h1.cells[a] == h.cells[a]
    requires forall a :: a in h.cells && a !in ds ==> a in h1.cells
    requires h1.top == h.top
    requires k == 0 ==> h' == h1
    requires k > 0 ==> h' == h1.(cells := h1.cells[ds[k - 1] := h1.cells[ds[k - 1]].(next := Null)])
    ensures forall i :: k <= i < |ds| ==> ds[i] !in h'.cells
    ensures h'.top == h.top && forall a :: a in h'.cells ==> a in h.cells
    ensures Untouched(h, h', ds)
  {
    if k > 0 {
      forall i | k <= i < |ds|
        ensures ds[i] !in h'.cells
      {
        assert ds[i] !in h1.cells && ds[i] != ds[k - 1];
      }
    }
  }

  /** `assign(pDestination, pSource)`: the destination list ends up holding the
      source's data, in order and as many. A null source deletes every destination
      node. Otherwise the destination's own nodes are reused from the front, fresh
      nodes are added when the source is longer, and the destination's surplus
      nodes are deleted when it is shorter. The source list, and every cell outside
      the destination, is left as it was. */
  method Assign<T>(h: Heap<T>, dest: Link, src: Link, ghost ds: seq<nat>, ghost ps: seq<nat>)
    returns (h': Heap<T>, dest': Link, ghost rs: seq<nat>)
    requires HeapOk(h) && IsList(h, ds) && IsList(h, ps) && dest == LinkAt(ds, 0) && src == LinkAt(ps, 0)
    requires forall i :: 0 <= i < |ds| ==> ds[i] !in ps
    ensures HeapOk(h') && IsList(h', rs) && dest' == LinkAt(rs, 0) && Data(h', rs) == Data(h, ps)
    ensures |ps| <= |ds| ==> rs == ds[..|ps|]
    ensures |ds| < |ps| ==> rs[..|ds|] == ds && forall i :: |ds| <= i < |rs| ==> rs[i] !in h.cells
    ensures forall i :: |ps| <= i < |ds| ==> ds[i] !in h'.cells
    ensures Untouched(h, h', ds)
    ensures IsList(h', ps) && Data(h', ps) == Data(h, ps)
  {
    if src.Null? {
      TailChain(h, ds, 0);
      assert ds[0..] == ds;
      h', dest' := Clear(h, dest, ds);
      rs := [];
    } else {
      h', dest', rs := AssignNonEmpty(h, dest, src, ds, ps);
    }
  }

  /** `assign` from a non-empty source: overwrite, then append or delete. */
  method AssignNonEmpty<T>(h: Heap<T>, dest: Link, src: Link, ghost ds: seq<nat>, ghost ps: seq<nat>)
    returns (h': Heap<T>, dest': Link, ghost rs: seq<nat>)
    requires HeapOk(h) && IsList(h, ds) && IsList(h, ps) && dest == LinkAt(ds, 0) && src == LinkAt(ps, 0)
    requires forall i :: 0 <= i < |ds| ==> ds[i] !in ps
    requires src.To?
    ensures HeapOk(h') && IsList(h', rs) && dest' == LinkAt(rs, 0) && Data(h', rs) == Data(h, ps)
    ensures |ps| <= |ds| ==> rs == ds[..|ps|]
    ensures |ds| < |ps| ==> rs[..|ds|] == ds && forall i :: |ds| <= i < |rs| ==> rs[i] !in h.cells
    ensures forall i :: |ps| <= i < |ds| ==> ds[i] !in h'.cells
    ensures Untouched(h, h', ds)
    ensures IsList(h', ps) && Data(h', ps) == Data(h, ps)
  {
    SourceApart(ds, ps);
    var h1, pDes, pSrc, pDesPrev, k := OverwriteData(h, ds, ps, dest, src);
    OverwriteDone(h, h1, ds, ps, k);
    if pSrc.To? {
      h', dest', rs := AssignLonger(h, h1, ds, ps, pSrc, pDesPrev, dest);
    } else {
      h', rs := AssignShorter(h, h1, ds, ps, pDes, pDesPrev);
      dest' := dest;
    }
  }

  /** The second and third loops of `assign` when the source is the longer list:
      new nodes for the rest of the source, then nothing to delete and the last
      node's `pNext` already null. */
  method AssignLonger<T>(h: Heap<T>, h1: Heap<T>, ghost ds: seq<nat>, ghost ps: seq<nat>, pSrc: Link, pDesPrev: Link, dest: Link)
    returns (h': Heap<T>, dest': Link, ghost rs: seq<nat>)
    requires |ds| < |ps| && Overwritten(h, h1, ds, ps, |ds|)
    requires forall i :: 0 <= i < |ds| ==> ds[i] !in ps
    requires pSrc == LinkAt(ps, |ds|) && pDesPrev == LinkAt(ds, |ds| - 1) && dest == LinkAt(ds, 0)
    ensures AssignedFrom(h, h', ds, ps, rs) && dest' == LinkAt(rs, 0)
    ensures rs[..|ds|] == ds && forall i :: |ds| <= i < |rs| ==> rs[i] !in h.cells
  {
    assert Data(h1, ds) == Data(h1, ds)[..|ds|];
    var last;
    h', last, dest', rs := AppendRest(h1, ps, ds, pSrc, pDesPrev, dest);
    // The third loop has nothing to delete; `pDesPrevious->pNext = nullptr` finds
    // the last node's `pNext` already null.
    EndListKeeps(h', rs);
    h' := EndList(h', last);
    AssignGrew(h, h1, h', ds, ps, rs);
  }

  /** The third loop of `assign` when the source is not the longer list: delete the
      destination's surplus nodes and end it after `|ps|` nodes. */
  method AssignShorter<T>(h: Heap<T>, h1: Heap<T>, ghost ds: seq<nat>, ghost ps: seq<nat>, pDes: Link, pDesPrev: Link)
    returns (h': Heap<T>, ghost rs: seq<nat>)
    requires |ps| <= |ds| && Overwritten(h, h1, ds, ps, |ps|)
    requires pDes == LinkAt(ds, |ps|) && pDesPrev == LinkAt(ds, |ps| - 1)
    ensures rs == ds[..|ps|] && AssignedFrom(h, h', ds, ps, rs)
    ensures forall i :: |ps| <= i < |ds| ==> ds[i] !in h'.cells
  {
    h' := DeleteRest(h1, ds, |ps|, pDes, pDesPrev);
    rs := ds[..|ps|];
    AssignShrank(h, h1, h', ds, ps, rs);
  }

  /** After the first loop of `assign`: the destination is still a list, its first
      `k` nodes hold the source's first `k` data, and the source is as it was. */
  lemma OverwriteDone<T>(h: Heap<T>, h1: Heap<T>, ds: seq<nat>, ps: seq<nat>, k: nat)
    requires HeapOk(h) && Overwriting(h, h1, ds, ps, k)
    requires forall i :: 0 <= i < |ps| ==> ps[i] !in ds
    ensures Overwritten(h, h1, ds, ps, k)
  {
    SameLinksList(h, h1, ds);
    ListFrame(h, h1, ps, ds);
    assert Data(h1, ds)[..k] == Data(h, ps)[..k] by {
      forall i | 0 <= i < k
        ensures Data(h1, ds)[i] == Data(h, ps)[i]
      {
        assert h1.cells[ds[i]].data == h.cells[ps[i]].data;
      }
    }
  }

  /** `assign` with a source no longer than the destination. */
  lemma AssignShrank<T>(h: Heap<T>, h1: Heap<T>, h': Heap<T>, ds: seq<nat>, ps: seq<nat>, rs: seq<nat>)
    requires |ps| <= |ds| && rs == ds[..|ps|] && AllLive(h1, ds) && IsList(h, ps) && (forall i :: 0 <= i < |ps| ==> ps[i] !in ds)
    requires HeapOk(h1) && Untouched(h, h1, ds) && Data(h1, ds)[..|ps|] == Data(h, ps)[..|ps|]
    requires IsList(h', rs) && Data(h', rs) == Data(h1, ds)[..|ps|]
    requires h'.top == h1.top && (forall a :: a in h'.cells ==> a in h1.cells) && Untouched(h1, h', ds)
    ensures AssignedFrom(h, h', ds, ps, rs)
  {
    assert Data(h, ps)[..|ps|] == Data(h, ps);
    ListFrame(h, h', ps, ds);
  }

  /** `assign` with a source longer than the destination. */
  lemma AssignGrew<T>(h: Heap<T>, h1: Heap<T>, h': Heap<T>, ds: seq<nat>, ps: seq<nat>, rs: seq<nat>)
    requires |ds| < |ps| == |rs| && Overwritten(h, h1, ds, ps, |ds|)
    requires HeapOk(h') && IsList(h', rs) && Data(h', rs) == Data(h1, ps) && Untouched(h1, h', ds)
    requires forall i :: |ds| <= i < |rs| ==> rs[i] !in h1.cells
    ensures AssignedFrom(h, h', ds, ps, rs)
    ensures forall i :: |ds| <= i < |rs| ==> rs[i] !in h.cells
  {
    ListFrame(h, h', ps, ds);
  }

  /** Two lists with no node in common, seen from either side. */
  lemma SourceApart(ds: seq<nat>, ps: seq<nat>)
    requires forall i :: 0 <= i < |ds| ==> ds[i] !in ps
    ensures forall i :: 0 <= i < |ps| ==> ps[i] !in ds
  {
    forall i, j | 0 <= i < |ps| && 0 <= j < |ds|
      ensures ps[i] != ds[j]
    {
      assert ds[j] !in ps;
    }
  }

  // ---------------------------------------------------------------------------
  // swap
  // ---------------------------------------------------------------------------

  /** `swap(pLHS, pRHS)`: exchange the two head pointers; no node changes. */
  function Swap(lhs: Link, rhs: Link): (r: (Link, Link))
    ensures r.0 == rhs && r.1 == lhs
  {
    (rhs, lhs)
  }

  /** After a swap, the whole list reached from the left head is the one the right
      head led to, node for node, and the other way round; no node is touched. */
  lemma {:induction false} SwapExchangesLists<T>(h: Heap<T>, lhs: Link, rhs: Link, ls: seq<nat>, rs: seq<nat>)
    requires IsList(h, ls) && IsList(h, rs) && lhs == LinkAt(ls, 0) && rhs == LinkAt(rs, 0)
    ensures forall qs :: IsList(h, qs) && LinkAt(qs, 0) == Swap(lhs, rhs).0 ==> qs == rs && Data(h, qs) == Data(h, rs)
    ensures forall qs :: IsList(h, qs) && LinkAt(qs, 0) == Swap(lhs, rhs).1 ==> qs == ls && Data(h, qs) == Data(h, ls)
  {
    forall qs | IsList(h, qs) && LinkAt(qs, 0) == Swap(lhs, rhs).0
      ensures qs == rs
    {
      ListFromHead(h, qs, rs);
    }
    forall qs | IsList(h, qs) && LinkAt(qs, 0) == Swap(lhs, rhs).1
      ensures qs == ls
    {
      ListFromHead(h, qs, ls);
    }
  }
}

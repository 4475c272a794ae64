/** `custom::vector<T>` (vector.h): a buffer of `numCapacity` slots whose first
    `numElements` hold the elements. The buffer is modelled by the sequence of live
    elements and the slot count; allocation, placement construction and destruction
    leave no trace beyond those two. */
module DynamicArray {

  datatype Vector<T> = Vector(elems: seq<T>, capacity: nat)

  /** `size()`, `capacity()` and `empty()`. */
  function Size<T>(v: Vector<T>): nat
  {
    |v.elems|
  }

  predicate IsEmpty<T>(v: Vector<T>)
  {
    Size(v) == 0
  }

  /** The representation invariant: the live elements fit in the buffer. */
  predicate Valid<T>(v: Vector<T>)
  {
    Size(v) <= v.capacity
  }

  /** Every element of `s` is `t`. */
  predicate AllAre<T(==)>(s: seq<T>, t: T)
  {
    forall i :: 0 <= i < |s| ==> s[i] == t
  }

  // ---------------------------------------------------------------------------
  // Construction
  // ---------------------------------------------------------------------------

  /** The default constructor: no buffer. */
  function Default<T>(): (r: Vector<T>)
    ensures Valid(r) && IsEmpty(r) && r.capacity == 0
  {
    Vector([], 0)
  }

  /** `vector(num, t)`: a buffer of exactly `num` slots, each a copy of `t`. */
  function Filled<T(==)>(num: nat, t: T): (r: Vector<T>)
    ensures Valid(r) && Size(r) == num && r.capacity == num
    ensures AllAre(r.elems, t)
  {
    Vector(seq(num, _ => t), num)
  }

  /** `vector(num)`: `num` default-initialised elements (`new (&data[i]) T`). For a
      class type that is the value `T()`; for a scalar type the source leaves the
      value indeterminate. Either way the value is the caller's parameter here. */
  function Sized<T(==)>(num: nat, defaultValue: T): (r: Vector<T>)
    ensures Valid(r) && Size(r) == num && r.capacity == num
    ensures AllAre(r.elems, defaultValue)
  {
    Filled(num, defaultValue)
  }

  /** `vector(initializer_list)`: the listed elements in a buffer of their number. */
  function FromList<T>(l: seq<T>): (r: Vector<T>)
    ensures Valid(r) && r.elems == l && r.capacity == |l|
  {
    Vector(l, |l|)
  }

  /** The copy constructor: the same elements in a buffer exactly their number;
      an empty `rhs` gives no buffer. */
  function CopyConstruct<T>(rhs: Vector<T>): (r: Vector<T>)
    ensures Valid(r) && r.elems == rhs.elems && r.capacity == Size(rhs)
  {
    if IsEmpty(rhs) then Default() else Vector(rhs.elems, Size(rhs))
  }

  /** The move constructor: take `rhs`'s buffer and counters, zeroing `rhs`'s. The
      pair is (the new vector, `rhs` afterwards). */
  function MoveConstruct<T>(rhs: Vector<T>): (r: (Vector<T>, Vector<T>))
    ensures r.0 == rhs && r.1 == Default()
  {
    (Vector(rhs.elems, rhs.capacity), Vector([], 0))
  }

  // ---------------------------------------------------------------------------
  // Growth
  // ---------------------------------------------------------------------------

  /** `reserve(newCapacity)`: never shrinks; grows to exactly `newCapacity`, moving
      the elements over. */
  function Reserve<T>(v: Vector<T>, newCapacity: nat): (r: Vector<T>)
    ensures r.elems == v.elems
    ensures newCapacity <= v.capacity ==> r == v
    ensures r.capacity >= v.capacity && r.capacity >= newCapacity
    ensures r.capacity == v.capacity || r.capacity == newCapacity
    ensures Valid(v) ==> Valid(r)
  {
    if newCapacity <= v.capacity then v else Vector(v.elems, newCapacity)
  }

  /** Reserving twice is reserving the larger amount once. */
  lemma ReserveTwice<T>(v: Vector<T>, a: nat, b: nat)
    ensures Reserve(Reserve(v, a), b) == Reserve(v, if a < b then b else a)
  {
  }

  /** The capacity `push_back` grows a full buffer to. */
  function GrownCapacity(capacity: nat): (c: nat)
    ensures c > capacity
  {
    if capacity == 0 then 1 else capacity * 2
  }

  /** `push_back(t)`: a full buffer (`numElements >= numCapacity`) first grows to one
      slot, or to twice its slots; then `t` goes behind the elements. */
  function PushBack<T>(v: Vector<T>, t: T): (r: Vector<T>)
    ensures r.elems == v.elems + [t]
    ensures Size(v) < v.capacity ==> r.capacity == v.capacity
    ensures Size(v) >= v.capacity ==> r.capacity == GrownCapacity(v.capacity)
    ensures Valid(v) ==> Valid(r)
  {
    var grown := if Size(v) >= v.capacity then Reserve(v, GrownCapacity(v.capacity)) else v;
    Vector(grown.elems + [t], grown.capacity)
  }

  /** `push_back` of each element of `xs` in turn. */
  function PushAll<T>(v: Vector<T>, xs: seq<T>): (r: Vector<T>)
    ensures r.elems == v.elems + xs
    ensures Valid(v) ==> Valid(r)
    decreases |xs|
  {
    if xs == [] then v
    else
      assert v.elems + xs == (v.elems + [xs[0]]) + xs[1..];
      PushAll(PushBack(v, xs[0]), xs[1..])
  }

  predicate IsPowerOfTwo(n: nat)
    decreases n
  {
    n == 1 || (n >= 2 && n % 2 == 0 && IsPowerOfTwo(n / 2))
  }

  /** The shape doubling keeps: no buffer at all, or a power-of-two buffer that is
      more than half full. */
  predicate DoublingShape<T>(v: Vector<T>)
  {
    (Size(v) == 0 && v.capacity == 0)
    || (IsPowerOfTwo(v.capacity) && Size(v) <= v.capacity < 2 * Size(v))
  }

  lemma PushBackKeepsShape<T>(v: Vector<T>, t: T)
    requires DoublingShape(v)
    ensures DoublingShape(PushBack(v, t))
  {
    if v.capacity > 0 && Size(v) >= v.capacity {
      assert IsPowerOfTwo(2 * v.capacity) by {
        assert (2 * v.capacity) / 2 == v.capacity;
      }
    }
  }

  /** Pushing `n` elements onto a default-constructed vector leaves a buffer of the
      least power of two that holds them (none for `n = 0`): growth is geometric,
      so the buffer is never more than twice what is used. */
  lemma {:induction false} PushAllCapacity<T>(v: Vector<T>, xs: seq<T>)
    requires DoublingShape(v)
    ensures var r := PushAll(v, xs);
            DoublingShape(r) && (Size(r) > 0 ==> IsPowerOfTwo(r.capacity) && r.capacity < 2 * Size(r))
    decreases |xs|
  {
    if xs != [] {
      PushBackKeepsShape(v, xs[0]);
      PushAllCapacity(PushBack(v, xs[0]), xs[1..]);
    }
  }

  /** `resize(newElements, t)`: shrinking keeps the first `newElements` elements;
      growing reserves exactly `newElements` slots when the buffer is too small and
      fills the new places with copies of `t`. */
  function Resize<T>(v: Vector<T>, newElements: nat, t: T): (r: Vector<T>)
    ensures Size(r) == newElements
    ensures newElements <= Size(v) ==> r.elems == v.elems[..newElements]
    ensures newElements >= Size(v) ==> r.elems[..Size(v)] == v.elems
    ensures forall i :: Size(v) <= i < newElements ==> r.elems[i] == t
    ensures r.capacity == if newElements > Size(v) && newElements > v.capacity then newElements else v.capacity
    ensures Valid(v) ==> Valid(r)
  {
    if newElements < Size(v) then Vector(v.elems[..newElements], v.capacity)
    else if newElements > Size(v) then
      var grown := if newElements > v.capacity then Reserve(v, newElements) else v;
      Vector(grown.elems + seq(newElements - Size(v), _ => t), grown.capacity)
    else v
  }

  /** `resize(newElements)`: as `resize(newElements, T())` -- `alloc.construct`
      value-initialises the new slots -- with `T()` supplied by the caller. */
  function ResizeDefault<T>(v: Vector<T>, newElements: nat, defaultValue: T): (r: Vector<T>)
    ensures Size(r) == newElements
    ensures newElements <= Size(v) ==> r.elems == v.elems[..newElements]
    ensures newElements >= Size(v) ==> r.elems[..Size(v)] == v.elems
    ensures forall i :: Size(v) <= i < newElements ==> r.elems[i] == defaultValue
    ensures r.capacity == if newElements > Size(v) && newElements > v.capacity then newElements else v.capacity
    ensures Valid(v) ==> Valid(r)
  {
    Resize(v, newElements, defaultValue)
  }

  /** Growing and then shrinking back to the old size restores the elements. */
  lemma ResizeBack<T>(v: Vector<T>, n: nat, t: T, u: T)
    requires n >= Size(v)
    ensures Resize(Resize(v, n, t), Size(v), u).elems == v.elems
  {
  }

  /** `shrink_to_fit()`: the buffer becomes exactly the elements' size (none when
      there are no elements); the elements stay. */
  function ShrinkToFit<T>(v: Vector<T>): (r: Vector<T>)
    ensures r.elems == v.elems && r.capacity == Size(v)
    ensures Valid(r)
  {
    if Size(v) == 0 then Vector(v.elems, 0)
    else if Size(v) == v.capacity then v
    else Vector(v.elems, Size(v))
  }

  /** After `shrink_to_fit` the capacity a vector had does not matter: it undoes any
      `reserve`. */
  lemma ShrinkUndoesReserve<T>(v: Vector<T>, n: nat)
    ensures ShrinkToFit(Reserve(v, n)) == ShrinkToFit(v)
  {
  }

  // ---------------------------------------------------------------------------
  // Removal
  // ---------------------------------------------------------------------------

  /** `pop_back()`: drop the last element; nothing on an empty vector. */
  function PopBack<T>(v: Vector<T>): (r: Vector<T>)
    ensures r.capacity == v.capacity
    ensures Size(v) > 0 ==> r.elems + [v.elems[Size(v) - 1]] == v.elems
    ensures Size(v) == 0 ==> r == v
    ensures Valid(v) ==> Valid(r)
  {
    if Size(v) > 0 then Vector(v.elems[..Size(v) - 1], v.capacity) else v
  }

  /** `pop_back` undoes `push_back`, except for any growth of the buffer. */
  lemma PopUndoesPush<T>(v: Vector<T>, t: T)
    ensures PopBack(PushBack(v, t)).elems == v.elems
  {
    var w := PushBack(v, t);
    assert w.elems[..Size(w) - 1] == v.elems;
  }

  /** `clear()`: no elements, the buffer kept. */
  function Clear<T>(v: Vector<T>): (r: Vector<T>)
    ensures IsEmpty(r) && r.capacity == v.capacity
    ensures Valid(r)
  {
    Vector([], v.capacity)
  }

  /** `pop_back` `k` times. */
  function PopTimes<T>(v: Vector<T>, k: nat): Vector<T>
    decreases k
  {
    if k == 0 then v else PopTimes(PopBack(v), k - 1)
  }

  /** Popping `k` times keeps the first `size - k` elements. */
  lemma {:induction false} PopTimesKeepsPrefix<T>(v: Vector<T>, k: nat)
    requires k <= Size(v)
    ensures PopTimes(v, k) == Vector(v.elems[..Size(v) - k], v.capacity)
    decreases k
  {
    if k > 0 {
      PopTimesKeepsPrefix(PopBack(v), k - 1);
      assert v.elems[..Size(v) - 1][..Size(v) - k] == v.elems[..Size(v) - k];
    }
  }

  /** Popping every element is `clear`. */
  lemma PopAllIsClear<T>(v: Vector<T>)
    ensures PopTimes(v, Size(v)) == Clear(v)
  {
    PopTimesKeepsPrefix(v, Size(v));
  }

  // ---------------------------------------------------------------------------
  // Assignment
  // ---------------------------------------------------------------------------

  /** `operator=(const vector&)`: the elements become `rhs`'s. The buffer is kept
      unless `rhs` has more elements than `lhs` and than `lhs`'s buffer holds; then
      it is replaced by one of exactly `rhs.size()` slots. */
  function CopyAssign<T>(lhs: Vector<T>, rhs: Vector<T>): (r: Vector<T>)
    ensures r.elems == rhs.elems
    ensures r.capacity == if Size(rhs) > Size(lhs) && Size(rhs) > lhs.capacity then Size(rhs) else lhs.capacity
    ensures Valid(lhs) ==> Valid(r)
  {
    if Size(rhs) == Size(lhs) then Vector(rhs.elems, lhs.capacity)
    else if Size(rhs) > Size(lhs) then
      if Size(rhs) <= lhs.capacity then Vector(rhs.elems, lhs.capacity)
      else Vector(rhs.elems, Size(rhs))
    else Vector(rhs.elems, lhs.capacity)
  }

  /** On valid vectors, copy assignment is `reserve(rhs.size())` followed by taking
      the elements: the buffer only ever grows. */
  lemma CopyAssignIsReserve<T>(lhs: Vector<T>, rhs: Vector<T>)
    requires Valid(lhs)
    ensures CopyAssign(lhs, rhs) == Vector(rhs.elems, Reserve(lhs, Size(rhs)).capacity)
  {
  }

  /** Assigning the same vector twice changes nothing the second time. */
  lemma CopyAssignIdempotent<T>(lhs: Vector<T>, rhs: Vector<T>)
    requires Valid(lhs)
    ensures CopyAssign(CopyAssign(lhs, rhs), rhs) == CopyAssign(lhs, rhs)
  {
  }

  /** `operator=(vector&&)`: release `lhs`'s elements and buffer, take `rhs`'s, and
      leave `rhs` with none. The pair is (`lhs`, `rhs`) afterwards. */
  function MoveAssign<T>(lhs: Vector<T>, rhs: Vector<T>): (r: (Vector<T>, Vector<T>))
    ensures r.0 == rhs && r.1 == Default()
  {
    (Vector(rhs.elems, rhs.capacity), Vector([], 0))
  }

  /** `swap(rhs)`: exchange buffers, sizes and capacities. */
  function Swap<T>(a: Vector<T>, b: Vector<T>): (r: (Vector<T>, Vector<T>))
    ensures r.0.elems == b.elems && r.0.capacity == b.capacity
    ensures r.1.elems == a.elems && r.1.capacity == a.capacity
  {
    (Vector(b.elems, b.capacity), Vector(a.elems, a.capacity))
  }

  /** Swapping twice restores both vectors. */
  lemma SwapTwice<T>(a: Vector<T>, b: Vector<T>)
    ensures var (x, y) := Swap(a, b); Swap(x, y) == (a, b)
  {
  }
}

/**
  The PQheap class: a fixed-capacity binary heap over a strided buffer.

  `heap` is either a buffer the object allocated itself (`Init`) or one a
  caller lent it (`Bind`); slot `i` of the `N` occupied slots lives at
  `heap[i * S]`. Every operation is proved to leave the logical contents
  `Elems()` exactly as the matching function of module HeapSpec says, and
  to write nothing but slot offsets of `1 .. cap`.
*/
module PQ {
  import opened Order
  import opened Index
  import opened HeapSpec

  /** Dropping the last of `n` slots whose first one holds a copy of the
      last is `Shrink`. */
  lemma SlotsShrink<T>(buf: seq<T>, S: nat, n: nat, e0: seq<T>)
    requires S >= 1 && Offset(n + 1, S) <= |buf| && 1 <= n == |e0|
    requires Slots(buf, S, n) == Put(e0, 1, At(e0, n))
    ensures Offset(n, S) <= |buf|
    ensures Slots(buf, S, n - 1) == Shrink(e0)
  {
    SlotsPrefix(buf, S, n);
  }

  class PQHeap<T(0,!new)> {
    /** The comparator `C`: `cmp(a, b)` puts `a` further from the top than `b`. */
    const cmp: (T, T) -> bool
    /** The stride, a template parameter of the source. */
    const S: nat
    var heap: array?<T>
    var N: nat
    var cap: nat
    /** Whether `heap` was allocated by `Init` rather than lent by `Bind`. */
    ghost var owned: bool

    /** The comparator is a strict weak order, the stride is positive, and a
        nonzero capacity comes with a buffer of at least `S * (cap + 1)` elements. */
    ghost predicate Configured()
      reads this
    {
      && S >= 1
      && StrictWeakOrder(cmp)
      && (cap > 0 ==> heap != null && Offset(cap + 1, S) <= heap.Length)
    }

    /** The object invariant: at most `cap` elements, in heap order. */
    ghost predicate Valid()
      reads this, heap
    {
      Configured() && N <= cap && IsHeap(cmp, Elems())
    }

    /** The occupied slots `1 .. N`, read from the buffer at stride `S`. */
    ghost function Elems(): (e: seq<T>)
      requires Configured() && N <= cap
      reads this, heap
      ensures |e| == N
    {
      if N == 0 then []
      else
        OffsetMonotone(N + 1, cap + 1, S);
        Slots(heap[..], S, N)
    }

    /** A queue with no buffer and no capacity. */
    constructor(cmp: (T, T) -> bool, S: nat)
      requires S >= 1 && StrictWeakOrder(cmp)
      ensures this.cmp == cmp && this.S == S
      ensures heap == null && N == 0 && cap == 0 && Valid()
    {
      this.cmp := cmp;
      this.S := S;
      heap := null;
      N := 0;
      cap := 0;
      owned := false;
    }

    /** A queue owning a fresh buffer for `maxSize` elements. */
    constructor WithCapacity(cmp: (T, T) -> bool, S: nat, maxSize: nat)
      requires S >= 1 && StrictWeakOrder(cmp)
      ensures this.cmp == cmp && this.S == S
      ensures N == 0 && cap == maxSize && Valid()
      ensures maxSize == 0 ==> heap == null
      ensures maxSize > 0 ==> fresh(heap) && heap.Length == Offset(maxSize + 1, S)
    {
      this.cmp := cmp;
      this.S := S;
      heap := null;
      N := 0;
      cap := maxSize;
      owned := false;
      new;
      var _ := Init(cap);
    }

    /** A queue over the caller's buffer `a`. */
    constructor Bound(cmp: (T, T) -> bool, S: nat, a: array?<T>, capacity: nat)
      requires S >= 1 && StrictWeakOrder(cmp)
      requires a == null ==> capacity == 0
      requires a != null ==> Offset(capacity + 1, S) <= a.Length
      ensures this.cmp == cmp && this.S == S
      ensures heap == a && N == 0 && cap == capacity && Valid()
    {
      this.cmp := cmp;
      this.S := S;
      heap := null;
      N := 0;
      cap := 0;
      owned := false;
      new;
      var _ := Bind(a, capacity);
    }

    /** `init(maxSize)`: a zero size changes nothing; otherwise the queue
        empties onto a fresh buffer of `S * (maxSize + 1)` elements. */
    method Init(maxSize: nat) returns (r: int)
      requires S >= 1 && StrictWeakOrder(cmp)
      modifies this
      ensures r == 0
      ensures maxSize == 0 ==> heap == old(heap) && N == old(N) && cap == old(cap) && owned == old(owned)
      ensures maxSize > 0 ==> && N == 0 && cap == maxSize && owned && Valid()
                              && fresh(heap) && heap.Length == Offset(maxSize + 1, S)
    {
      if maxSize == 0 {
        return 0;
      }
      N := 0;
      cap := maxSize;
      heap := new T[Offset(cap + 1, S)];
      owned := true;
      return 0;
    }

    /** `bind(a, capacity)`: the queue empties onto the caller's buffer. */
    method Bind(a: array?<T>, capacity: nat) returns (r: int)
      requires heap == null && !(a == null && capacity > 0)
      requires S >= 1 && StrictWeakOrder(cmp)
      requires a != null ==> Offset(capacity + 1, S) <= a.Length
      modifies this
      ensures r == 0 && heap == a && cap == capacity && N == 0 && !owned && Valid()
    {
      heap := a;
      cap := capacity;
      N := 0;
      owned := false;
      return 0;
    }

    /** `unbind()`: drops the buffer and the capacity but keeps `N`, so the
        invariant survives only for an empty queue. */
    method Unbind() returns (r: int)
      modifies this
      ensures r == 0 && heap == null && cap == 0 && N == old(N) && !owned
      ensures Valid() <==> N == 0 && S >= 1 && StrictWeakOrder(cmp)
    {
      heap := null;
      cap := 0;
      owned := false;
      return 0;
    }

    /** `size()`: the number of elements held. */
    function Size(): (n: nat)
      reads this, heap
      ensures Configured() && N <= cap ==> n == |Elems()|
    {
      N
    }

    /** `capacity()`: no valid queue holds more elements than this. */
    function Capacity(): (c: nat)
      reads this, heap
      ensures Valid() ==> Size() <= c
    {
      cap
    }

    /** `empty()`. */
    function Empty(): (b: bool)
      reads this, heap
      ensures b <==> Size() == 0
      ensures Configured() && N <= cap ==> (b <==> Elems() == [])
    {
      N == 0
    }

    /** `peakTop(const T*)`: 1 on an empty queue, else 0. The pointer it
        assigns is a by-value copy, so the status is all a caller gets. */
    function PeakTopStatus(): (r: int)
      reads this, heap
      ensures r == 0 || r == 1
      ensures Configured() && N <= cap ==> (r == 1 <==> Elems() == [])
    {
      if N < 1 then 1 else 0
    }

    /** `peakTop()`: the top, which no held element beats; the value on an
        empty queue is left unspecified. */
    method PeakTop() returns (t: T)
      requires Configured() && N <= cap
      ensures N > 0 ==> t == At(Elems(), 1)
      ensures N > 0 && IsHeap(cmp, Elems()) ==> forall y :: y in Elems() ==> !cmp(t, y)
    {
      if N > 0 {
        t := Slot(1);
        if IsHeap(cmp, Elems()) {
          RootDominatesAll(cmp, Elems());
        }
      } else {
        t := *;
      }
    }

    /** `heap[i*S]`: the element in occupied slot `i`. */
    function Slot(i: nat): (x: T)
      requires Configured() && 1 <= i <= N <= cap
      reads this, heap
      ensures x == At(Elems(), i)
    {
      OffsetMonotone(N + 1, cap + 1, S);
      OffsetInBuffer(i, cap, S);
      heap[Offset(i, S)]
    }

    /** `heap[i*S] = x` for an occupied slot `i`. */
    method SetSlot(i: nat, x: T)
      requires Configured() && 1 <= i <= N <= cap
      modifies heap
      ensures Elems() == Put(old(Elems()), i, x)
      ensures SameOffSlots(old(heap[..]), heap[..], S, cap)
    {
      OffsetMonotone(N + 1, cap + 1, S);
      OffsetInBuffer(i, cap, S);
      ghost var before := heap[..];
      SlotsWrite(before, S, N, i, x);
      heap[Offset(i, S)] := x;
      WriteSlot(before, before, S, cap, i, x);
    }

    /** `heapUp(int i)`: moves the element at slot `i0` up through a hole,
        ending where the swapping `SiftUp` ends; returns its final slot. */
    method HeapUp(i0: nat) returns (r: nat)
      requires Configured() && 2 <= N <= cap && 1 <= i0 <= N
      modifies heap
      ensures (Elems(), r) == SiftUp(cmp, old(Elems()), i0)
      ensures SameOffSlots(old(heap[..]), heap[..], S, cap)
    {
      ghost var e0 := Elems();
      var i := i0;
      var bubble := Slot(i);
      var p := Parent(i);
      PutSame(e0, i0);
      while i > 1 && cmp(Slot(p), bubble)
        invariant 1 <= i <= i0 && p == Parent(i)
        invariant SiftUp(cmp, Put(Elems(), i, bubble), i) == SiftUp(cmp, e0, i0)
        invariant SameOffSlots(old(heap[..]), heap[..], S, cap)
        decreases i
      {
        HoleUp(cmp, Elems(), i, bubble);
        SetSlot(i, Slot(p));
        i := p;
        p := Parent(i);
      }
      HoleUpStops(cmp, Elems(), i, bubble);
      SetSlot(i, bubble);
      r := i;
    }

    /** `heapDownQuick()`: moves the element at the root down through a
        hole, ending where the swapping `SiftDown` ends; returns its final slot.
        The source's debug assertion asks for two elements; one is enough. */
    method HeapDownQuick() returns (r: nat)
      requires Configured() && 1 <= N <= cap
      modifies heap
      ensures (Elems(), r) == SiftDown(cmp, old(Elems()), 1)
      ensures SameOffSlots(old(heap[..]), heap[..], S, cap)
    {
      ghost var e0 := Elems();
      var i := 1;
      var next := 2;
      var rock := Slot(i);
      PutSame(e0, 1);
      while i <= N / 2
        invariant 1 <= i <= N
        invariant SiftDown(cmp, Put(Elems(), i, rock), i) == SiftDown(cmp, e0, 1)
        invariant SameOffSlots(old(heap[..]), heap[..], S, cap)
        decreases N - i
      {
        next := LeftChild(i);
        HoleNext(cmp, Elems(), i, rock);
        if next < N && cmp(Slot(next), Slot(next + 1)) {
          next := next + 1;
        }
        if !cmp(rock, Slot(next)) {
          break;
        }
        HoleDown(cmp, Elems(), i, rock, next);
        SetSlot(i, Slot(next));
        i := next;
      }
      HoleDownStops(cmp, Elems(), i, rock);
      SetSlot(i, rock);
      r := i;
    }

    /** `insert(t)`: -2 without capacity; into a full queue, `t` replaces a
        top it beats and sinks, or is rejected with -1; otherwise it is
        appended and rises. Returns the slot where `t` settled. */
    method Insert(t: T) returns (r: int)
      requires Configured() && (cap > 0 ==> Valid())
      modifies this`N, heap
      ensures cap == 0 ==> r == -2 && N == old(N) && (heap != null ==> heap[..] == old(heap[..]))
      ensures cap > 0 ==> Valid() && (Elems(), r) == HeapSpec.Insert(cmp, cap, old(Elems()), t)
      ensures r == -1 ==> N == old(N) && heap[..] == old(heap[..])
      ensures heap != null ==> SameOffSlots(old(heap[..]), heap[..], S, cap)
    {
      if cap == 0 {
        return -2;
      }
      ghost var e0 := Elems();
      InsertKeepsHeap(cmp, cap, e0, t);
      if N == cap {
        if cmp(t, Slot(1)) {
          SetSlot(1, t);
          var d := HeapDownQuick();
          return d;
        } else {
          return -1;
        }
      }
      Append(t);
      if N == 1 {
        r := 1;
      } else {
        var u := HeapUp(N);
        r := u;
      }
    }

    /** `heap[(++N)*S] = t`: `t` fills the first free slot. */
    method Append(t: T)
      requires Configured() && N < cap
      modifies this`N, heap
      ensures N == old(N) + 1 && Elems() == old(Elems()) + [t]
      ensures SameOffSlots(old(heap[..]), heap[..], S, cap)
    {
      ghost var before := heap[..];
      OffsetMonotone(N + 2, cap + 1, S);
      SlotsAppend(before, S, N, t);
      OffsetInBuffer(N + 1, cap, S);
      N := N + 1;
      heap[Offset(N, S)] := t;
      WriteSlot(before, before, S, cap, N, t);
    }

    /** `extractTop(T& t)`: 1 on an empty queue, leaving `t` as it was;
        otherwise `t` receives the top, the last slot moves to the root and
        sinks, and the status is 0 while at most one element is left, else
        the slot where the moved element settled. */
    method ExtractTop(t0: T) returns (r: int, t: T)
      requires Valid()
      modifies this`N, heap
      ensures Valid()
      ensures (Elems(), r) == HeapSpec.ExtractTop(cmp, old(Elems()))
      ensures old(N) == 0 ==> t == t0
      ensures old(N) > 0 ==> t == At(old(Elems()), 1)
      ensures old(N) == 0 ==> N == 0 && (heap != null ==> heap[..] == old(heap[..]))
      ensures heap != null ==> SameOffSlots(old(heap[..]), heap[..], S, cap)
    {
      t := t0;
      if N < 1 {
        return 1, t;
      }
      ghost var e0 := Elems();
      ExtractKeepsHeap(cmp, e0);
      t := Slot(1);
      DropRoot();
      if N <= 1 {
        r := 0;
      } else {
        var d := HeapDownQuick();
        r := d;
      }
    }

    /** The shared first half of `extractTop` and `discardTop`: slot `N`
        is copied into slot 1 (unless it is slot 1) and dropped. */
    method DropRoot()
      requires Configured() && 1 <= N <= cap
      modifies this`N, heap
      ensures N == old(N) - 1 && Elems() == Shrink(old(Elems()))
      ensures SameOffSlots(old(heap[..]), heap[..], S, cap)
    {
      MoveLastToRoot();
      ghost var e0 := old(Elems());
      OffsetMonotone(N + 1, cap + 1, S);
      SlotsShrink(heap[..], S, N, e0);
      N := N - 1;
    }

    /** Slot `N` is copied into slot 1 (a no-op when `N == 1`). */
    method MoveLastToRoot()
      requires Configured() && 1 <= N <= cap
      modifies heap
      ensures Elems() == Put(old(Elems()), 1, At(old(Elems()), N))
      ensures SameOffSlots(old(heap[..]), heap[..], S, cap)
    {
      if N > 1 {
        SetSlot(1, Slot(N));
      } else {
        PutSame(Elems(), 1);
      }
    }

    /** `extractTop()`: the top of a non-empty queue is returned; on an
        empty queue the value is left unspecified. */
    method ExtractTopValue() returns (t: T)
      requires Valid()
      modifies this`N, heap
      ensures Valid()
      ensures Elems() == HeapSpec.ExtractTop(cmp, old(Elems())).0
      ensures old(N) > 0 ==> t == At(old(Elems()), 1)
      ensures heap != null ==> SameOffSlots(old(heap[..]), heap[..], S, cap)
    {
      var top: T := *;
      var status;
      status, top := ExtractTop(top);
      t := top;
    }

    /** `discardTop()`: drops the top exactly as `extractTop` does. */
    method DiscardTop()
      requires Valid()
      modifies this`N, heap
      ensures Valid()
      ensures Elems() == HeapSpec.DiscardTop(cmp, old(Elems()))
      ensures old(N) == 0 ==> N == 0 && (heap != null ==> heap[..] == old(heap[..]))
      ensures heap != null ==> SameOffSlots(old(heap[..]), heap[..], S, cap)
    {
      if N < 1 {
        return;
      }
      ghost var e0 := Elems();
      ExtractKeepsHeap(cmp, e0);
      var more := N > 1;
      DropRoot();
      if more {
        var _ := HeapDownQuick();
      }
    }
  }
}

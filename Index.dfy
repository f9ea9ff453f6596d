/**
  Index arithmetic and storage layout of a PQHeap.

  Slots are numbered from 1; slot `i` lives at buffer offset `i * S`, so
  offsets `0 .. S-1` are padding and the children of slot `i` are `2i` and
  `2i + 1`. Logical contents are modelled as a sequence `s` with slot `i`
  at `At(s, i) == s[i - 1]`.
*/
module Index {

  /** `left_child(index)`. Its parent is `index` again. */
  function LeftChild(i: nat): (c: nat)
    ensures c / 2 == i && c % 2 == 0
  {
    2 * i
  }

  /** `right_child(index)`: the sibling right after the left child. */
  function RightChild(i: nat): (c: nat)
    ensures c == LeftChild(i) + 1 && c / 2 == i
  {
    2 * i + 1
  }

  /** `parent(index)`: the slot whose left or right child `index` is. */
  function Parent(i: nat): (p: nat)
    ensures i >= 2 ==> 1 <= p < i
    ensures i == LeftChild(p) || i == RightChild(p)
  {
    i / 2
  }

  lemma ParentOfChildren(i: nat)
    requires i >= 1
    ensures Parent(LeftChild(i)) == i && Parent(RightChild(i)) == i
    ensures RightChild(i) == LeftChild(i) + 1
  {}

  // ---------------------------------------------------------------------
  // Logical slots as a sequence

  /** Slot `i` of the logical contents `s`. */
  function At<T>(s: seq<T>, i: nat): T
    requires 1 <= i <= |s|
  {
    s[i - 1]
  }

  /** `s` with slot `i` overwritten by `x`. */
  function Put<T>(s: seq<T>, i: nat, x: T): (r: seq<T>)
    requires 1 <= i <= |s|
    ensures |r| == |s| && At(r, i) == x
    ensures forall j :: 1 <= j <= |s| && j != i ==> At(r, j) == At(s, j)
  {
    s[i - 1 := x]
  }

  /** Overwriting slot `i` trades its old occupant for `x`. */
  lemma PutMultiset<T>(s: seq<T>, i: nat, x: T)
    requires 1 <= i <= |s|
    ensures multiset(Put(s, i, x)) == multiset(s) - multiset{At(s, i)} + multiset{x}
  {}

  /** Writing a slot's own occupant back changes nothing. */
  lemma PutSame<T>(s: seq<T>, i: nat)
    requires 1 <= i <= |s|
    ensures Put(s, i, At(s, i)) == s
  {}

  /** `s` with the contents of slots `i` and `j` exchanged. */
  function Swap<T>(s: seq<T>, i: nat, j: nat): (r: seq<T>)
    requires 1 <= i <= |s| && 1 <= j <= |s|
    ensures |r| == |s| && At(r, i) == At(s, j) && At(r, j) == At(s, i)
    ensures forall k :: 1 <= k <= |s| && k != i && k != j ==> At(r, k) == At(s, k)
  {
    Put(Put(s, i, At(s, j)), j, At(s, i))
  }

  /** A swap is a permutation. */
  lemma SwapMultiset<T>(s: seq<T>, i: nat, j: nat)
    requires 1 <= i <= |s| && 1 <= j <= |s|
    ensures multiset(Swap(s, i, j)) == multiset(s)
  {
    PutMultiset(s, i, At(s, j));
    PutMultiset(Put(s, i, At(s, j)), j, At(s, i));
  }

  /** Two sequences of equal length that agree on every slot are equal. */
  lemma SlotwiseEqual<T>(a: seq<T>, b: seq<T>)
    requires |a| == |b|
    requires forall i :: 1 <= i <= |a| ==> At(a, i) == At(b, i)
    ensures a == b
  {
    forall k | 0 <= k < |a|
      ensures a[k] == b[k]
    {
      assert At(a, k + 1) == At(b, k + 1);
    }
  }

  /** Moving the hole: with `x` held aside, copying slot `p` into the hole
      at `i` and then holding `x` at `p` is the swap of `i` and `p`. */
  lemma MoveHole<T>(e: seq<T>, i: nat, p: nat, x: T)
    requires 1 <= i <= |e| && 1 <= p <= |e| && i != p
    ensures Swap(Put(e, i, x), i, p) == Put(Put(e, i, At(e, p)), p, x)
  {
    var a := Swap(Put(e, i, x), i, p);
    var b := Put(Put(e, i, At(e, p)), p, x);
    forall j | 1 <= j <= |e|
      ensures At(a, j) == At(b, j)
    {
      if j == i {
        assert At(a, j) == At(e, p);
      } else if j == p {
        assert At(a, j) == x;
      } else {
        assert At(a, j) == At(e, j);
      }
    }
    SlotwiseEqual(a, b);
  }

  // ---------------------------------------------------------------------
  // The stride

  /** Buffer offset of slot `i` for stride `S`: the source's `i*S`, written
      as repeated addition so that no proof about the layout needs products
      (`OffsetIsProduct` ties the two together). */
  function Offset(i: nat, S: nat): nat {
    if i == 0 then 0 else Offset(i - 1, S) + S
  }

  lemma {:induction false} OffsetIsProduct(i: nat, S: nat)
    ensures Offset(i, S) == i * S
  {
    if i > 0 {
      OffsetIsProduct(i - 1, S);
    }
  }

  lemma {:induction false} OffsetMonotone(i: nat, j: nat, S: nat)
    requires i <= j
    ensures Offset(i, S) <= Offset(j, S)
    decreases j - i
  {
    if i < j {
      OffsetMonotone(i, j - 1, S);
      assert Offset(j, S) == Offset(j - 1, S) + S;
    }
  }

  /** Distinct slots have distinct offsets. */
  lemma OffsetInjective(i: nat, j: nat, S: nat)
    requires S >= 1 && i != j
    ensures Offset(i, S) != Offset(j, S)
  {
    if i < j {
      OffsetMonotone(i + 1, j, S);
      assert Offset(i + 1, S) == Offset(i, S) + S;
    } else {
      OffsetMonotone(j + 1, i, S);
      assert Offset(j + 1, S) == Offset(j, S) + S;
    }
  }

  /** A slot `1 <= i <= n` lies past the padding and inside a buffer of
      `S*(n+1)` elements. */
  lemma OffsetInBuffer(i: nat, n: nat, S: nat)
    requires S >= 1 && 1 <= i <= n
    ensures S <= Offset(i, S) < Offset(n + 1, S)
  {
    OffsetMonotone(1, i, S);
    OffsetMonotone(i + 1, n + 1, S);
    assert Offset(i + 1, S) == Offset(i, S) + S;
  }

  /** Every slot `1 .. n` lies before the end of slot `n`. */
  lemma OffsetsInBuffer(n: nat, S: nat)
    requires S >= 1
    ensures forall i :: 1 <= i <= n ==> Offset(i, S) < Offset(n + 1, S)
  {
    forall i | 1 <= i <= n
      ensures Offset(i, S) < Offset(n + 1, S)
    {
      OffsetInBuffer(i, n, S);
    }
  }

  /** The logical contents of a buffer holding `n` slots at stride `S`. */
  function Slots<T>(buf: seq<T>, S: nat, n: nat): (e: seq<T>)
    requires S >= 1 && Offset(n + 1, S) <= |buf|
    ensures |e| == n
    ensures forall i {:trigger At(e, i)} :: 1 <= i <= n ==> Offset(i, S) < |buf| && At(e, i) == buf[Offset(i, S)]
    decreases n
  {
    if n == 0 then []
    else
      assert Offset(n + 1, S) == Offset(n, S) + S;
      var r := Slots(buf, S, n - 1);
      var e := r + [buf[Offset(n, S)]];
      OffsetsInBuffer(n, S);
      assert forall i :: 1 <= i <= n - 1 ==> At(e, i) == At(r, i);
      e
  }

  /** The first `n - 1` slots of `n`. */
  lemma SlotsPrefix<T>(buf: seq<T>, S: nat, n: nat)
    requires S >= 1 && Offset(n + 1, S) <= |buf| && n >= 1
    ensures Offset(n, S) <= Offset(n + 1, S)
    ensures Slots(buf, S, n - 1) == Slots(buf, S, n)[..n - 1]
  {
    OffsetMonotone(n, n + 1, S);
  }

  /** Writing the buffer at the offset of slot `i` writes slot `i` and no other. */
  lemma SlotsWrite<T>(buf: seq<T>, S: nat, n: nat, i: nat, x: T)
    requires S >= 1 && Offset(n + 1, S) <= |buf| && 1 <= i <= n
    ensures Offset(i, S) < |buf|
    ensures Slots(buf[Offset(i, S) := x], S, n) == Put(Slots(buf, S, n), i, x)
  {
    OffsetInBuffer(i, n, S);
    var b := buf[Offset(i, S) := x];
    forall j | 1 <= j <= n
      ensures At(Slots(b, S, n), j) == At(Put(Slots(buf, S, n), i, x), j)
    {
      OffsetInBuffer(j, n, S);
      if j != i {
        OffsetInjective(i, j, S);
      }
    }
    SlotwiseEqual(Slots(b, S, n), Put(Slots(buf, S, n), i, x));
  }

  /** Writing the buffer at the offset of slot `n + 1` appends to `n` slots. */
  lemma SlotsAppend<T>(buf: seq<T>, S: nat, n: nat, x: T)
    requires S >= 1 && Offset(n + 2, S) <= |buf|
    ensures Offset(n + 1, S) < |buf|
    ensures Slots(buf[Offset(n + 1, S) := x], S, n + 1) == Slots(buf, S, n) + [x]
  {
    OffsetInBuffer(n + 1, n + 1, S);
    OffsetMonotone(n + 1, n + 2, S);
    var b := buf[Offset(n + 1, S) := x];
    var e, e' := Slots(b, S, n + 1), Slots(buf, S, n) + [x];
    forall j | 1 <= j <= n + 1
      ensures At(e, j) == At(e', j)
    {
      if j <= n {
        OffsetInjective(j, n + 1, S);
        assert At(e', j) == At(Slots(buf, S, n), j);
      }
    }
    SlotwiseEqual(e, e');
  }

  // ---------------------------------------------------------------------
  // Which offsets the heap may write

  /** `o` is the offset of one of the slots `1 .. cap`. */
  ghost predicate IsSlotOffset(o: nat, S: nat, cap: nat) {
    exists i :: 1 <= i <= cap && o == Offset(i, S)
  }

  /** `o` is not the offset of any of the slots `1 .. cap`. */
  ghost predicate Unslotted(o: nat, S: nat, cap: nat) {
    !IsSlotOffset(o, S, cap)
  }

  /** `b2` differs from `b1` at most at slot offsets. The quantifier fires
      only on `Unslotted` terms, so a proof about slot contents never pays
      for it. */
  ghost predicate SameOffSlots<T>(b1: seq<T>, b2: seq<T>, S: nat, cap: nat) {
    && |b1| == |b2|
    && forall o {:trigger Unslotted(o, S, cap)} :: 0 <= o < |b1| && Unslotted(o, S, cap) ==> b1[o] == b2[o]
  }

  /** The padding `0 .. S-1` ahead of slot 1 is never a slot offset, and every
      slot offset lies inside a buffer of `S*(cap+1)` elements. */
  lemma SlotOffsetBounds(o: nat, S: nat, cap: nat)
    requires S >= 1
    ensures o < S ==> !IsSlotOffset(o, S, cap)
    ensures IsSlotOffset(o, S, cap) ==> S <= o < Offset(cap + 1, S)
  {
    if IsSlotOffset(o, S, cap) {
      var i :| 1 <= i <= cap && o == Offset(i, S);
      OffsetInBuffer(i, cap, S);
    }
  }

  /** An offset that is not a multiple of the stride is never a slot offset. */
  lemma NonMultipleNeverSlot(o: nat, S: nat, cap: nat)
    requires S >= 1 && o % S != 0
    ensures !IsSlotOffset(o, S, cap)
  {
    if IsSlotOffset(o, S, cap) {
      var i :| 1 <= i <= cap && o == Offset(i, S);
      OffsetIsProduct(i, S);
      var q, r := o / S, o % S;
      assert o == q * S + r && 0 < r < S;
      assert (i - q) * S == r;
      if i > q {
        MulMonotone(1, i - q, S);
      } else {
        MulMonotone(i - q, 0, S);
      }
    }
  }

  /** Kept apart so that the nonlinear fact is proved in a context of its own. */
  lemma MulMonotone(a: int, b: int, S: nat)
    requires a <= b
    ensures a * S <= b * S
  {}

  /** Writing one slot offset keeps `SameOffSlots`. */
  lemma WriteSlot<T>(b0: seq<T>, b1: seq<T>, S: nat, cap: nat, i: nat, x: T)
    requires SameOffSlots(b0, b1, S, cap) && 1 <= i <= cap && Offset(i, S) < |b1|
    ensures SameOffSlots(b0, b1[Offset(i, S) := x], S, cap)
  {
    var b2 := b1[Offset(i, S) := x];
    forall o | 0 <= o < |b0| && Unslotted(o, S, cap)
      ensures b0[o] == b2[o]
    {
      assert o != Offset(i, S);
    }
  }
}

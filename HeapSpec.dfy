/**
  The logical behaviour of a PQHeap on its occupied slots `1 .. N`.

  `SiftUp` and `SiftDown` are the pairwise-swap formulations of the
  source's `heapUp(int)` and `heapDownQuick()`; the class in module PQ moves
  a hole instead and is proved to end in the same state. `Insert`,
  `ExtractTop` and `DiscardTop` give the new contents and the status code of
  the public operations.
*/
module HeapSpec {
  import opened Order
  import opened Index

  /** The heap property: no occupied slot's parent loses to it under `cmp`. */
  predicate IsHeap<T>(cmp: (T, T) -> bool, s: seq<T>) {
    forall i :: 2 <= i <= |s| ==> !cmp(At(s, Parent(i)), At(s, i))
  }

  /** The root of a heap does not lose to any slot. */
  lemma {:induction false} RootDominates<T(!new)>(cmp: (T, T) -> bool, s: seq<T>, i: nat)
    requires StrictWeakOrder(cmp) && IsHeap(cmp, s) && 1 <= i <= |s|
    ensures !cmp(At(s, 1), At(s, i))
    decreases i
  {
    if i > 1 {
      RootDominates(cmp, s, Parent(i));
    }
  }

  /** The root of a heap does not lose to any element it holds. */
  lemma RootDominatesAll<T(!new)>(cmp: (T, T) -> bool, s: seq<T>)
    requires StrictWeakOrder(cmp) && IsHeap(cmp, s) && |s| >= 1
    ensures forall y :: y in s ==> !cmp(At(s, 1), y)
  {
    forall y | y in s
      ensures !cmp(At(s, 1), y)
    {
      var k :| 0 <= k < |s| && s[k] == y;
      RootDominates(cmp, s, k + 1);
    }
  }

  // ---------------------------------------------------------------------
  // Sift up

  /** Swap slot `i` with its parent while the parent loses to it; the
      second component is the slot where the start element settles. */
  function SiftUp<T>(cmp: (T, T) -> bool, s: seq<T>, i: nat): (r: (seq<T>, nat))
    requires 1 <= i <= |s|
    ensures |r.0| == |s|
    ensures 1 <= r.1 <= i && At(r.0, r.1) == At(s, i)
    decreases i
  {
    if i > 1 && cmp(At(s, Parent(i)), At(s, i)) then
      SiftUp(cmp, Swap(s, i, Parent(i)), Parent(i))
    else
      (s, i)
  }

  /** Sifting up only rearranges. */
  lemma {:induction false} SiftUpPermutes<T>(cmp: (T, T) -> bool, s: seq<T>, i: nat)
    requires 1 <= i <= |s|
    ensures multiset(SiftUp(cmp, s, i).0) == multiset(s)
    decreases i
  {
    if i > 1 && cmp(At(s, Parent(i)), At(s, i)) {
      SwapMultiset(s, i, Parent(i));
      SiftUpPermutes(cmp, Swap(s, i, Parent(i)), Parent(i));
    }
  }

  /** A heap except for the link into slot `i`, whose parent does not lose
      to `i`'s children. */
  ghost predicate HeapExceptUp<T>(cmp: (T, T) -> bool, s: seq<T>, i: nat)
    requires 1 <= i <= |s|
  {
    && (forall j :: 2 <= j <= |s| && j != i ==> !cmp(At(s, Parent(j)), At(s, j)))
    && (i >= 2 ==> forall c :: 2 <= c <= |s| && Parent(c) == i ==> !cmp(At(s, Parent(i)), At(s, c)))
  }

  lemma {:induction false} SiftUpRestores<T(!new)>(cmp: (T, T) -> bool, s: seq<T>, i: nat)
    requires StrictWeakOrder(cmp) && 1 <= i <= |s| && HeapExceptUp(cmp, s, i)
    ensures IsHeap(cmp, SiftUp(cmp, s, i).0)
    decreases i
  {
    if i > 1 && cmp(At(s, Parent(i)), At(s, i)) {
      var p := Parent(i);
      var s' := Swap(s, i, p);
      forall j | 2 <= j <= |s| && j != p
        ensures !cmp(At(s', Parent(j)), At(s', j))
      {
        if j == i {
          Asymmetric(cmp, At(s, p), At(s, i));
        } else if Parent(j) == i {
          assert At(s', j) == At(s, j);
        } else if Parent(j) == p {
          assert !cmp(At(s, p), At(s, j));
        } else {
          assert At(s', j) == At(s, j) && At(s', Parent(j)) == At(s, Parent(j));
        }
      }
      if p >= 2 {
        forall c | 2 <= c <= |s| && Parent(c) == p
          ensures !cmp(At(s', Parent(p)), At(s', c))
        {
          assert At(s', Parent(p)) == At(s, Parent(p));
          assert !cmp(At(s, Parent(p)), At(s, p));
          if c != i {
            assert !cmp(At(s, p), At(s, c));
          }
        }
      }
      SiftUpRestores(cmp, s', p);
    }
  }

  // ---------------------------------------------------------------------
  // Sift down

  /** The child of `i` that the element at `i` must beat: the left child,
      or its right sibling when the left child loses to it. */
  function Next<T>(cmp: (T, T) -> bool, s: seq<T>, i: nat): (c: nat)
    requires 1 <= i && LeftChild(i) <= |s|
    ensures 2 <= c <= |s| && Parent(c) == i
  {
    var l := LeftChild(i);
    if l < |s| && cmp(At(s, l), At(s, l + 1)) then l + 1 else l
  }

  lemma NextWins<T(!new)>(cmp: (T, T) -> bool, s: seq<T>, i: nat)
    requires StrictWeakOrder(cmp) && 1 <= i && LeftChild(i) <= |s|
    ensures forall c :: 2 <= c <= |s| && Parent(c) == i ==> !cmp(At(s, Next(cmp, s, i)), At(s, c))
  {
    var l := LeftChild(i);
    Asymmetric(cmp, At(s, l), if l < |s| then At(s, l + 1) else At(s, l));
  }

  /** While slot `i` has a child within `|s|` and loses to the winning child, swap
      the two; the second component is the slot where the start element settles. */
  function SiftDown<T>(cmp: (T, T) -> bool, s: seq<T>, i: nat): (r: (seq<T>, nat))
    requires 1 <= i <= |s|
    ensures |r.0| == |s|
    ensures i <= r.1 <= |s| && At(r.0, r.1) == At(s, i)
    decreases |s| - i
  {
    if i <= |s| / 2 then
      var next := Next(cmp, s, i);
      if !cmp(At(s, i), At(s, next)) then (s, i)
      else SiftDown(cmp, Swap(s, i, next), next)
    else
      (s, i)
  }

  /** Sifting down only rearranges. */
  lemma {:induction false} SiftDownPermutes<T>(cmp: (T, T) -> bool, s: seq<T>, i: nat)
    requires 1 <= i <= |s|
    ensures multiset(SiftDown(cmp, s, i).0) == multiset(s)
    decreases |s| - i
  {
    if i <= |s| / 2 {
      var next := Next(cmp, s, i);
      if cmp(At(s, i), At(s, next)) {
        SwapMultiset(s, i, next);
        SiftDownPermutes(cmp, Swap(s, i, next), next);
      }
    }
  }

  /** A heap except for the links out of slot `i`, whose parent does not
      lose to `i`'s children. */
  ghost predicate HeapExceptDown<T>(cmp: (T, T) -> bool, s: seq<T>, i: nat)
    requires 1 <= i <= |s|
  {
    && (forall j :: 2 <= j <= |s| && Parent(j) != i ==> !cmp(At(s, Parent(j)), At(s, j)))
    && (i >= 2 ==> forall c :: 2 <= c <= |s| && Parent(c) == i ==> !cmp(At(s, Parent(i)), At(s, c)))
  }

  lemma {:induction false} SiftDownRestores<T(!new)>(cmp: (T, T) -> bool, s: seq<T>, i: nat)
    requires StrictWeakOrder(cmp) && 1 <= i <= |s| && HeapExceptDown(cmp, s, i)
    ensures IsHeap(cmp, SiftDown(cmp, s, i).0)
    decreases |s| - i
  {
    if i <= |s| / 2 {
      var w := Next(cmp, s, i);
      NextWins(cmp, s, i);
      if !cmp(At(s, i), At(s, w)) {
        forall j | 2 <= j <= |s| && Parent(j) == i
          ensures !cmp(At(s, i), At(s, j))
        {
          assert !cmp(At(s, w), At(s, j));
        }
      } else {
        var s' := Swap(s, i, w);
        forall j | 2 <= j <= |s| && Parent(j) != w
          ensures !cmp(At(s', Parent(j)), At(s', j))
        {
          if j == i {
            assert At(s', Parent(j)) == At(s, Parent(i));
          } else if j == w {
            Asymmetric(cmp, At(s, i), At(s, w));
          } else if Parent(j) == i {
            assert At(s', j) == At(s, j);
          } else {
            assert At(s', j) == At(s, j) && At(s', Parent(j)) == At(s, Parent(j));
          }
        }
        forall c | 2 <= c <= |s| && Parent(c) == w
          ensures !cmp(At(s', Parent(w)), At(s', c))
        {
          assert At(s', c) == At(s, c);
        }
        SiftDownRestores(cmp, s', w);
      }
    }
  }

  // ---------------------------------------------------------------------
  // The public operations on logical contents

  /** `insert(t)` into contents `s` of a heap with capacity `cap`: the new
      contents and the status (-2 no capacity, -1 rejected, else the slot
      where `t` settled). */
  function Insert<T>(cmp: (T, T) -> bool, cap: nat, s: seq<T>, t: T): (r: (seq<T>, int))
    requires cap == 0 || |s| <= cap
    ensures cap == 0 ==> r == (s, -2)
    ensures cap > 0 && |s| < cap ==> |r.0| == |s| + 1 && 1 <= r.1 <= |r.0| && At(r.0, r.1) == t
    ensures cap > 0 && |s| == cap && cmp(t, At(s, 1)) ==> |r.0| == |s| && 1 <= r.1 <= |r.0| && At(r.0, r.1) == t
    ensures cap > 0 && |s| == cap && !cmp(t, At(s, 1)) ==> r == (s, -1)
  {
    if cap == 0 then (s, -2)
    else if |s| == cap then
      if cmp(t, At(s, 1)) then
        var d := SiftDown(cmp, Put(s, 1, t), 1);
        (d.0, d.1 as int)
      else
        (s, -1)
    else
      var s1 := s + [t];
      assert At(s1, |s1|) == t;
      if |s1| == 1 then (s1, 1)
      else
        var u := SiftUp(cmp, s1, |s1|);
        (u.0, u.1 as int)
  }

  /** What `insert` does to the multiset of held elements: `t` is added, in
      place of the top when the queue is full and `t` beats it. */
  lemma InsertContents<T>(cmp: (T, T) -> bool, cap: nat, s: seq<T>, t: T)
    requires cap == 0 || |s| <= cap
    ensures cap > 0 && |s| < cap ==> multiset(Insert(cmp, cap, s, t).0) == multiset(s) + multiset{t}
    ensures cap > 0 && |s| == cap && cmp(t, At(s, 1)) ==>
      multiset(Insert(cmp, cap, s, t).0) == multiset(s) - multiset{At(s, 1)} + multiset{t}
  {
    if cap > 0 {
      if |s| == cap {
        if cmp(t, At(s, 1)) {
          PutMultiset(s, 1, t);
          SiftDownPermutes(cmp, Put(s, 1, t), 1);
        }
      } else if |s| > 0 {
        SiftUpPermutes(cmp, s + [t], |s| + 1);
      }
    }
  }

  lemma InsertKeepsHeap<T(!new)>(cmp: (T, T) -> bool, cap: nat, s: seq<T>, t: T)
    requires StrictWeakOrder(cmp) && |s| <= cap && IsHeap(cmp, s)
    ensures IsHeap(cmp, Insert(cmp, cap, s, t).0)
  {
    if cap > 0 {
      if |s| == cap {
        if cmp(t, At(s, 1)) {
          ReplacedRootSinks(cmp, s, t);
        }
      } else if |s| > 0 {
        AppendedLeafRises(cmp, s, t);
      }
    }
  }

  lemma ReplacedRootSinks<T(!new)>(cmp: (T, T) -> bool, s: seq<T>, t: T)
    requires StrictWeakOrder(cmp) && |s| >= 1 && IsHeap(cmp, s)
    ensures IsHeap(cmp, SiftDown(cmp, Put(s, 1, t), 1).0)
  {
    var s1 := Put(s, 1, t);
    assert HeapExceptDown(cmp, s1, 1) by {
      forall j | 2 <= j <= |s1| && Parent(j) != 1
        ensures !cmp(At(s1, Parent(j)), At(s1, j))
      {
        assert At(s1, Parent(j)) == At(s, Parent(j));
      }
    }
    SiftDownRestores(cmp, s1, 1);
  }

  lemma AppendedLeafRises<T(!new)>(cmp: (T, T) -> bool, s: seq<T>, t: T)
    requires StrictWeakOrder(cmp) && IsHeap(cmp, s)
    ensures IsHeap(cmp, SiftUp(cmp, s + [t], |s| + 1).0)
  {
    var s1 := s + [t];
    assert HeapExceptUp(cmp, s1, |s1|) by {
      forall j | 2 <= j <= |s1| && j != |s1|
        ensures !cmp(At(s1, Parent(j)), At(s1, j))
      {
        assert At(s1, j) == At(s, j) && At(s1, Parent(j)) == At(s, Parent(j));
      }
    }
    SiftUpRestores(cmp, s1, |s1|);
  }

  lemma DropLast<T>(q: seq<T>)
    requires |q| >= 1
    ensures multiset(q[..|q| - 1]) == multiset(q) - multiset{q[|q| - 1]}
  {
    assert q == q[..|q| - 1] + [q[|q| - 1]];
  }

  /** The contents `extractTop` leaves behind before sifting: the last slot
      moved to the root, then dropped from the occupied range. */
  function Shrink<T>(s: seq<T>): (q: seq<T>)
    requires |s| >= 1
    ensures |q| == |s| - 1
    ensures |s| > 1 ==> At(q, 1) == At(s, |s|)
    ensures forall j :: 2 <= j <= |q| ==> At(q, j) == At(s, j)
  {
    Put(s, 1, At(s, |s|))[..|s| - 1]
  }

  /** Shrinking loses exactly the top. */
  lemma ShrinkMultiset<T>(s: seq<T>)
    requires |s| >= 1
    ensures multiset(Shrink(s)) == multiset(s) - multiset{At(s, 1)}
  {
    var p := Put(s, 1, At(s, |s|));
    DropLast(p);
    PutMultiset(s, 1, At(s, |s|));
    assert Shrink(s) == p[..|p| - 1];
  }

  /** `extractTop(t)` from contents `s`: the new contents and the status
      (1 if empty, 0 if at most one element remains, else the slot where
      the moved last element settled). The extracted element is `At(s, 1)`. */
  function ExtractTop<T>(cmp: (T, T) -> bool, s: seq<T>): (r: (seq<T>, int))
    ensures |s| == 0 ==> r == (s, 1)
    ensures |s| > 0 ==> |r.0| == |s| - 1
    ensures |s| > 0 ==> (r.1 == 0 <==> |s| <= 2)
    ensures |s| > 2 ==> 1 <= r.1 <= |r.0| && At(r.0, r.1) == At(s, |s|)
  {
    if |s| < 1 then (s, 1)
    else
      var s1 := Shrink(s);
      if |s1| <= 1 then (s1, 0)
      else
        var d := SiftDown(cmp, s1, 1);
        (d.0, d.1 as int)
  }

  /** `extractTop` loses exactly the top. */
  lemma ExtractTopContents<T>(cmp: (T, T) -> bool, s: seq<T>)
    requires |s| >= 1
    ensures multiset(ExtractTop(cmp, s).0) == multiset(s) - multiset{At(s, 1)}
  {
    ShrinkMultiset(s);
    if |s| > 2 {
      SiftDownPermutes(cmp, Shrink(s), 1);
    }
  }

  lemma ExtractKeepsHeap<T(!new)>(cmp: (T, T) -> bool, s: seq<T>)
    requires StrictWeakOrder(cmp) && IsHeap(cmp, s)
    ensures IsHeap(cmp, ExtractTop(cmp, s).0)
  {
    if |s| > 2 {
      var s1 := Shrink(s);
      assert HeapExceptDown(cmp, s1, 1) by {
        forall j | 2 <= j <= |s1| && Parent(j) != 1
          ensures !cmp(At(s1, Parent(j)), At(s1, j))
        {
          assert At(s1, Parent(j)) == At(s, Parent(j));
        }
      }
      SiftDownRestores(cmp, s1, 1);
    }
  }

  /** `discardTop()`: once the last slot is moved to the root it sifts down
      even when a single element is left, which then does not move; so it
      leaves exactly the contents `extractTop` leaves. */
  function DiscardTop<T>(cmp: (T, T) -> bool, s: seq<T>): (r: seq<T>)
    ensures r == ExtractTop(cmp, s).0
  {
    if |s| < 1 then s
    else if |s| > 1 then SiftDown(cmp, Shrink(s), 1).0
    else Shrink(s)
  }

  // ---------------------------------------------------------------------
  // Sifting with a hole
  //
  // The source holds the moving element aside (the "bubble" of `heapUp`,
  // the "rock" of `heapDownQuick`) and copies parents down or children up
  // into the hole at slot `i`. With `e` the stored contents, the contents
  // the swap formulation sees are `Put(e, i, x)`.

  /** One round of `heapUp(int)`: the parent `p` loses to the bubble `x`, is
      copied into the hole, and the hole moves up to `p`. */
  lemma HoleUp<T>(cmp: (T, T) -> bool, e: seq<T>, i: nat, x: T)
    requires 2 <= i <= |e| && cmp(At(e, Parent(i)), x)
    ensures SiftUp(cmp, Put(e, i, x), i)
         == SiftUp(cmp, Put(Put(e, i, At(e, Parent(i))), Parent(i), x), Parent(i))
  {
    MoveHole(e, i, Parent(i), x);
  }

  /** `heapUp(int)` stops: the bubble settles in the hole. */
  lemma HoleUpStops<T>(cmp: (T, T) -> bool, e: seq<T>, i: nat, x: T)
    requires 1 <= i <= |e| && !(i > 1 && cmp(At(e, Parent(i)), x))
    ensures SiftUp(cmp, Put(e, i, x), i) == (Put(e, i, x), i)
  {}

  /** The child `heapDownQuick` picks next to the hole at `i` is `Next` of
      the contents with the rock at `i`: the children are not the hole. */
  lemma HoleNext<T>(cmp: (T, T) -> bool, e: seq<T>, i: nat, x: T)
    requires 1 <= i && LeftChild(i) <= |e|
    ensures Next(cmp, Put(e, i, x), i)
         == var l := LeftChild(i); if l < |e| && cmp(At(e, l), At(e, l + 1)) then l + 1 else l
  {}

  /** One round of `heapDownQuick`: the rock `x` loses to the chosen child
      `c`, which is copied into the hole, and the hole moves down to `c`. */
  lemma HoleDown<T>(cmp: (T, T) -> bool, e: seq<T>, i: nat, x: T, c: nat)
    requires 1 <= i <= |e| / 2 && c == Next(cmp, Put(e, i, x), i) && cmp(x, At(e, c))
    ensures SiftDown(cmp, Put(e, i, x), i)
         == SiftDown(cmp, Put(Put(e, i, At(e, c)), c, x), c)
  {
    MoveHole(e, i, c, x);
  }

  /** `heapDownQuick` stops: the rock settles in the hole. */
  lemma HoleDownStops<T>(cmp: (T, T) -> bool, e: seq<T>, i: nat, x: T)
    requires 1 <= i <= |e|
    requires i <= |e| / 2 ==> !cmp(x, At(e, Next(cmp, Put(e, i, x), i)))
    ensures SiftDown(cmp, Put(e, i, x), i) == (Put(e, i, x), i)
  {}
}

/**
  What a PQHeap promises over many calls: bounded top-K retention for a
  stream of inserts, heap-sort order for repeated extraction, and the
  orientation chosen by the comparator.
*/
module Retention {
  import opened Order
  import opened Index
  import opened HeapSpec

  /** Contents after inserting `xs`, in order, into an empty heap of capacity `cap`. */
  function InsertAll<T>(cmp: (T, T) -> bool, cap: nat, xs: seq<T>): (r: seq<T>)
    ensures |r| == if |xs| < cap then |xs| else cap
    decreases |xs|
  {
    if xs == [] then []
    else Insert(cmp, cap, InsertAll(cmp, cap, xs[..|xs| - 1]), xs[|xs| - 1]).0
  }

  /** Retention invariant of contents `s` after the elements `seen` were
      offered: `s` holds some of them, all of them while not full, and every
      element not held loses to nothing that is held. */
  ghost predicate Retains<T>(cmp: (T, T) -> bool, cap: nat, s: seq<T>, seen: multiset<T>) {
    && multiset(s) <= seen
    && (|s| < cap ==> multiset(s) == seen)
    && forall x, y :: x in seen - multiset(s) && y in s ==> !cmp(x, y)
  }

  lemma InsertRetains<T(!new)>(cmp: (T, T) -> bool, cap: nat, s: seq<T>, seen: multiset<T>, t: T)
    requires StrictWeakOrder(cmp) && cap >= 1 && |s| <= cap && IsHeap(cmp, s)
    requires Retains(cmp, cap, s, seen)
    ensures Retains(cmp, cap, Insert(cmp, cap, s, t).0, seen + multiset{t})
  {
    var s' := Insert(cmp, cap, s, t).0;
    var seen' := seen + multiset{t};
    InsertContents(cmp, cap, s, t);
    if |s| < cap {
      assert multiset(s') == seen';
    } else {
      var top := At(s, 1);
      RootDominatesAll(cmp, s);
      if cmp(t, top) {
        assert top in multiset(s);
        forall x, y | x in seen' - multiset(s') && y in s'
          ensures !cmp(x, y)
        {
          assert x in seen - multiset(s) || x == top;
          assert y in multiset(s');
          assert y in s || y == t;
          if x == top && y == t {
            Asymmetric(cmp, t, top);
          } else if y == t {
            assert !cmp(x, top);
          }
        }
      } else {
        forall x, y | x in seen' - multiset(s') && y in s'
          ensures !cmp(x, y)
        {
          assert x in seen - multiset(s) || x == t;
          if x == t {
            assert !cmp(top, y);
          }
        }
      }
    }
  }

  /** The retention invariant holds for every insert-only stream. */
  lemma {:induction false} InsertAllRetains<T(!new)>(cmp: (T, T) -> bool, K: nat, xs: seq<T>)
    requires StrictWeakOrder(cmp) && K >= 1
    ensures IsHeap(cmp, InsertAll(cmp, K, xs)) && Retains(cmp, K, InsertAll(cmp, K, xs), multiset(xs))
    decreases |xs|
  {
    if xs != [] {
      var init, last := xs[..|xs| - 1], xs[|xs| - 1];
      var s := InsertAll(cmp, K, init);
      InsertAllRetains(cmp, K, init);
      assert xs == init + [last];
      assert multiset(xs) == multiset(init) + multiset{last};
      assert InsertAll(cmp, K, xs) == Insert(cmp, K, s, last).0;
      InsertKeepsHeap(cmp, K, s, last);
      InsertRetains(cmp, K, s, multiset(init), last);
    }
  }

  /** Bounded top-K retention: after any insert-only stream into a heap of
      capacity `K >= 1`, the heap holds `min(K, |xs|)` of the offered
      elements, and every rejected or evicted element loses to none of them. */
  lemma TopK<T(!new)>(cmp: (T, T) -> bool, K: nat, xs: seq<T>)
    requires StrictWeakOrder(cmp) && K >= 1
    ensures var r := InsertAll(cmp, K, xs);
      && IsHeap(cmp, r)
      && |r| == (if |xs| < K then |xs| else K)
      && multiset(r) <= multiset(xs)
      && (forall x, y :: x in multiset(xs) - multiset(r) && y in r ==> !cmp(x, y))
  {
    InsertAllRetains(cmp, K, xs);
  }

  /** Outputs of up to `m` rounds that each output the top `At(s, 1)` and
      continue on `pop(s)`. This is `ExtractAll` with the step left abstract
      (`ExtractAllIsDrain`): the order and permutation proofs below need only
      the step's contract, and stating them on an abstract `pop` keeps the
      verifier from unfolding `ExtractTop` at every round. */
  function Drain<T>(pop: seq<T> -> seq<T>, s: seq<T>, m: nat): (out: seq<T>)
    decreases m
  {
    if m == 0 || |s| == 0 then []
    else [At(s, 1)] + Drain(pop, pop(s), m - 1)
  }

  /** `extractTop` as a step function on contents. */
  function Pop<T>(cmp: (T, T) -> bool): seq<T> -> seq<T> {
    s => ExtractTop(cmp, s).0
  }

  /** Outputs of up to `m` successful `extractTop` calls, top first. */
  function ExtractAll<T>(cmp: (T, T) -> bool, s: seq<T>, m: nat): (out: seq<T>)
    ensures |out| == if m < |s| then m else |s|
    decreases m
  {
    if m == 0 || |s| == 0 then []
    else [At(s, 1)] + ExtractAll(cmp, ExtractTop(cmp, s).0, m - 1)
  }

  /** Extraction is draining with `extractTop` as the step. */
  lemma {:induction false} ExtractAllIsDrain<T>(cmp: (T, T) -> bool, pop: seq<T> -> seq<T>, s: seq<T>, m: nat)
    requires forall x :: pop(x) == ExtractTop(cmp, x).0
    ensures ExtractAll(cmp, s, m) == Drain(pop, s, m)
    decreases m
  {
    if m > 0 && |s| > 0 {
      ExtractAllIsDrain(cmp, pop, pop(s), m - 1);
    }
  }

  /** Each `extractTop` leaves one element fewer, and only elements that were there. */
  lemma PopShrinks<T>(cmp: (T, T) -> bool)
    ensures forall s :: |s| > 0 ==> |Pop(cmp)(s)| == |s| - 1
    ensures forall s, y :: y in Pop(cmp)(s) ==> y in s
  {
    forall s
      ensures |s| > 0 ==> |Pop(cmp)(s)| == |s| - 1
      ensures forall y :: y in Pop(cmp)(s) ==> y in s
    {
      ExtractTopFrom(cmp, s);
    }
  }

  lemma ExtractTopFrom<T>(cmp: (T, T) -> bool, s: seq<T>)
    ensures |s| > 0 ==> |ExtractTop(cmp, s).0| == |s| - 1
    ensures forall y :: y in ExtractTop(cmp, s).0 ==> y in s
  {
    var rest := ExtractTop(cmp, s).0;
    if |s| > 0 {
      ExtractTopContents(cmp, s);
      forall y | y in rest
        ensures y in s
      {
        assert y in multiset(rest);
      }
    }
  }

  /** ... and keeps a heap a heap. */
  lemma PopKeepsHeap<T(!new)>(cmp: (T, T) -> bool)
    requires StrictWeakOrder(cmp)
    ensures forall s :: IsHeap(cmp, s) ==> IsHeap(cmp, Pop(cmp)(s))
  {
    forall s | IsHeap(cmp, s)
      ensures IsHeap(cmp, Pop(cmp)(s))
    {
      ExtractKeepsHeap(cmp, s);
    }
  }

  /** Every output of draining was in the contents. */
  lemma {:induction false} DrainFrom<T>(pop: seq<T> -> seq<T>, s: seq<T>, m: nat)
    requires forall x, y :: y in pop(x) ==> y in x
    ensures forall y :: y in Drain(pop, s, m) ==> y in s
    decreases m
  {
    if m > 0 && |s| > 0 {
      DrainFrom(pop, pop(s), m - 1);
      forall y | y in Drain(pop, s, m)
        ensures y in s
      {
        if y != At(s, 1) {
          assert y in Drain(pop, pop(s), m - 1);
        }
      }
    }
  }

  /** Every output of extraction was in the contents. */
  lemma ExtractAllFrom<T>(cmp: (T, T) -> bool, s: seq<T>, m: nat)
    ensures forall y :: y in ExtractAll(cmp, s, m) ==> y in s
  {
    PopShrinks(cmp);
    DrainFrom(Pop(cmp), s, m);
    ExtractAllIsDrain(cmp, Pop(cmp), s, m);
  }

  /** Draining from a heap with a step that keeps it a heap yields the
      elements in heap-sort order: no output loses to a later one. */
  lemma {:induction false} DrainSorted<T(!new)>(cmp: (T, T) -> bool, pop: seq<T> -> seq<T>, s: seq<T>, m: nat)
    requires StrictWeakOrder(cmp) && IsHeap(cmp, s)
    requires forall x, y :: y in pop(x) ==> y in x
    requires forall x :: IsHeap(cmp, x) ==> IsHeap(cmp, pop(x))
    ensures forall j, k :: 0 <= j < k < |Drain(pop, s, m)| ==> !cmp(Drain(pop, s, m)[j], Drain(pop, s, m)[k])
    decreases m
  {
    if m > 0 && |s| > 0 {
      var top, tail := At(s, 1), Drain(pop, pop(s), m - 1);
      DrainSorted(cmp, pop, pop(s), m - 1);
      DrainFrom(pop, pop(s), m - 1);
      RootDominatesAll(cmp, s);
      var out := Drain(pop, s, m);
      assert out == [top] + tail;
      forall j, k | 0 <= j < k < |out|
        ensures !cmp(out[j], out[k])
      {
        if j == 0 {
          assert out[k] == tail[k - 1];
          assert out[k] in tail;
        } else {
          assert out[j] == tail[j - 1] && out[k] == tail[k - 1];
        }
      }
    }
  }

  /** Repeated extraction from a heap yields its elements in heap-sort order:
      no output loses to a later one. */
  lemma HeapSortOrder<T(!new)>(cmp: (T, T) -> bool, s: seq<T>, m: nat)
    requires StrictWeakOrder(cmp) && IsHeap(cmp, s)
    ensures forall j, k :: 0 <= j < k < |ExtractAll(cmp, s, m)| ==>
              !cmp(ExtractAll(cmp, s, m)[j], ExtractAll(cmp, s, m)[k])
  {
    PopShrinks(cmp);
    PopKeepsHeap(cmp);
    DrainSorted(cmp, Pop(cmp), s, m);
    ExtractAllIsDrain(cmp, Pop(cmp), s, m);
  }

  /** Extracting at least as often as there are elements drains the heap:
      the outputs are exactly the original contents, nothing lost or invented. */
  lemma ExtractAllPermutes<T>(cmp: (T, T) -> bool, s: seq<T>, m: nat)
    requires |s| <= m
    ensures multiset(ExtractAll(cmp, s, m)) == multiset(s)
  {
    PopShrinks(cmp);
    PopLosesTop(cmp);
    DrainPermutes(Pop(cmp), s, m);
    ExtractAllIsDrain(cmp, Pop(cmp), s, m);
  }

  /** Each `extractTop` loses exactly the top. */
  lemma PopLosesTop<T>(cmp: (T, T) -> bool)
    ensures forall s :: |s| > 0 ==> multiset(Pop(cmp)(s)) == multiset(s) - multiset{At(s, 1)}
  {
    forall s | |s| > 0
      ensures multiset(Pop(cmp)(s)) == multiset(s) - multiset{At(s, 1)}
    {
      ExtractTopContents(cmp, s);
    }
  }

  /** A step that loses exactly the top, drained at least as often as there
      are elements, outputs a permutation of the contents. */
  lemma {:induction false} DrainPermutes<T>(pop: seq<T> -> seq<T>, s: seq<T>, m: nat)
    requires |s| <= m
    requires forall x :: |x| > 0 ==> |pop(x)| == |x| - 1
    requires forall x :: |x| > 0 ==> multiset(pop(x)) == multiset(x) - multiset{At(x, 1)}
    ensures multiset(Drain(pop, s, m)) == multiset(s)
    decreases m
  {
    if m > 0 && |s| > 0 {
      DrainPermutes(pop, pop(s), m - 1);
      AddBack(s, pop(s), Drain(pop, pop(s), m - 1));
    }
  }

  /** Putting the top back in front of a permutation of what is left
      without it gives a permutation of the original contents. */
  lemma AddBack<T>(s: seq<T>, rest: seq<T>, tail: seq<T>)
    requires |s| >= 1 && multiset(rest) == multiset(s) - multiset{At(s, 1)}
    requires multiset(tail) == multiset(rest)
    ensures multiset([At(s, 1)] + tail) == multiset(s)
  {
    assert At(s, 1) in multiset(s) by { assert s[0] in s; }
  }

  // ---------------------------------------------------------------------
  // Orientation of the two standard comparators

  /** With `std::greater` the top is the smallest retained element, and the
      heap keeps the `K` largest elements offered. */
  lemma GreaterKeepsLargest(K: nat, xs: seq<int>)
    requires K >= 1
    ensures forall x, y :: x in multiset(xs) - multiset(InsertAll(Greater, K, xs)) && y in InsertAll(Greater, K, xs)
              ==> x <= y
    ensures |InsertAll(Greater, K, xs)| > 0 ==>
              forall y :: y in InsertAll(Greater, K, xs) ==> At(InsertAll(Greater, K, xs), 1) <= y
  {
    GreaterIsStrictWeakOrder();
    TopK(Greater, K, xs);
    GreaterOrientation(multiset(xs), InsertAll(Greater, K, xs));
  }

  lemma GreaterOrientation(seen: multiset<int>, r: seq<int>)
    requires IsHeap(Greater, r)
    requires forall x, y :: x in seen - multiset(r) && y in r ==> !Greater(x, y)
    ensures forall x, y :: x in seen - multiset(r) && y in r ==> x <= y
    ensures |r| > 0 ==> forall y :: y in r ==> At(r, 1) <= y
  {
    if |r| > 0 {
      GreaterIsStrictWeakOrder();
      RootDominatesAll(Greater, r);
    }
  }

  /** With `std::less` (the default) the top is the largest retained
      element, and the heap keeps the `K` smallest elements offered. */
  lemma LessKeepsSmallest(K: nat, xs: seq<int>)
    requires K >= 1
    ensures forall x, y :: x in multiset(xs) - multiset(InsertAll(Less, K, xs)) && y in InsertAll(Less, K, xs)
              ==> x >= y
    ensures |InsertAll(Less, K, xs)| > 0 ==>
              forall y :: y in InsertAll(Less, K, xs) ==> At(InsertAll(Less, K, xs), 1) >= y
  {
    LessIsStrictWeakOrder();
    TopK(Less, K, xs);
    LessOrientation(multiset(xs), InsertAll(Less, K, xs));
  }

  lemma LessOrientation(seen: multiset<int>, r: seq<int>)
    requires IsHeap(Less, r)
    requires forall x, y :: x in seen - multiset(r) && y in r ==> !Less(x, y)
    ensures forall x, y :: x in seen - multiset(r) && y in r ==> x >= y
    ensures |r| > 0 ==> forall y :: y in r ==> At(r, 1) >= y
  {
    if |r| > 0 {
      LessIsStrictWeakOrder();
      RootDominatesAll(Less, r);
    }
  }

  /** The test driver's scenario: with `std::greater`, inserting everything
      then extracting `K` times gives the retained elements in ascending
      order, each of them no smaller than any element that was dropped. */
  lemma GreaterHeapSortAscending(K: nat, xs: seq<int>)
    requires K >= 1
    ensures var out := ExtractAll(Greater, InsertAll(Greater, K, xs), K);
      && |out| == (if |xs| < K then |xs| else K)
      && (forall j, k :: 0 <= j < k < |out| ==> out[j] <= out[k])
      && multiset(out) <= multiset(xs)
      && (forall x, y :: x in multiset(xs) - multiset(out) && y in out ==> x <= y)
  {
    GreaterIsStrictWeakOrder();
    var r := InsertAll(Greater, K, xs);
    TopK(Greater, K, xs);
    HeapSortOrder(Greater, r, K);
    ExtractAllPermutes(Greater, r, K);
    Ascending(multiset(xs), r, ExtractAll(Greater, r, K));
  }

  lemma Ascending(seen: multiset<int>, r: seq<int>, out: seq<int>)
    requires multiset(out) == multiset(r) && multiset(r) <= seen
    requires forall x, y :: x in seen - multiset(r) && y in r ==> !Greater(x, y)
    requires forall j, k :: 0 <= j < k < |out| ==> !Greater(out[j], out[k])
    ensures forall j, k :: 0 <= j < k < |out| ==> out[j] <= out[k]
    ensures multiset(out) <= seen
    ensures forall x, y :: x in seen - multiset(out) && y in out ==> x <= y
  {
    forall x, y | x in seen - multiset(out) && y in out
      ensures x <= y
    {
      assert y in multiset(r);
      assert y in r;
    }
  }

  // A capacity-3 heap under `std::less` fed 5, 1, 9, 2, 7 keeps the three
  // smallest: statuses and contents of each call.

  lemma ScenarioFill()
    ensures Insert(Less, 3, [], 5) == ([5], 1)
    ensures Insert(Less, 3, [5], 1) == ([5, 1], 2)
  {
    assert [] + [5] == [5];
    assert [5] + [1] == [5, 1];
    assert SiftUp(Less, [5, 1], 2) == ([5, 1], 2);
  }

  /** 9 lands in the third slot and rises to the root. */
  lemma ScenarioNineRises()
    ensures Insert(Less, 3, [5, 1], 9) == ([9, 1, 5], 1)
  {
    assert [5, 1] + [9] == [5, 1, 9];
    NineSwapsWithRoot();
  }

  lemma NineSwapsWithRoot()
    ensures SiftUp(Less, [5, 1, 9], 3) == ([9, 1, 5], 1)
  {
    assert Swap([5, 1, 9], 3, 1) == [9, 1, 5];
  }

  /** With the heap full, 2 replaces the root 9 and sinks to slot 3. */
  lemma ScenarioTwoEvictsNine()
    ensures Insert(Less, 3, [9, 1, 5], 2) == ([5, 1, 2], 3)
  {
    assert Put([9, 1, 5], 1, 2) == [2, 1, 5];
    TwoSwapsWithRightChild();
  }

  lemma TwoSwapsWithRightChild()
    ensures SiftDown(Less, [2, 1, 5], 1) == ([5, 1, 2], 3)
  {
    assert Next(Less, [2, 1, 5], 1) == 3;
    assert Swap([2, 1, 5], 1, 3) == [5, 1, 2];
  }

  /** 7 does not beat the root 5 and is rejected. */
  lemma ScenarioSevenRejected()
    ensures Insert(Less, 3, [5, 1, 2], 7) == ([5, 1, 2], -1)
  {}

  /** Extraction yields 5, then 2, then 1 (largest first); the statuses are
      the landing slot, then 0 twice, then 1 on the empty heap. */
  lemma ScenarioExtractFive()
    ensures ExtractTop(Less, [5, 1, 2]) == ([2, 1], 1)
  {
    assert Shrink([5, 1, 2]) == [2, 1];
  }

  lemma ScenarioExtractRest()
    ensures ExtractTop(Less, [2, 1]) == ([1], 0)
    ensures ExtractTop(Less, [1]) == ([], 0)
    ensures ExtractTop(Less, []) == ([], 1)
  {
    assert Shrink([2, 1]) == [1];
  }

  /** Capacity 1 with `std::greater` tracks the running maximum. */
  lemma ScenarioRunningMaximum()
    ensures InsertAll(Greater, 1, [4]) == [4]
    ensures InsertAll(Greater, 1, [4, 2]) == [4]
    ensures InsertAll(Greater, 1, [4, 2, 9]) == [9]
    ensures InsertAll(Greater, 1, [4, 2, 9, 1]) == [9]
  {
    assert [4, 2][..1] == [4];
    assert [4, 2, 9][..2] == [4, 2];
    assert [4, 2, 9, 1][..3] == [4, 2, 9];
  }
}

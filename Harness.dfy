/**
  The heap-sort driver of the MEX test: every input is offered to a
  `std::greater` queue of capacity `heapMaxLength` at stride 1, and then
  `extractTop` is called `heapMaxLength` times into the output array.
*/
module Harness {
  import opened Order
  import opened Index
  import opened HeapSpec
  import opened Retention
  import opened PQ

  /** `heapStride` of the driver. */
  const HeapStride: nat := 1

  /** `PQtests`: the first `min(|xs|, heapMaxLength)` entries of `sorted`
      are the `heapMaxLength` largest inputs (all of them when fewer) in
      ascending order. */
  method PQTests(xs: seq<int>, heapMaxLength: nat) returns (sorted: array<int>)
    ensures sorted.Length == heapMaxLength
    ensures var n := if |xs| < heapMaxLength then |xs| else heapMaxLength;
      && sorted[..n] == ExtractAll(Greater, InsertAll(Greater, heapMaxLength, xs), heapMaxLength)
      && (forall j, k :: 0 <= j < k < n ==> sorted[j] <= sorted[k])
      && multiset(sorted[..n]) <= multiset(xs)
      && (forall x, y :: x in multiset(xs) - multiset(sorted[..n]) && y in sorted[..n] ==> x <= y)
  {
    sorted := new int[heapMaxLength];
    GreaterIsStrictWeakOrder();
    var pq := new PQHeap.WithCapacity(Greater, HeapStride, heapMaxLength);
    InsertEach(pq, xs);
    ghost var r := pq.Elems();
    ExtractEach(pq, sorted);
    if heapMaxLength > 0 {
      GreaterHeapSortAscending(heapMaxLength, xs);
      ghost var out := ExtractAll(Greater, r, heapMaxLength);
      PrefixAscending(sorted[..], out);
    }
  }

  /** A buffer that starts with an ascending `out` is ascending on that prefix. */
  lemma PrefixAscending(buf: seq<int>, out: seq<int>)
    requires |out| <= |buf| && buf[..|out|] == out
    requires forall j, k :: 0 <= j < k < |out| ==> out[j] <= out[k]
    ensures forall j, k :: 0 <= j < k < |out| ==> buf[j] <= buf[k]
  {
    forall j, k | 0 <= j < k < |out|
      ensures buf[j] <= buf[k]
    {
      assert buf[j] == out[j] && buf[k] == out[k];
    }
  }

  /** The insertion loop of `PQtests`. */
  method InsertEach(pq: PQHeap<int>, xs: seq<int>)
    requires pq.Valid() && pq.Elems() == []
    modifies pq`N, pq.heap
    ensures pq.Valid() && pq.Elems() == InsertAll(pq.cmp, pq.cap, xs)
  {
    for i := 0 to |xs|
      invariant pq.Valid() && pq.Elems() == InsertAll(pq.cmp, pq.cap, xs[..i])
    {
      assert xs[..i + 1][..i] == xs[..i];
      InsertKeepsHeap(pq.cmp, pq.cap, pq.Elems(), xs[i]);
      var _ := pq.Insert(xs[i]);
    }
    assert xs[..|xs|] == xs;
  }

  /** The extraction loop of `PQtests`: `sorted.Length` calls of
      `extractTop(sorted[i])`, of which the first `|Elems()|` succeed. */
  method ExtractEach(pq: PQHeap<int>, sorted: array<int>)
    requires pq.Valid() && sorted.Length == pq.cap && pq.heap != sorted
    modifies pq`N, pq.heap, sorted
    ensures pq.Valid()
    ensures |old(pq.Elems())| <= sorted.Length
    ensures sorted[..|old(pq.Elems())|] == ExtractAll(pq.cmp, old(pq.Elems()), sorted.Length)
    ensures sorted[|old(pq.Elems())|..] == old(sorted[..])[|old(pq.Elems())|..]
  {
    ghost var out := ExtractAll(pq.cmp, pq.Elems(), sorted.Length);
    ghost var orig := sorted[..];
    ghost var done: seq<int> := [];
    for i := 0 to sorted.Length
      invariant pq.Valid()
      invariant Extracting(pq.cmp, pq.Elems(), sorted[..], i, done, out, orig)
    {
      done := ExtractInto(pq, sorted, i, done, out, orig);
    }
    assert done == out;
  }

  /** After `i` rounds of the extraction loop, `done` is what has been
      extracted into the front of `buf`, and the rest of `out` is what
      the remaining rounds extract from the contents `e`; past `|out|`,
      `buf` still holds what `orig` held before the loop. */
  ghost predicate Extracting(cmp: (int, int) -> bool, e: seq<int>, buf: seq<int>, i: nat, done: seq<int>, out: seq<int>,
                             orig: seq<int>) {
    && i <= |buf| == |orig|
    && |done| <= i && (|e| > 0 ==> |done| == i)
    && done + ExtractAll(cmp, e, |buf| - i) == out
    && buf[..|done|] == done
    && |out| <= |buf| && buf[|out|..] == orig[|out|..]
  }

  /** One round keeps `Extracting`: a non-empty heap moves its top from
      the pending outputs to the finished prefix, an empty one changes
      nothing. */
  lemma ExtractingStep(cmp: (int, int) -> bool, e: seq<int>, e': seq<int>, buf: seq<int>, buf': seq<int>,
                       i: nat, done: seq<int>, out: seq<int>, orig: seq<int>)
    requires Extracting(cmp, e, buf, i, done, out, orig) && i < |buf|
    requires |e| > 0 ==> e' == ExtractTop(cmp, e).0 && buf' == buf[i := At(e, 1)]
    requires |e| == 0 ==> e' == e && buf' == buf
    ensures Extracting(cmp, e', buf', i + 1, if |e| > 0 then done + [At(e, 1)] else done, out, orig)
  {
    if |e| > 0 {
      var tail := ExtractAll(cmp, e', |buf| - i - 1);
      assert (done + [At(e, 1)]) + tail == done + ([At(e, 1)] + tail);
      assert buf'[..i + 1] == buf[..i] + [At(e, 1)];
      assert i < |out|;
      assert buf'[|out|..] == buf[|out|..];
    }
  }

  /** One round of the extraction loop keeps `Extracting`. */
  method ExtractInto(pq: PQHeap<int>, sorted: array<int>, i: nat, ghost done: seq<int>, ghost out: seq<int>,
                     ghost orig: seq<int>)
      returns (ghost done': seq<int>)
    requires pq.Valid() && i < sorted.Length && pq.heap != sorted
    requires Extracting(pq.cmp, pq.Elems(), sorted[..], i, done, out, orig)
    modifies pq`N, pq.heap, sorted
    ensures pq.Valid()
    ensures Extracting(pq.cmp, pq.Elems(), sorted[..], i + 1, done', out, orig)
  {
    ghost var e, buf := pq.Elems(), sorted[..];
    ExtractRound(pq, sorted, i);
    ExtractingStep(pq.cmp, e, pq.Elems(), buf, sorted[..], i, done, out, orig);
    done' := if |e| > 0 then done + [At(e, 1)] else done;
  }

  /** `pq.extractTop(sorted[i])`, which leaves `sorted[i]` as it was once
      the heap is empty. */
  method ExtractRound(pq: PQHeap<int>, sorted: array<int>, i: nat)
    requires pq.Valid() && i < sorted.Length && pq.heap != sorted
    modifies pq`N, pq.heap, sorted
    ensures pq.Valid()
    ensures |old(pq.Elems())| > 0 ==> pq.Elems() == HeapSpec.ExtractTop(pq.cmp, old(pq.Elems())).0
    ensures |old(pq.Elems())| > 0 ==> sorted[..] == old(sorted[..])[i := At(old(pq.Elems()), 1)]
    ensures |old(pq.Elems())| == 0 ==> pq.Elems() == old(pq.Elems()) && sorted[..] == old(sorted[..])
  {
    var status;
    status, sorted[i] := pq.ExtractTop(sorted[i]);
  }

  // ---------------------------------------------------------------------
  // The stride does not affect functionality

  /** Two separate queues that differ only in stride and buffer answer an
      `insert` with the same status and end with the same contents. */
  method InsertEitherStride<T(0,!new)>(p: PQHeap<T>, q: PQHeap<T>, t: T) returns (rp: int, rq: int)
    requires p.Valid() && q.Valid() && p != q && (p.heap == null || p.heap != q.heap)
    requires p.cmp == q.cmp && p.cap == q.cap && p.Elems() == q.Elems()
    modifies p`N, p.heap, q`N, q.heap
    ensures p.Valid() && q.Valid() && rp == rq && p.Elems() == q.Elems()
  {
    rp := p.Insert(t);
    rq := q.Insert(t);
  }

  /** ... and an `extractTop` with the same status and the same element. */
  method ExtractEitherStride<T(0,!new)>(p: PQHeap<T>, q: PQHeap<T>, t0: T) returns (rp: int, tp: T, rq: int, tq: T)
    requires p.Valid() && q.Valid() && p != q && (p.heap == null || p.heap != q.heap)
    requires p.cmp == q.cmp && p.Elems() == q.Elems()
    modifies p`N, p.heap, q`N, q.heap
    ensures p.Valid() && q.Valid() && rp == rq && tp == tq && p.Elems() == q.Elems()
  {
    rp, tp := p.ExtractTop(t0);
    rq, tq := q.ExtractTop(t0);
  }
}

# PQheap in Dafny

This project models `PQheap<T, C, S>` from chappjc/PriorityQueue. The class is a
fixed-capacity binary heap that keeps the "top K" elements of a stream under a
caller-chosen comparator `C`.

- **Storage.** The heap is 1-indexed inside a flat buffer of `S * (cap + 1)`
  elements. Slot `i` lives at offset `i * S`, and offsets `0 .. S-1` are padding.
- **Comparator.** `cmp(a, b)` means that `a` belongs further from the root than `b`.
  `std::greater` keeps the K largest elements, and its top is the smallest of them.
  `std::less`, the default, keeps the K smallest, and its top is the largest of them.

The model has six modules.

- `Order`: the comparator as a strict weak order, plus `std::greater` and `std::less` on `int`.
- `Index`:
  - the index helpers `left_child`, `right_child` and `parent`;
  - logical slots (`At`, `Put`, `Swap`);
  - the strided layout: `Offset(i, S) == i * S`, and `Slots`, which reads the occupied slots out of a buffer;
  - `SameOffSlots`, the frame condition "only slot offsets `1 .. cap` were written".
- `HeapSpec`: the behaviour of every operation on the logical contents `s` (slots `1 .. N`).
  - `SiftUp` and `SiftDown` are the pairwise-swap reference definitions of `heapUp(int)` and `heapDownQuick()`.
  - `Insert`, `ExtractTop` and `DiscardTop` give the new contents and the return code.
  - Separate lemmas prove the heap property and the multiset facts about each.
- `PQ`: the class itself. `PQHeap` holds the buffer `heap: array?<T>` and the fields `N`, `cap`, `cmp` and `S`.
  - `heapUp` and `heapDownQuick` are while-loops that move a held "bubble" or "rock" through a hole, as the source does.
  - Each loop is proved to end exactly where the swap-based reference function ends.
  - Every method is specified by `Elems()`, the occupied slots read at stride `S`, related to a `HeapSpec` function.
  - Every method also proves that it writes nothing except slot offsets.
- `Retention`: properties over many calls:
  - bounded top-K retention for any insert-only stream;
  - heap-sort order and permutation for repeated `extractTop`;
  - comparator orientation;
  - a worked capacity-3 scenario.
- `Harness`: the heap-sort driver `PQtests` of the MEX test, plus two methods showing that the stride does not change results.

Every contract of `PQ` relates `Elems()` to a function that does not mention `S`.
So the return codes and extracted values are the same for every stride `S >= 1`.
`Harness.InsertEitherStride` and `Harness.ExtractEitherStride` state this for two queues side by side.

The code's behaviour on the capacity-3 `std::less` scenario (inserting 5, 1, 9, 2, 7) is:

- 9 is appended while the heap is not full, and rises to the root.
- 2 then evicts 9.
- 7 is rejected.
- Repeated `extractTop` yields 5, 2, 1: under `std::less` the largest retained element comes first.

The `Scenario*` lemmas state these statuses and contents.

## Model

| member | source | states |
|---|---|---|
| Order.Greater | pqheapTestMEX/pqheapTestMEX.cpp:60 | `std::greater<int>`: `cmp(a, b)` holds exactly when `a > b` |
| Order.Less | include/pqheap.hpp:30 | `std::less<int>`, the default comparator: `cmp(a, b)` holds exactly when `a < b` |
| Order.GreaterIsStrictWeakOrder | pqheapTestMEX/pqheapTestMEX.cpp:60 | `std::greater` on `int` is a strict weak order, so every heap proof applies to the driver's queue |
| Order.LessIsStrictWeakOrder | include/pqheap.hpp:30 | the default comparator `std::less` on `int` is a strict weak order |
| Index.LeftChild | include/pqheap.hpp:84-85 | `left_child(i)` is even and its parent is `i` |
| Index.RightChild | include/pqheap.hpp:86-87 | `right_child(i)` is the slot right after `left_child(i)`, and its parent is `i` |
| Index.Parent | include/pqheap.hpp:88-89 | for `i >= 2`, `1 <= parent(i) < i`, which makes the sift-up loop terminate; `i` is the left or the right child of `parent(i)` |
| Index.ParentOfChildren | include/pqheap.hpp:84-89 | for `i >= 1`, `parent(left_child(i)) == i == parent(right_child(i))`, and `right_child(i) == left_child(i) + 1` (the `next + 1` sibling test) |
| Index.Offset | include/pqheap.cpp:139 | the buffer offset of slot `i` at stride `S`, the source's `i*S`, written as repeated addition (`0` for slot 0, then `S` more per slot) |
| Index.OffsetIsProduct | include/pqheap.cpp:139 | the slot offset used throughout the model is the source's `i * S` |
| Index.OffsetInBuffer | include/pqheap.cpp:34 | for `1 <= i <= n`, slot `i` lies past the padding `0 .. S-1` and inside a buffer of `S * (n + 1)` elements |
| Index.OffsetInjective | include/pqheap.hpp:10-11 | distinct slots have distinct offsets for every stride `S >= 1` |
| Index.Slots | include/pqheap.hpp:114-117 | the logical contents of `n` occupied slots: exactly `n` elements, with slot `i` equal to `buf[i * S]` |
| Index.SlotsWrite | include/pqheap.cpp:139 | writing `heap[i*S]` changes logical slot `i` and no other slot |
| Index.SlotsAppend | include/pqheap.cpp:102 | writing `heap[(N+1)*S]` and counting one more slot appends exactly that element to the contents |
| Index.SlotsPrefix | include/pqheap.cpp:163 | decrementing `N` drops exactly the last logical slot |
| Index.SlotOffsetBounds | include/pqheap.cpp:34 | the padding offsets `0 .. S-1` are never slot offsets, and every slot offset lies inside `S * (cap + 1)` |
| Index.NonMultipleNeverSlot | include/pqheap.cpp:34 | an offset that is not a multiple of `S` is never a slot offset, so the frame protects it |
| Index.WriteSlot | include/pqheap.cpp:93 | a write at a slot offset of `1 .. cap` keeps every non-slot offset of the buffer unchanged |
| Index.Swap | include/pqheap.cpp:330-349 | exchanging slots `i` and `j`: each receives the other's element, and every other slot keeps its own |
| Index.SwapMultiset | include/pqheap.cpp:330-349 | exchanging two slots is a permutation |
| Index.MoveHole | include/pqheap.cpp:137-141 | copying the parent into the hole while holding `x` aside is the same as swapping with `x` in the hole |
| HeapSpec.IsHeap | include/pqheap.cpp:137 | the heap property that `heapUp` and `heapDownQuick` maintain: for every occupied slot `i >= 2`, `!cmp(parent, child)` |
| HeapSpec.RootDominates | include/pqheap.cpp:171-174 | in a heap under a strict weak order, the root does not lose to any slot |
| HeapSpec.RootDominatesAll | include/pqheap.cpp:171-174 | the top of a non-empty heap does not lose to any element it holds |
| HeapSpec.SiftUp | include/pqheap.cpp:128-147 | sift-up keeps the length; the moving element settles at a slot `1 <= r <= i` and is found there |
| HeapSpec.SiftUpPermutes | include/pqheap.cpp:128-147 | sift-up only rearranges: the multiset of contents is unchanged |
| HeapSpec.SiftUpRestores | include/pqheap.cpp:128-147 | if the only heap violation is at the moving element's slot, sift-up yields a heap |
| HeapSpec.Next | include/pqheap.cpp:280-283 | the chosen child is a child of `i` within the occupied slots |
| HeapSpec.NextWins | include/pqheap.cpp:280-283 | the chosen child does not lose to any child of `i` |
| HeapSpec.SiftDown | include/pqheap.cpp:269-294 | sift-down keeps the length; the moving element settles at a slot `r >= i` and is found there |
| HeapSpec.SiftDownPermutes | include/pqheap.cpp:269-294 | sift-down only rearranges: the multiset of contents is unchanged |
| HeapSpec.SiftDownRestores | include/pqheap.cpp:269-294 | if the only heap violation is below the moving element, sift-down yields a heap |
| HeapSpec.Insert | include/pqheap.cpp:85-105 | the four outcomes of `insert`: with no capacity, -2 and nothing changes; when not full, one more element and `t` at the returned slot; when full and `t` beats the top, same size and `t` at the returned slot; otherwise -1 and nothing changes |
| HeapSpec.InsertContents | include/pqheap.cpp:90-104 | a non-full insert adds exactly `t` to the multiset; a full insert that beats the top trades the old top for `t` |
| HeapSpec.InsertKeepsHeap | include/pqheap.cpp:85-105 | `insert` keeps the heap property |
| HeapSpec.ReplacedRootSinks | include/pqheap.cpp:90-95 | overwriting the root and sifting down restores the heap property |
| HeapSpec.AppendedLeafRises | include/pqheap.cpp:101-104 | appending a leaf and sifting it up restores the heap property |
| HeapSpec.Shrink | include/pqheap.cpp:155-164 | moving the last slot to the root and dropping it: one element fewer; when more than one was held, the old last element is at the root; the slots from 2 on are unchanged |
| HeapSpec.ShrinkMultiset | include/pqheap.cpp:155-164 | that step loses exactly the old top |
| HeapSpec.ExtractTop | include/pqheap.cpp:151-167 | on an empty heap, status 1 and nothing changes; otherwise one element fewer; status 0 exactly when at most one element remains, else the slot where the moved last element settled |
| HeapSpec.ExtractTopContents | include/pqheap.cpp:151-167 | `extractTop` loses exactly the old top from the multiset |
| HeapSpec.ExtractKeepsHeap | include/pqheap.cpp:151-167 | `extractTop` keeps the heap property |
| HeapSpec.DiscardTop | include/pqheap.cpp:189-198 | `discardTop` leaves exactly the contents that `extractTop` leaves, although it sifts down even when one element is left |
| HeapSpec.HoleUp | include/pqheap.cpp:137-141 | one iteration of the `heapUp` loop advances the hole along the swap-based sift-up |
| HeapSpec.HoleUpStops | include/pqheap.cpp:137-146 | when the loop guard fails, placing the bubble in the hole is where sift-up ends |
| HeapSpec.HoleNext | include/pqheap.cpp:280-283 | the child chosen with the rock held aside is the child that sift-down chooses |
| HeapSpec.HoleDown | include/pqheap.cpp:284-288 | one iteration of the `heapDownQuick` loop advances the hole along the swap-based sift-down |
| HeapSpec.HoleDownStops | include/pqheap.cpp:279-293 | when the loop exits or breaks, placing the rock in the hole is where sift-down ends |
| PQ.SlotsShrink | include/pqheap.cpp:157-164 | copying slot `N` to slot 1 and then decrementing `N` leaves `Shrink` of the old contents |
| PQ.PQHeap.Configured | include/pqheap.cpp:34 | the stride is positive, `cmp` is a strict weak order, and a nonzero capacity comes with a buffer of at least `S * (cap + 1)` elements |
| PQ.PQHeap.Valid | include/pqheap.hpp:114-120 | the object invariant: configured, `N <= cap`, and the occupied slots in heap order |
| PQ.PQHeap.Elems | include/pqheap.hpp:114-117 | the logical contents hold exactly `N` elements |
| PQ.PQHeap.constructor | include/pqheap.cpp:8-11 | the default constructor: no buffer, `N == 0`, `cap == 0`, and the invariant holds |
| PQ.PQHeap.WithCapacity | include/pqheap.cpp:15-19 | `PQheap(maxSize)`: empty, `cap == maxSize`, and a fresh buffer of `S * (maxSize + 1)` elements when `maxSize > 0` |
| PQ.PQHeap.Bound | include/pqheap.cpp:46-50 | `PQheap(a, capacity)`: empty, over the caller's buffer, with `cap == capacity` |
| PQ.PQHeap.Init | include/pqheap.cpp:23-42 | `init` returns 0; `init(0)` changes nothing; `init(k > 0)` empties the queue onto a fresh owned buffer of `S * (k + 1)` elements with `cap == k` |
| PQ.PQHeap.Bind | include/pqheap.cpp:54-62 | `bind` returns 0 and sets `heap == a`, `cap == capacity` and `N == 0`; the buffer's prior contents are not elements |
| PQ.PQHeap.Unbind | include/pqheap.cpp:66-71 | `unbind` returns 0, drops the buffer, sets `cap == 0` and keeps `N`; the invariant then holds exactly when the queue was empty |
| PQ.PQHeap.Size | include/pqheap.hpp:72-73 | `size()` is the number of held elements |
| PQ.PQHeap.Capacity | include/pqheap.hpp:74-75 | a valid queue never holds more than `capacity()` elements |
| PQ.PQHeap.Empty | include/pqheap.hpp:77-78 | `empty()` holds exactly when `size() == 0`, that is, when no element is held |
| PQ.PQHeap.PeakTopStatus | include/pqheap.cpp:178-185 | `peakTop(const T*)` returns 1 exactly when the queue is empty, and 0 otherwise |
| PQ.PQHeap.PeakTop | include/pqheap.cpp:171-174 | `peakTop()` changes nothing; on a non-empty queue it returns slot 1, which no held element beats |
| PQ.PQHeap.Slot | include/pqheap.cpp:91 | reading `heap[i*S]` gives logical slot `i` |
| PQ.PQHeap.SetSlot | include/pqheap.cpp:139 | writing `heap[i*S]` replaces logical slot `i` and touches only slot offsets |
| PQ.PQHeap.HeapUp | include/pqheap.cpp:128-147 | the hole-based loop ends in exactly the state and slot of the swap-based `SiftUp`, writing only slot offsets |
| PQ.PQHeap.HeapDownQuick | include/pqheap.cpp:269-294 | the hole-based loop ends in exactly the state and slot of the swap-based `SiftDown`, writing only slot offsets |
| PQ.PQHeap.Insert | include/pqheap.cpp:85-105 | with no capacity, -2 and nothing changes; otherwise the new contents and status are `HeapSpec.Insert` and the heap invariant is kept; a rejection (-1) leaves the buffer and `N` untouched |
| PQ.PQHeap.Append | include/pqheap.cpp:102 | `heap[(++N)*S] = t` appends `t` to the contents |
| PQ.PQHeap.ExtractTop | include/pqheap.cpp:151-167 | the new contents and status are `HeapSpec.ExtractTop`; `t` receives the old top, or is left as it was on an empty queue, where the buffer is untouched too |
| PQ.PQHeap.DropRoot | include/pqheap.cpp:155-164 | moving the last slot to the root and decrementing `N` leaves `Shrink` of the contents |
| PQ.PQHeap.MoveLastToRoot | include/pqheap.cpp:157-158 | slot 1 receives the element of slot `N` |
| PQ.PQHeap.ExtractTopValue | include/pqheap.cpp:202-207 | `extractTop()` returns the old top of a non-empty queue and leaves the contents that `extractTop(t)` leaves |
| PQ.PQHeap.DiscardTop | include/pqheap.cpp:189-198 | `discardTop` is a no-op on an empty queue; otherwise it leaves the contents that `extractTop` leaves, keeping the invariant |
| Retention.InsertAll | pqheapTestMEX/pqheapTestMEX.cpp:65-76 | after inserting `xs` into an empty queue of capacity `cap`, it holds `min(cap, |xs|)` elements |
| Retention.InsertRetains | include/pqheap.cpp:90-104 | one `insert` keeps the retention invariant: the queue holds only offered elements, all of them while not full, and nothing it dropped beats anything it holds |
| Retention.InsertAllRetains | include/pqheap.cpp:85-105 | every insert-only stream keeps the heap property and the retention invariant |
| Retention.TopK | include/pqheap.hpp:6-9 | with capacity `K >= 1`: a heap of `min(K, count)` offered elements, where no rejected or evicted element `x` has `cmp(x, y)` for a retained `y` |
| Retention.ExtractAll | pqheapTestMEX/pqheapTestMEX.cpp:82-84 | up to `m` extractions output `min(m, |s|)` elements |
| Retention.ExtractAllIsDrain | include/pqheap.cpp:151-167 | repeated extraction is a drain whose step is the contents left by `extractTop` |
| Retention.ExtractTopFrom | include/pqheap.cpp:151-167 | `extractTop` leaves one element fewer, and only elements that were there |
| Retention.PopShrinks | include/pqheap.cpp:151-167 | the same facts, for every contents |
| Retention.PopKeepsHeap | include/pqheap.cpp:151-167 | the extraction step keeps every heap a heap |
| Retention.PopLosesTop | include/pqheap.cpp:151-167 | the extraction step loses exactly the top, for every non-empty contents |
| Retention.DrainFrom | include/pqheap.cpp:155 | every output of a drain whose step invents nothing was in the contents |
| Retention.ExtractAllFrom | include/pqheap.cpp:155 | every extracted element was in the queue |
| Retention.DrainSorted | include/pqheap.cpp:151-167 | draining a heap with a heap-preserving step: no output loses to a later one |
| Retention.HeapSortOrder | include/pqheap.cpp:151-167 | repeated successful `extractTop` yields outputs with `!cmp(out[j], out[k])` for `j < k` |
| Retention.DrainPermutes | include/pqheap.cpp:151-167 | a step that loses exactly the top, drained at least `|s|` times, outputs a permutation of `s` |
| Retention.ExtractAllPermutes | include/pqheap.cpp:151-167 | extracting at least `|s|` times outputs exactly the multiset of the contents |
| Retention.AddBack | include/pqheap.cpp:155 | putting the top in front of a permutation of the rest gives a permutation of the whole |
| Retention.GreaterKeepsLargest | include/pqheap.hpp:6-8 | with `std::greater`, every dropped element is `<=` every kept one, and the top is the smallest kept |
| Retention.GreaterOrientation | include/pqheap.hpp:6-8 | for a `std::greater` heap, not losing under `cmp` means `<=`, and the root is the minimum |
| Retention.LessKeepsSmallest | include/pqheap.hpp:8-9 | with `std::less`, every dropped element is `>=` every kept one, and the top is the largest kept |
| Retention.LessOrientation | include/pqheap.hpp:8-9 | for a `std::less` heap, not losing under `cmp` means `>=`, and the root is the maximum |
| Retention.GreaterHeapSortAscending | pqheapTestMEX/pqheapTestMEX.cpp:60-101 | with `std::greater`, inserting everything and extracting `K` times gives `min(K, |xs|)` outputs: ascending, drawn from the inputs, and none smaller than any dropped input |
| Retention.Ascending | pqheapTestMEX/pqheapTestMEX.cpp:101 | outputs in `std::greater` heap-sort order are ascending, and the dropped ones are no larger than any output |
| Retention.ScenarioFill | include/pqheap.cpp:101-104 | `std::less`, capacity 3: inserting 5 returns slot 1, then inserting 1 returns slot 2 |
| Retention.ScenarioNineRises | include/pqheap.cpp:101-104 | 9 is appended at slot 3 while not full and rises to the root (status 1) |
| Retention.NineSwapsWithRoot | include/pqheap.cpp:137-146 | the sift-up of 9 swaps it once with the root |
| Retention.ScenarioTwoEvictsNine | include/pqheap.cpp:90-94 | full heap: 2 beats the root 9, replaces it, and sinks to slot 3 |
| Retention.TwoSwapsWithRightChild | include/pqheap.cpp:279-291 | the sift-down of 2 chooses the right child 5 and settles in slot 3 |
| Retention.ScenarioSevenRejected | include/pqheap.cpp:96-98 | 7 does not beat the root 5: status -1, contents unchanged |
| Retention.ScenarioExtractFive | include/pqheap.cpp:151-167 | extracting from [5, 1, 2] returns the landing slot 1 and leaves [2, 1] |
| Retention.ScenarioExtractRest | include/pqheap.cpp:151-167 | the next two extractions return status 0, and one more on the empty heap returns 1 |
| Retention.ScenarioRunningMaximum | include/pqheap.cpp:90-104 | capacity 1 with `std::greater` tracks the running maximum of 4, 2, 9, 1 |
| Harness.HeapStride | pqheapTestMEX/pqheapTestMEX.cpp:59 | the driver's stride `heapStride`, 1 |
| Harness.PQTests | pqheapTestMEX/pqheapTestMEX.cpp:51-101 | the driver's `sorted` has `heapMaxLength` entries; the first `min(|xs|, heapMaxLength)` are the extraction outputs, ascending (the `is_sorted` check), drawn from the inputs, and no smaller than any dropped input |
| Harness.InsertEach | pqheapTestMEX/pqheapTestMEX.cpp:65-76 | the insertion loop leaves the queue holding `InsertAll` of the inputs |
| Harness.ExtractEach | pqheapTestMEX/pqheapTestMEX.cpp:82-84 | the extraction loop writes `ExtractAll` of the contents into the front of `sorted`, and leaves every entry past them as it found it |
| Harness.ExtractInto | pqheapTestMEX/pqheapTestMEX.cpp:82-84 | one round of the extraction loop keeps the loop invariant `Extracting`: the finished prefix, the pending extractions, and the untouched entries past them |
| Harness.ExtractRound | pqheapTestMEX/pqheapTestMEX.cpp:83 | `pq.extractTop(sorted[i])` writes the top into `sorted[i]`, or leaves it as it was on an empty queue |
| Harness.ExtractingStep | pqheapTestMEX/pqheapTestMEX.cpp:82-84 | a round moves the next output from the pending extractions to the finished prefix, writing no entry past the outputs |
| Harness.PrefixAscending | pqheapTestMEX/pqheapTestMEX.cpp:101 | a buffer that starts with an ascending output is ascending on that prefix |
| Harness.InsertEitherStride | include/pqheap.hpp:10-11 | two separate queues with the same comparator, capacity and contents, whatever their strides, return the same `insert` status and keep equal contents; this covers capacity 0 |
| Harness.ExtractEitherStride | include/pqheap.hpp:10-11 | two separate queues with the same comparator and contents, whatever their strides and capacities, return the same `extractTop` status and element and keep equal contents |

## Left out

- Allocation failure (include/pqheap.cpp:36-39): `new[]` throws rather than returning null, so the branch is dead. `Init` always gets its buffer.
- `delete[]` in `init` and in the destructor (include/pqheap.cpp:31-32, 75-81): memory reclamation is not modelled. Ownership is the ghost flag `owned`, and the double free of a bound buffer that was never unbound is not modelled.
- Bind constructor (include/pqheap.cpp:46-50): in the source it calls `bind` with `heap` uninitialised. `PQ.PQHeap.Bound` sets `heap` to null first.
- `bind`'s assertions (include/pqheap.cpp:56-57) become preconditions.
  - `Bind` also requires the lent buffer to hold `S * (capacity + 1)` elements. The source cannot check this and silently relies on it.
- PQ.PQHeap.HeapUp: requires `N >= 2`, from the debug assertion at include/pqheap.cpp:130.
- PQ.PQHeap.HeapDownQuick: requires only `N >= 1`, weaker than the debug assertion `N > 1` at include/pqheap.cpp:272.
  - `discardTop` at `N == 2` and a full `insert` with `cap == 1` call it with one element.
  - In those calls the loop does not run, which is the release-build behaviour.
- Integer widths: `N`, `cap` and the indices are `int` and `unsigned int` in the source; here they are unbounded naturals.
  - The model does not capture overflow of `S * (cap + 1)` or of `2 * i` in buffers near the 32-bit limit.
- `_DEBUG` branches: the slot-clearing write in `extractTop` (include/pqheap.cpp:160-162) and the debug printing in the driver. The release branch `--N` is modelled.
- PQ.PQHeap.PeakTopStatus: models only the status of `peakTop(const T*)`. The pointer it assigns is a by-value copy that never reaches the caller (include/pqheap.cpp:182).
- PQ.PQHeap.PeakTop: the value returned on an empty queue (a default-constructed `T`) is left unspecified.
- PQ.PQHeap.ExtractTopValue: the value returned on an empty queue (an uninitialised `T`, include/pqheap.cpp:204-206) is left unspecified.
- `heapDown()`, `heapDown(int)`, `heapify` and the commented-out `heapDown` (include/pqheap.cpp:209-265, 297-328) are not part of this model. They are private and unreachable from every public operation.
- `swap` (include/pqheap.cpp:330-349) appears only as the logical `Index.Swap` used by the reference sift functions.
- `data()` (include/pqheap.hpp:80), the CUDA macros and `#pragma message`: raw-pointer exposure and toolchain noise.
- Driver (pqheapTestMEX/pqheapTestMEX.cpp):
  - The MEX argument marshalling, the per-type dispatch, the `float` and `double` instantiations, the `chrono` timing and the `mexPrintf` output are not modelled. Floating point (NaN) breaks the strict weak order.
  - The inputs are a parameter `xs`.
  - The `is_sorted` check is replaced by the proved ascending postcondition of `Harness.PQTests`.
- Harness.PQTests: states order only for the first `min(|xs|, heapMaxLength)` entries of `sorted`.
  - When there are fewer inputs than `heapMaxLength`, the later entries are never written (`Harness.ExtractEach` states that they keep their values). They are uninitialised in the source, so nothing is stated about them.
  - There, the source's `is_sorted` over the whole array reads indeterminate values.
- Harness.InsertEitherStride, Harness.ExtractEitherStride: the two queues must be distinct objects that do not share a buffer. Aliased queues are not covered.

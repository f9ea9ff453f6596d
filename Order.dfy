/**
  The comparator of a PQHeap. `cmp(a, b)` holds when `a` belongs further
  from the root than `b`; the heap never lets a parent lose to its child.
  Like the `Compare` of the C++ standard library, it must be a strict weak
  order.
*/
module Order {

  /** Irreflexive, transitive, and with a transitive complement
      (incomparability is transitive): a strict weak order. */
  ghost predicate StrictWeakOrder<T(!new)>(cmp: (T, T) -> bool) {
    && (forall a :: !cmp(a, a))
    && (forall a, b, c :: cmp(a, b) && cmp(b, c) ==> cmp(a, c))
    && (forall a, b, c :: !cmp(a, b) && !cmp(b, c) ==> !cmp(a, c))
  }

  /** `std::greater<T>`: the heap keeps the largest elements, top is the smallest of them. */
  function Greater(a: int, b: int): bool { a > b }

  /** `std::less<T>` (the default comparator): the heap keeps the smallest
      elements, top is the largest of them. */
  function Less(a: int, b: int): bool { a < b }

  lemma GreaterIsStrictWeakOrder()
    ensures StrictWeakOrder(Greater)
  {}

  lemma LessIsStrictWeakOrder()
    ensures StrictWeakOrder(Less)
  {}

  /** A strict weak order is asymmetric. */
  lemma Asymmetric<T(!new)>(cmp: (T, T) -> bool, a: T, b: T)
    requires StrictWeakOrder(cmp)
    ensures cmp(a, b) ==> !cmp(b, a)
  {}
}

/** keySort (src/crypto.ts): the aggregate key does not depend on the order in
    which the participants' keys were supplied. */
module KeyOrder {
  import opened PrimeGroup
  import opened MuSig2
  import Sorting

  // Compressed keys compare as their hexadecimal strings do: strictly and totally.

  function KeySort<P>(less: (P, P) -> bool, keys: seq<P>): seq<P> { Sorting.Sort(less, keys) }

  /** The supplied keys in ascending order, and the only list that is. */
  lemma KeySortIs<P(!new)>(less: (P, P) -> bool, keys: seq<P>, sorted: seq<P>)
    requires Sorting.StrictTotal(less)
    ensures sorted == KeySort(less, keys) <==>
              && multiset(sorted) == multiset(keys)
              && forall i, j | 0 <= i < j < |sorted| :: sorted[i] == sorted[j] || less(sorted[i], sorted[j])
  {
    Sorting.TotalOrders(less, keys);
    Sorting.TotalOrders(less, sorted);
    Sorting.SortKeeps(less, keys);
    Sorting.SortAscends(less, keys);
    if multiset(sorted) == multiset(keys) && Sorting.Ascending(less, sorted) {
      Sorting.TotalOrders(less, KeySort(less, keys));
      Sorting.AscendingIsUnique(less, sorted, KeySort(less, keys));
    }
  }

  /** Two supplied lists sort alike exactly when they hold the same keys. */
  lemma SortsAlike<P(!new)>(less: (P, P) -> bool, a: seq<P>, b: seq<P>)
    requires Sorting.StrictTotal(less)
    ensures KeySort(less, a) == KeySort(less, b) <==> multiset(a) == multiset(b)
  {
    Sorting.TotalOrders(less, a);
    Sorting.SortsAlike(less, a, b);
  }

  /** Any order of the same keys reaches the same aggregate, coefficients and errors. */
  lemma AggregateIgnoresOrder<P(!new), M>(E: Group<P>, H: Hashes<P, M>, less: (P, P) -> bool, a: seq<P>, b: seq<P>)
    requires E.n > 2 && Sorting.StrictTotal(less) && multiset(a) == multiset(b)
    ensures KeyAgg(E, H, KeySort(less, a)) == KeyAgg(E, H, KeySort(less, b))
    ensures var r := KeyAgg(E, H, KeySort(less, a));
            r.Ok? ==> multiset(r.value.pubkeys) == multiset(a)
  {
    SortsAlike(less, a, b);
    Sorting.SortKeeps(less, a);
  }
}

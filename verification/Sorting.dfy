/** Stable insertion sort by a strict order, and its uniqueness. */
module Sorting {

  function Insert<T>(before: (T, T) -> bool, x: T, sorted: seq<T>): seq<T> {
    if sorted != [] && before(sorted[0], x) then [sorted[0]] + Insert(before, x, sorted[1..]) else [x] + sorted
  }

  function Sort<T>(before: (T, T) -> bool, xs: seq<T>): seq<T> {
    if xs == [] then [] else Insert(before, xs[0], Sort(before, xs[1..]))
  }

  /** A strict total order among the elements of `xs`. */
  predicate Orders<T(==)>(before: (T, T) -> bool, xs: seq<T>) {
    && (forall a | a in xs :: !before(a, a))
    && (forall a, b, c | a in xs && b in xs && c in xs :: before(a, b) && before(b, c) ==> before(a, c))
    && (forall a, b | a in xs && b in xs :: a == b || before(a, b) || before(b, a))
  }

  /** A strict total order on a whole type, and so among any elements. */
  ghost predicate StrictTotal<T(!new)>(before: (T, T) -> bool) {
    && (forall a :: !before(a, a))
    && (forall a, b, c :: before(a, b) && before(b, c) ==> before(a, c))
    && (forall a, b :: a == b || before(a, b) || before(b, a))
  }

  lemma TotalOrders<T(!new)>(before: (T, T) -> bool, xs: seq<T>)
    requires StrictTotal(before)
    ensures Orders(before, xs)
  {
  }

  predicate Ascending<T>(before: (T, T) -> bool, xs: seq<T>) {
    forall i, j | 0 <= i < j < |xs| :: !before(xs[j], xs[i])
  }

  lemma {:induction false} InsertKeeps<T>(before: (T, T) -> bool, x: T, sorted: seq<T>)
    ensures multiset(Insert(before, x, sorted)) == multiset{x} + multiset(sorted)
  {
    if sorted != [] && before(sorted[0], x) {
      InsertKeeps(before, x, sorted[1..]);
      assert sorted == [sorted[0]] + sorted[1..];
    }
  }

  /** Sorting permutes, whatever the comparator. */
  lemma {:induction false} SortKeeps<T>(before: (T, T) -> bool, xs: seq<T>)
    ensures multiset(Sort(before, xs)) == multiset(xs)
  {
    if xs != [] {
      SortKeeps(before, xs[1..]);
      InsertKeeps(before, xs[0], Sort(before, xs[1..]));
      assert xs == [xs[0]] + xs[1..];
    }
  }

  lemma SameMembers<T>(xs: seq<T>, ys: seq<T>)
    requires multiset(xs) == multiset(ys)
    ensures forall x :: x in xs <==> x in ys
    ensures |xs| == |ys|
  {
    forall x ensures x in xs <==> x in ys {
      assert x in xs <==> x in multiset(xs);
      assert x in ys <==> x in multiset(ys);
    }
    assert |multiset(xs)| == |xs| && |multiset(ys)| == |ys|;
  }

  lemma OrdersPart<T>(before: (T, T) -> bool, xs: seq<T>, ys: seq<T>)
    requires Orders(before, xs) && multiset(ys) <= multiset(xs)
    ensures Orders(before, ys)
  {
    forall y | y in ys ensures y in xs {
      assert y in multiset(ys);
    }
  }

  lemma HeadAndTail<T>(xs: seq<T>)
    requires xs != []
    ensures multiset(xs) == multiset{xs[0]} + multiset(xs[1..])
  {
    assert xs == [xs[0]] + xs[1..];
  }

  lemma LeastInFront<T>(before: (T, T) -> bool, first: T, rest: seq<T>)
    requires Ascending(before, rest) && forall x | x in rest :: !before(x, first)
    ensures Ascending(before, [first] + rest)
  {
  }

  lemma HeadIsLeast<T>(before: (T, T) -> bool, xs: seq<T>, x: T)
    requires Orders(before, xs) && Ascending(before, xs) && x in xs
    ensures !before(x, xs[0])
  {
    var i :| 0 <= i < |xs| && xs[i] == x;
  }

  lemma {:induction false} InsertAscends<T>(before: (T, T) -> bool, x: T, sorted: seq<T>)
    requires Orders(before, [x] + sorted) && Ascending(before, sorted)
    ensures Ascending(before, Insert(before, x, sorted))
  {
    if sorted != [] && before(sorted[0], x) {
      var rest := sorted[1..];
      assert Insert(before, x, sorted) == [sorted[0]] + Insert(before, x, rest);
      assert Ascending(before, rest);
      hide Orders, Ascending, Insert;
      HeadAndTail(sorted);
      assert multiset([x] + rest) == multiset{x} + multiset(rest);
      OrdersPart(before, [x] + sorted, [x] + rest);
      InsertAscends(before, x, rest);
      InsertKeeps(before, x, rest);
      forall y | y in Insert(before, x, rest) ensures !before(y, sorted[0]) {
        assert y in multiset(Insert(before, x, rest));
        BehindHead(before, x, sorted, y);
      }
      LeastInFront(before, sorted[0], Insert(before, x, rest));
    } else {
      forall y | y in sorted ensures !before(y, x) {
        HeadStaysBehind(before, x, sorted, y);
      }
      LeastInFront(before, x, sorted);
    }
  }

  lemma BehindHead<T>(before: (T, T) -> bool, x: T, sorted: seq<T>, y: T)
    requires Orders(before, [x] + sorted) && Ascending(before, sorted) && sorted != [] && before(sorted[0], x)
    requires y == x || y in sorted[1..]
    ensures !before(y, sorted[0])
  {
    assert sorted[0] in [x] + sorted && x in [x] + sorted;
    if y != x {
      var i :| 1 <= i < |sorted| && sorted[i] == y;
    }
  }

  lemma HeadStaysBehind<T>(before: (T, T) -> bool, x: T, sorted: seq<T>, y: T)
    requires Orders(before, [x] + sorted) && Ascending(before, sorted) && sorted != [] && !before(sorted[0], x) && y in sorted
    ensures !before(y, x)
  {
    var all := [x] + sorted;
    assert x in all && sorted[0] in all && y in all;
    assert multiset(all) == multiset{x} + multiset(sorted);
    OrdersPart(before, all, sorted);
    HeadIsLeast(before, sorted, y);
  }

  lemma {:induction false} SortAscends<T>(before: (T, T) -> bool, xs: seq<T>)
    requires Orders(before, xs)
    ensures Ascending(before, Sort(before, xs))
  {
    hide Orders, Ascending;
    if xs == [] {
      assert Ascending(before, Sort(before, xs)) by { EmptyAscends(before); }
    } else {
      var rest := xs[1..];
      HeadAndTail(xs);
      OrdersPart(before, xs, rest);
      SortAscends(before, rest);
      SortKeeps(before, rest);
      assert multiset([xs[0]] + Sort(before, rest)) == multiset{xs[0]} + multiset(rest);
      OrdersPart(before, xs, [xs[0]] + Sort(before, rest));
      InsertAscends(before, xs[0], Sort(before, rest));
    }
  }

  lemma EmptyAscends<T>(before: (T, T) -> bool)
    ensures Ascending(before, [])
  {
  }

  lemma SameHead<T>(before: (T, T) -> bool, xs: seq<T>, ys: seq<T>)
    requires Orders(before, xs) && Ascending(before, xs) && Ascending(before, ys)
    requires xs != [] && ys != [] && multiset(xs) == multiset(ys)
    ensures xs[0] == ys[0]
  {
    hide Ascending;
    SameMembers(xs, ys);
    OrdersPart(before, xs, ys);
    HeadIsLeast(before, xs, ys[0]);
    HeadIsLeast(before, ys, xs[0]);
    assert xs[0] in xs && ys[0] in xs;
  }

  lemma TailsAgree<T>(xs: seq<T>, ys: seq<T>)
    requires xs != [] && ys != [] && xs[0] == ys[0] && multiset(xs) == multiset(ys)
    ensures multiset(xs[1..]) == multiset(ys[1..])
  {
    assert xs == [xs[0]] + xs[1..] && ys == [ys[0]] + ys[1..];
    assert multiset(xs[1..]) == multiset(xs) - multiset{xs[0]};
    assert multiset(ys[1..]) == multiset(ys) - multiset{ys[0]};
  }

  lemma TailAscends<T>(before: (T, T) -> bool, xs: seq<T>)
    requires xs != [] && Orders(before, xs) && Ascending(before, xs)
    ensures Orders(before, xs[1..]) && Ascending(before, xs[1..])
  {
    HeadAndTail(xs);
    OrdersPart(before, xs, xs[1..]);
  }

  /** An ascending list is determined by its contents. */
  lemma {:induction false} AscendingIsUnique<T>(before: (T, T) -> bool, xs: seq<T>, ys: seq<T>)
    requires Orders(before, xs) && Ascending(before, xs) && Ascending(before, ys) && multiset(xs) == multiset(ys)
    ensures xs == ys
  {
    hide Orders, Ascending;
    SameMembers(xs, ys);
    if xs != [] {
      SameHead(before, xs, ys);
      TailsAgree(xs, ys);
      TailAscends(before, xs);
      assert Orders(before, ys) by { OrdersPart(before, xs, ys); }
      TailAscends(before, ys);
      AscendingIsUnique(before, xs[1..], ys[1..]);
      assert xs == [xs[0]] + xs[1..] && ys == [ys[0]] + ys[1..];
    }
  }

  /** Two lists sort alike exactly when they hold the same elements equally often. */
  lemma SortsAlike<T>(before: (T, T) -> bool, xs: seq<T>, ys: seq<T>)
    requires Orders(before, xs)
    ensures Sort(before, xs) == Sort(before, ys) <==> multiset(xs) == multiset(ys)
  {
    hide Orders, Ascending;
    SortKeeps(before, xs);
    SortKeeps(before, ys);
    if multiset(xs) == multiset(ys) {
      OrdersPart(before, xs, ys);
      OrdersPart(before, xs, Sort(before, xs));
      SortAscends(before, xs);
      SortAscends(before, ys);
      AscendingIsUnique(before, Sort(before, xs), Sort(before, ys));
    }
  }
}

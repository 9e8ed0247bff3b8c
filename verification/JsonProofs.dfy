/** canonicalPolicy prints two values alike exactly when they are equal up to
    the order of object entries. */
module JsonProofs {
  import opened Json
  import Sorting

  // ----- strings read back -----

  lemma Hex4Injective(c: Unit, d: Unit)
    requires Hex4(c) == Hex4(d)
    ensures c == d
  {
    assert Hex4(c)[0] == Hex4(d)[0] && Hex4(c)[1] == Hex4(d)[1] && Hex4(c)[2] == Hex4(d)[2] && Hex4(c)[3] == Hex4(d)[3];
    HexSplit(c);
    HexSplit(d);
  }

  lemma HexSplit(c: Unit)
    ensures c == c / 4096 * 4096 + c / 256 % 16 * 256 + c / 16 % 16 * 16 + c % 16
  {
    var a := c / 16;
    var b := a / 16;
    DivideAgain(c, 16);
    DivideAgain(c, 256);
    assert c == 16 * a + c % 16 && a == 16 * b + a % 16 && b == 16 * (b / 16) + b % 16;
  }

  lemma DivideAgain(c: int, unit: int)
    requires unit == 16 || unit == 256
    ensures c / unit / 16 == c / (unit * 16)
  {
  }

  /** The length of an escape is decided by its first two units. */
  function EscapeLength(t: Text): nat
    requires |t| >= 1
  {
    if t[0] == BACKSLASH then (if |t| >= 2 && t[1] == 117 then 6 else 2)
    else if High(t[0]) then 2
    else 1
  }

  lemma HeadShape(t: Text, rest: Text)
    requires t != []
    ensures EscapeHead(t) != [] && EscapeHead(t)[0] != QUOTE
    ensures |EscapeHead(t)| == EscapeLength(EscapeHead(t) + rest)
  {
  }

  lemma HeadInjective(s: Text, t: Text)
    requires s != [] && t != [] && EscapeHead(s) == EscapeHead(t)
    ensures HeadLength(s) == HeadLength(t) && s[..HeadLength(s)] == t[..HeadLength(t)]
  {
    var a, b := EscapeHead(s), EscapeHead(t);
    assert a[0] == b[0];
    assert PairAhead(s) == PairAhead(t);
    if PairAhead(s) {
      assert a[1] == b[1];
    } else {
      UnitInjective(s[0], t[0]);
    }
  }

  lemma UnitInjective(c: Unit, d: Unit)
    requires EscapeUnit(c) == EscapeUnit(d)
    ensures c == d
  {
    var a, b := EscapeUnit(c), EscapeUnit(d);
    assert a[0] == b[0];
    if |a| == 2 {
      assert a[1] == b[1];
    } else if |a| == 6 {
      assert a[2..] == Hex4(c) && b[2..] == Hex4(d);
      Hex4Injective(c, d);
    }
  }

  lemma SplitAt(a: Text, x: Text, b: Text, y: Text)
    requires a + x == b + y && |a| == |b|
    ensures a == b && x == y
  {
    assert (a + x)[..|a|] == a && (b + y)[..|b|] == b;
    assert (a + x)[|a|..] == x && (b + y)[|b|..] == y;
  }

  lemma EscapeStart(t: Text, x: Text)
    ensures (Escape(t) + [QUOTE] + x)[0] == QUOTE <==> t == []
  {
    if t != [] {
      HeadShape(t, []);
      assert (Escape(t) + [QUOTE] + x)[0] == EscapeHead(t)[0];
    }
  }

  lemma EscapeSplit(t: Text, x: Text)
    requires t != []
    ensures Escape(t) + [QUOTE] + x == EscapeHead(t) + (Escape(t[HeadLength(t)..]) + [QUOTE] + x)
  {
  }

  /** A quoted string ends where it ends, whatever follows. */
  lemma {:induction false} EscapeUnique(s: Text, x: Text, t: Text, y: Text)
    requires Escape(s) + [QUOTE] + x == Escape(t) + [QUOTE] + y
    ensures s == t && x == y
    decreases |s| + |t|
  {
    hide EscapeHead, HeadLength, EscapeLength;
    EscapeStart(s, x);
    EscapeStart(t, y);
    if s == [] {
      assert Escape(s) + [QUOTE] + x == [QUOTE] + x && Escape(t) + [QUOTE] + y == [QUOTE] + y;
      SplitAt([QUOTE], x, [QUOTE], y);
    } else {
      var s', t' := s[HeadLength(s)..], t[HeadLength(t)..];
      var x', y' := Escape(s') + [QUOTE] + x, Escape(t') + [QUOTE] + y;
      EscapeSplit(s, x);
      EscapeSplit(t, y);
      HeadShape(s, x');
      HeadShape(t, y');
      SplitAt(EscapeHead(s), x', EscapeHead(t), y');
      HeadInjective(s, t);
      EscapeUnique(s', x, t', y);
      assert s == s[..HeadLength(s)] + s' && t == t[..HeadLength(t)] + t';
    }
  }

  lemma QuoteUnique(s: Text, x: Text, t: Text, y: Text)
    requires Quote(s) + x == Quote(t) + y
    ensures s == t && x == y
  {
    hide Escape;
    assert Quote(s) + x == [QUOTE] + (Escape(s) + [QUOTE] + x);
    assert Quote(t) + y == [QUOTE] + (Escape(t) + [QUOTE] + y);
    SplitAt([QUOTE], Escape(s) + [QUOTE] + x, [QUOTE], Escape(t) + [QUOTE] + y);
    EscapeUnique(s, x, t, y);
  }

  // ----- values read back -----

  predicate Closer(c: Unit) { c == COMMA || c == CLOSE_BRACKET || c == CLOSE_BRACE }

  predicate Delimited(x: Text) { x == [] || Closer(x[0]) }

  /** The constructor, read off the first unit of the print. */
  function Kind(c: Unit): nat {
    if c == 110 then 0 else if c == 116 then 1 else if c == 102 then 2
    else if c == QUOTE then 3 else if c == OPEN_BRACKET then 4 else if c == OPEN_BRACE then 5
    else if Digit(c) || c == MINUS then 6 else 7
  }

  function KindOf(v: Json): nat {
    match v
    case Null => 0
    case Bool(b) => if b then 1 else 2
    case Str(_) => 3
    case Arr(_) => 4
    case Obj(_) => 5
    case Num(_) => 6
  }

  lemma PrintStart(v: Json, x: Text)
    requires WellFormed(v)
    ensures Print(v) != [] && Kind((Print(v) + x)[0]) == KindOf(v) && !Closer((Print(v) + x)[0])
  {
    assert (Print(v) + x)[0] == Print(v)[0];
  }

  lemma NumberUnique(s: Text, x: Text, t: Text, y: Text)
    requires NumberLiteral(s) && NumberLiteral(t) && Delimited(x) && Delimited(y) && s + x == t + y
    ensures s == t && x == y
  {
    NumberNotShorter(s, x, t, y);
    NumberNotShorter(t, y, s, x);
    SplitAt(s, x, t, y);
  }

  lemma NumberNotShorter(s: Text, x: Text, t: Text, y: Text)
    requires NumberLiteral(t) && Delimited(x) && s + x == t + y
    ensures |s| >= |t|
  {
    if x != [] {
      assert (s + x)[|s|] == x[0];
      forall i | 0 <= i < |t| ensures !Closer((t + y)[i]) {
        assert t[i] in t && (t + y)[i] == t[i];
      }
    }
  }

  /** Concatenation under a name, so that the inductions below can hide it. */
  function Then(a: Text, b: Text): Text { a + b }

  function ItemsThen(a: seq<Json>, x: Text): Text { PrintItems(a) + [CLOSE_BRACKET] + x }

  function EntriesThen(a: seq<Entry>, x: Text): Text { PrintEntries(a) + [CLOSE_BRACE] + x }

  function ItemsTail(rest: seq<Json>, x: Text): Text {
    if rest == [] then [CLOSE_BRACKET] + x else [COMMA] + ItemsThen(rest, x)
  }

  function EntriesTail(rest: seq<Entry>, x: Text): Text {
    if rest == [] then [CLOSE_BRACE] + x else [COMMA] + EntriesThen(rest, x)
  }

  lemma Regroup(a: Text, b: Text, c: Text, d: Text)
    ensures a + b + c + d == a + (b + (c + d))
  {
  }

  lemma ItemsSplit(a: seq<Json>, x: Text)
    ensures a == [] ==> ItemsThen(a, x) == [CLOSE_BRACKET] + x
    ensures a != [] ==> ItemsThen(a, x) == Then(Print(a[0]), ItemsTail(a[1..], x))
    ensures Delimited(ItemsTail(a, x))
  {
    hide Print;
    if a != [] {
      var p, rest := Print(a[0]), a[1..];
      if rest == [] {
        assert p + [CLOSE_BRACKET] + x == p + ([CLOSE_BRACKET] + x);
      } else {
        Regroup(p, [COMMA], PrintItems(rest), [CLOSE_BRACKET] + x);
        assert PrintItems(a) + [CLOSE_BRACKET] + x == PrintItems(a) + ([CLOSE_BRACKET] + x);
        assert PrintItems(rest) + ([CLOSE_BRACKET] + x) == ItemsThen(rest, x);
      }
    }
  }

  lemma EntriesSplit(a: seq<Entry>, x: Text)
    ensures a == [] ==> EntriesThen(a, x) == [CLOSE_BRACE] + x
    ensures a != [] ==> EntriesThen(a, x) == Quote(a[0].name) + ([COLON] + Then(Print(a[0].value), EntriesTail(a[1..], x)))
    ensures Delimited(EntriesTail(a, x))
  {
    hide Quote, Print;
    if a != [] {
      var e, rest := PrintEntry(a[0]), a[1..];
      if rest == [] {
        assert e + [CLOSE_BRACE] + x == e + ([CLOSE_BRACE] + x);
      } else {
        Regroup(e, [COMMA], PrintEntries(rest), [CLOSE_BRACE] + x);
        assert PrintEntries(a) + [CLOSE_BRACE] + x == PrintEntries(a) + ([CLOSE_BRACE] + x);
        assert PrintEntries(rest) + ([CLOSE_BRACE] + x) == EntriesThen(rest, x);
      }
      Regroup(Quote(a[0].name), [COLON], Print(a[0].value), EntriesTail(rest, x));
    }
  }

  lemma ItemsTailUnique(a: seq<Json>, x: Text, b: seq<Json>, y: Text)
    requires ItemsTail(a, x) == ItemsTail(b, y)
    ensures a == [] <==> b == []
    ensures if a == [] then x == y else ItemsThen(a, x) == ItemsThen(b, y)
  {
    hide ItemsThen;
    var s, t := ItemsTail(a, x), ItemsTail(b, y);
    assert s[0] == t[0] && s[1..] == t[1..];
    assert s[1..] == if a == [] then x else ItemsThen(a, x);
    assert t[1..] == if b == [] then y else ItemsThen(b, y);
  }

  lemma EntriesTailUnique(a: seq<Entry>, x: Text, b: seq<Entry>, y: Text)
    requires EntriesTail(a, x) == EntriesTail(b, y)
    ensures a == [] <==> b == []
    ensures if a == [] then x == y else EntriesThen(a, x) == EntriesThen(b, y)
  {
    hide EntriesThen;
    var s, t := EntriesTail(a, x), EntriesTail(b, y);
    assert s[0] == t[0] && s[1..] == t[1..];
    assert s[1..] == if a == [] then x else EntriesThen(a, x);
    assert t[1..] == if b == [] then y else EntriesThen(b, y);
  }

  lemma PrintKind(v: Json, x: Text, w: Json, y: Text)
    requires WellFormed(v) && WellFormed(w) && Then(Print(v), x) == Then(Print(w), y)
    ensures KindOf(v) == KindOf(w)
  {
    PrintStart(v, x);
    PrintStart(w, y);
  }

  lemma ScalarUnique(v: Json, x: Text, w: Json, y: Text)
    requires WellFormed(v) && WellFormed(w) && Delimited(x) && Delimited(y)
    requires !v.Arr? && !v.Obj? && Then(Print(v), x) == Then(Print(w), y)
    ensures v == w && x == y
  {
    PrintKind(v, x, w, y);
    hide Quote, NumberLiteral;
    match v
    case Num(literal) => NumberUnique(literal, x, w.literal, y);
    case Str(text) => QuoteUnique(text, x, w.text, y);
    case _ => SplitAt(Print(v), x, Print(w), y);
  }

  lemma ArrayOpen(items: seq<Json>, x: Text, items': seq<Json>, y: Text)
    requires Then(Print(Arr(items)), x) == Then(Print(Arr(items')), y)
    ensures ItemsThen(items, x) == ItemsThen(items', y)
  {
    hide PrintItems;
    var s, t := Then(Print(Arr(items)), x), Then(Print(Arr(items')), y);
    assert s[1..] == ItemsThen(items, x) && t[1..] == ItemsThen(items', y);
  }

  lemma ObjectOpen(entries: seq<Entry>, x: Text, entries': seq<Entry>, y: Text)
    requires Then(Print(Obj(entries)), x) == Then(Print(Obj(entries')), y)
    ensures EntriesThen(entries, x) == EntriesThen(entries', y)
  {
    hide PrintEntries;
    var s, t := Then(Print(Obj(entries)), x), Then(Print(Obj(entries')), y);
    assert s[1..] == EntriesThen(entries, x) && t[1..] == EntriesThen(entries', y);
  }

  /** A printed value ends where it ends, as long as a delimiter or the end follows. */
  lemma {:induction false} PrintUnique(v: Json, x: Text, w: Json, y: Text)
    requires WellFormed(v) && WellFormed(w) && Delimited(x) && Delimited(y)
    requires Then(Print(v), x) == Then(Print(w), y)
    ensures v == w && x == y
    decreases v, 1
  {
    hide Print, Then, Delimited, ItemsThen, EntriesThen;
    PrintKind(v, x, w, y);
    match v
    case Arr(items) =>
      ArrayOpen(items, x, w.items, y);
      ItemsUnique(items, x, w.items, y);
    case Obj(entries) =>
      ObjectOpen(entries, x, w.entries, y);
      EntriesUnique(entries, x, w.entries, y);
    case _ => ScalarUnique(v, x, w, y);
  }

  ghost predicate ItemsWellFormed(a: seq<Json>) { forall i | 0 <= i < |a| :: WellFormed(a[i]) }

  ghost predicate EntriesWellFormed(a: seq<Entry>) { forall i | 0 <= i < |a| :: WellFormed(a[i].value) }

  lemma ItemsRest(a: seq<Json>)
    requires ItemsWellFormed(a) && a != []
    ensures WellFormed(a[0]) && ItemsWellFormed(a[1..])
  {
    hide WellFormed;
  }

  lemma EntriesRest(a: seq<Entry>)
    requires EntriesWellFormed(a) && a != []
    ensures WellFormed(a[0].value) && EntriesWellFormed(a[1..])
  {
    hide WellFormed;
  }

  lemma Rejoin<T>(a: seq<T>, b: seq<T>)
    requires a != [] && b != [] && a[0] == b[0] && a[1..] == b[1..]
    ensures a == b
  {
    assert a == [a[0]] + a[1..] && b == [b[0]] + b[1..];
  }

  lemma ItemsStart(a: seq<Json>, x: Text)
    requires ItemsWellFormed(a)
    ensures ItemsThen(a, x)[0] == CLOSE_BRACKET <==> a == []
  {
    ItemsSplit(a, x);
    if a != [] {
      PrintStart(a[0], ItemsTail(a[1..], x));
    }
  }

  lemma EntriesStart(a: seq<Entry>, x: Text)
    ensures EntriesThen(a, x)[0] == CLOSE_BRACE <==> a == []
  {
    EntriesSplit(a, x);
  }

  lemma SameEmpty(c: Unit, x: Text, y: Text)
    requires [c] + x == [c] + y
    ensures x == y
  {
    SplitAt([c], x, [c], y);
  }

  lemma {:induction false} ItemsUnique(a: seq<Json>, x: Text, b: seq<Json>, y: Text)
    requires ItemsWellFormed(a) && ItemsWellFormed(b)
    requires ItemsThen(a, x) == ItemsThen(b, y)
    ensures a == b && x == y
    decreases a, 0
  {
    ItemsStart(a, x);
    ItemsStart(b, y);
    ItemsSplit(a, x);
    ItemsSplit(b, y);
    hide Print, Then, ItemsThen, ItemsTail, Delimited, ItemsWellFormed, WellFormed;
    if a == [] {
      SameEmpty(CLOSE_BRACKET, x, y);
    } else {
      ItemsRest(a);
      ItemsRest(b);
      ItemsSplit(a[1..], x);
      ItemsSplit(b[1..], y);
      PrintUnique(a[0], ItemsTail(a[1..], x), b[0], ItemsTail(b[1..], y));
      ItemsTailUnique(a[1..], x, b[1..], y);
      if a[1..] != [] {
        ItemsUnique(a[1..], x, b[1..], y);
      }
      Rejoin(a, b);
    }
  }

  lemma NameUnique(s: Text, x: Text, t: Text, y: Text)
    requires Quote(s) + ([COLON] + x) == Quote(t) + ([COLON] + y)
    ensures s == t && x == y
  {
    QuoteUnique(s, [COLON] + x, t, [COLON] + y);
    SplitAt([COLON], x, [COLON], y);
  }

  lemma {:induction false} EntriesUnique(a: seq<Entry>, x: Text, b: seq<Entry>, y: Text)
    requires EntriesWellFormed(a) && EntriesWellFormed(b)
    requires EntriesThen(a, x) == EntriesThen(b, y)
    ensures a == b && x == y
    decreases a, 0
  {
    EntriesStart(a, x);
    EntriesStart(b, y);
    EntriesSplit(a, x);
    EntriesSplit(b, y);
    hide Print, Then, EntriesThen, EntriesTail, Delimited, EntriesWellFormed, WellFormed, Quote;
    if a == [] {
      SameEmpty(CLOSE_BRACE, x, y);
    } else {
      EntriesRest(a);
      EntriesRest(b);
      EntriesSplit(a[1..], x);
      EntriesSplit(b[1..], y);
      NameUnique(a[0].name, Then(Print(a[0].value), EntriesTail(a[1..], x)),
                 b[0].name, Then(Print(b[0].value), EntriesTail(b[1..], y)));
      PrintUnique(a[0].value, EntriesTail(a[1..], x), b[0].value, EntriesTail(b[1..], y));
      EntriesTailUnique(a[1..], x, b[1..], y);
      if a[1..] != [] {
        EntriesUnique(a[1..], x, b[1..], y);
      }
      Rejoin(a, b);
    }
  }

  lemma PrintInjective(v: Json, w: Json)
    requires WellFormed(v) && WellFormed(w)
    ensures Print(v) == Print(w) <==> v == w
  {
    if Print(v) == Print(w) {
      assert Then(Print(v), []) == Then(Print(w), []);
      PrintUnique(v, [], w, []);
    }
  }

  // ----- sorting -----

  lemma SortKeeps(less: Less, entries: seq<Entry>)
    ensures multiset(SortByName(less, entries)) == multiset(entries)
  {
    Sorting.SortKeeps(ByName(less), entries);
  }

  /** Distinct names that the comparator orders make it order their entries. */
  lemma NamesOrderEntries(less: Less, entries: seq<Entry>)
    requires DistinctNames(entries) && Sorting.Orders(less, Names(entries))
    ensures Sorting.Orders(ByName(less), entries)
  {
    var names := Names(entries);
    forall e | e in entries ensures e.name in names {
      var i :| 0 <= i < |entries| && entries[i] == e;
      assert names[i] == e.name;
    }
    forall d, e | d in entries && e in entries && d.name == e.name ensures d == e {
    }
  }

  // ----- the canonical form decides equality up to key order -----

  lemma {:induction false} CanonWellFormed(less: Less, v: Json)
    requires WellFormed(v)
    ensures WellFormed(Canon(less, v))
  {
    match v
    case Arr(items) =>
      forall i | 0 <= i < |items| { CanonWellFormed(less, items[i]); }
    case Obj(entries) =>
      forall i | 0 <= i < |entries| { CanonWellFormed(less, entries[i].value); }
      SortWellFormed(less, CanonEntries(less, entries));
    case _ =>
  }

  lemma SortWellFormed(less: Less, entries: seq<Entry>)
    requires WellFormed(Obj(entries))
    ensures WellFormed(Obj(SortByName(less, entries)))
  {
    var sorted := SortByName(less, entries);
    SortKeeps(less, entries);
    forall i | 0 <= i < |sorted| ensures WellFormed(sorted[i].value) {
      assert sorted[i] in multiset(sorted);
      assert sorted[i] in entries;
    }
    PermutedNames(entries, sorted);
  }

  lemma PermutedNames(s: seq<Entry>, t: seq<Entry>)
    requires DistinctNames(s) && multiset(s) == multiset(t)
    ensures DistinctNames(t)
  {
    forall i, j | 0 <= i < j < |t| ensures t[i].name != t[j].name {
      assert t[i] in multiset(t) && t[j] in multiset(t);
      assert t[i] in s && t[j] in s;
      if t[i] == t[j] {
        Repeated(t, i, j);
        Once(s, t[i]);
      }
    }
  }

  lemma Repeated(t: seq<Entry>, i: nat, j: nat)
    requires i < j < |t| && t[i] == t[j]
    ensures multiset(t)[t[i]] >= 2
  {
    assert t == t[..j] + t[j..];
    assert t[i] in t[..j] && t[j..][0] == t[i];
  }

  lemma {:induction false} Once(s: seq<Entry>, e: Entry)
    requires DistinctNames(s)
    ensures multiset(s)[e] <= 1
  {
    if s != [] {
      assert s == [s[0]] + s[1..];
      Once(s[1..], e);
      assert s[0] == e ==> e !in s[1..];
    }
  }

  lemma Included(a: seq<Entry>, b: seq<Entry>)
    requires DistinctNames(a) && |a| == |b| && forall e | e in a :: e in b
    ensures multiset(a) == multiset(b)
  {
    forall e: Entry ensures multiset(a)[e] <= multiset(b)[e] {
      Once(a, e);
      assert e in multiset(a) ==> e in a;
    }
    assert multiset(a) <= multiset(b);
    assert |multiset(b) - multiset(a)| == 0;
    assert multiset(b) == multiset(a) + (multiset(b) - multiset(a));
  }

  lemma {:induction false} SameHasOneCanon(less: Less, v: Json, w: Json)
    requires Ordered(less, v) && WellFormed(v) && WellFormed(w) && Same(v, w)
    ensures Canon(less, v) == Canon(less, w)
  {
    match v
    case Arr(items) =>
      forall i | 0 <= i < |items| ensures Canon(less, items[i]) == Canon(less, w.items[i]) {
        SameHasOneCanon(less, items[i], w.items[i]);
      }
      assert CanonItems(less, items) == CanonItems(less, w.items);
    case Obj(entries) =>
      forall i | 0 <= i < |entries| ensures HasPartner(less, entries[i], w.entries) {
        var j :| 0 <= j < |w.entries| && entries[i].name == w.entries[j].name && Same(entries[i].value, w.entries[j].value);
        SameHasOneCanon(less, entries[i].value, w.entries[j].value);
      }
      SameEntriesSortAlike(less, entries, w.entries);
    case _ =>
  }

  /** An entry of that name and canonical value. */
  ghost predicate HasPartner(less: Less, e: Entry, entries: seq<Entry>) {
    exists j | 0 <= j < |entries| :: e.name == entries[j].name && Canon(less, e.value) == Canon(less, entries[j].value)
  }

  lemma SameEntriesSortAlike(less: Less, a: seq<Entry>, b: seq<Entry>)
    requires Sorting.Orders(less, Names(a)) && DistinctNames(a) && DistinctNames(b) && |a| == |b|
    requires forall i | 0 <= i < |a| :: HasPartner(less, a[i], b)
    ensures SortByName(less, CanonEntries(less, a)) == SortByName(less, CanonEntries(less, b))
  {
    hide Canon, SortByName;
    var s, t := CanonEntries(less, a), CanonEntries(less, b);
    forall e | e in s ensures e in t {
      var i :| 0 <= i < |s| && s[i] == e;
      assert HasPartner(less, a[i], b);
      var j :| 0 <= j < |b| && a[i].name == b[j].name && Canon(less, a[i].value) == Canon(less, b[j].value);
      assert t[j] == e;
    }
    assert Names(s) == Names(a);
    SameElementsSortAlike(less, s, t);
  }

  lemma SameElementsSortAlike(less: Less, a: seq<Entry>, b: seq<Entry>)
    requires Sorting.Orders(less, Names(a)) && DistinctNames(a) && DistinctNames(b) && |a| == |b| && forall e | e in a :: e in b
    ensures SortByName(less, a) == SortByName(less, b)
  {
    Included(a, b);
    NamesOrderEntries(less, a);
    Sorting.SortsAlike(ByName(less), a, b);
  }

  lemma CanonEntryFound(less: Less, a: seq<Entry>, b: seq<Entry>, i: nat) returns (j: nat)
    requires SortByName(less, CanonEntries(less, a)) == SortByName(less, CanonEntries(less, b)) && i < |a|
    ensures |a| == |b| && j < |b| && a[i].name == b[j].name && Canon(less, a[i].value) == Canon(less, b[j].value)
  {
    hide Canon, SortByName;
    var s, t := CanonEntries(less, a), CanonEntries(less, b);
    SortKeeps(less, s);
    SortKeeps(less, t);
    assert |multiset(s)| == |s| && |multiset(t)| == |t|;
    assert s[i] in multiset(s);
    j :| 0 <= j < |t| && t[j] == s[i];
  }

  lemma SortKeepsLength(less: Less, a: seq<Entry>, b: seq<Entry>)
    requires SortByName(less, CanonEntries(less, a)) == SortByName(less, CanonEntries(less, b))
    ensures |a| == |b|
  {
    var s, t := CanonEntries(less, a), CanonEntries(less, b);
    SortKeeps(less, s);
    SortKeeps(less, t);
    assert |multiset(s)| == |s| && |multiset(t)| == |t|;
  }

  /** This half needs nothing of the comparator. */
  lemma {:induction false} OneCanonIsSame(less: Less, v: Json, w: Json)
    requires Canon(less, v) == Canon(less, w)
    ensures Same(v, w)
  {
    match v
    case Arr(items) =>
      ItemsSame(less, items, w.items);
    case Obj(entries) =>
      SortKeepsLength(less, entries, w.entries);
      EntriesSame(less, entries, w.entries);
    case _ =>
  }

  lemma {:induction false} ItemsSame(less: Less, a: seq<Json>, b: seq<Json>)
    requires CanonItems(less, a) == CanonItems(less, b)
    ensures Same(Arr(a), Arr(b))
    decreases a
  {
    hide Canon;
    var s, t := CanonItems(less, a), CanonItems(less, b);
    assert |a| == |b|;
    forall i | 0 <= i < |a| ensures Same(a[i], b[i]) {
      assert s[i] == t[i];
      OneCanonIsSame(less, a[i], b[i]);
    }
  }

  lemma {:induction false} EntriesSame(less: Less, a: seq<Entry>, b: seq<Entry>)
    requires SortByName(less, CanonEntries(less, a)) == SortByName(less, CanonEntries(less, b)) && |a| == |b|
    ensures Same(Obj(a), Obj(b))
    decreases a
  {
    hide Canon, SortByName;
    forall i | 0 <= i < |a|
      ensures exists j | 0 <= j < |b| :: a[i].name == b[j].name && Same(a[i].value, b[j].value)
    {
      var j := CanonEntryFound(less, a, b, i);
      OneCanonIsSame(less, a[i].value, b[j].value);
    }
  }

  /** Equal prints mean equal data, whatever comparator sorts the keys. */
  lemma EqualPrintsAreSame(less: Less, v: Json, w: Json)
    requires WellFormed(v) && WellFormed(w) && CanonicalPolicy(less, v) == CanonicalPolicy(less, w)
    ensures Same(v, w)
  {
    CanonWellFormed(less, v);
    CanonWellFormed(less, w);
    PrintInjective(Canon(less, v), Canon(less, w));
    OneCanonIsSame(less, v, w);
  }

  /** canonicalPolicy is injective up to object key order: where the comparator
      orders the names of every object, two values print alike exactly when they
      are equal after reordering object entries. */
  lemma CanonicalPolicyDecides(less: Less, v: Json, w: Json)
    requires Ordered(less, v) && WellFormed(v) && WellFormed(w)
    ensures CanonicalPolicy(less, v) == CanonicalPolicy(less, w) <==> Same(v, w)
  {
    if Same(v, w) {
      SameHasOneCanon(less, v, w);
    } else if CanonicalPolicy(less, v) == CanonicalPolicy(less, w) {
      EqualPrintsAreSame(less, v, w);
    }
  }

  lemma {:induction false} TotalOrdersAll(less: Less, v: Json)
    requires Sorting.StrictTotal(less)
    ensures Ordered(less, v)
  {
    match v
    case Arr(items) =>
      forall i | 0 <= i < |items| { TotalOrdersAll(less, items[i]); }
    case Obj(entries) =>
      forall i | 0 <= i < |entries| { TotalOrdersAll(less, entries[i].value); }
    case _ =>
  }

  function Pair(a: Text, b: Text): Json { Obj([Entry(a, Null), Entry(b, Null)]) }

  /** Two names the comparator ties keep the order they came in. */
  lemma TiedNamesDiverge(less: Less, a: Text, b: Text)
    requires a != b && !less(a, b) && !less(b, a)
    ensures WellFormed(Pair(a, b)) && WellFormed(Pair(b, a)) && Same(Pair(a, b), Pair(b, a))
    ensures CanonicalPolicy(less, Pair(a, b)) != CanonicalPolicy(less, Pair(b, a))
  {
    PairStays(less, a, b);
    PairStays(less, b, a);
    var v, w := Pair(a, b), Pair(b, a);
    assert v.entries[0].name == w.entries[1].name && v.entries[1].name == w.entries[0].name;
    assert v.entries[0] != w.entries[0];
    PrintInjective(v, w);
  }

  lemma PairStays(less: Less, a: Text, b: Text)
    requires !less(b, a)
    ensures Canon(less, Pair(a, b)) == Pair(a, b)
  {
    var entries := [Entry(a, Null), Entry(b, Null)];
    assert CanonEntries(less, entries) == entries;
    var before := ByName(less);
    assert entries[1..] == [entries[1]] && [entries[1]][1..] == [];
    assert Sorting.Sort(before, [entries[1]]) == Sorting.Insert(before, entries[1], []) == [entries[1]];
    assert Sorting.Sort(before, entries) == Sorting.Insert(before, entries[0], [entries[1]]) == entries;
  }

  ghost predicate Decides(less: Less) {
    forall v, w :: WellFormed(v) && WellFormed(w) ==> (CanonicalPolicy(less, v) == CanonicalPolicy(less, w) <==> Same(v, w))
  }

  /** A comparator that orders at all decides every pair of values exactly when
      it ties no two names. */
  lemma DecidesExactlyWithoutTies(less: Less)
    requires forall a :: !less(a, a)
    requires forall a, b, c :: less(a, b) && less(b, c) ==> less(a, c)
    ensures Decides(less) <==> Sorting.StrictTotal(less)
  {
    hide Same, CanonicalPolicy, Ordered;
    if Sorting.StrictTotal(less) {
      forall v, w | WellFormed(v) && WellFormed(w) ensures CanonicalPolicy(less, v) == CanonicalPolicy(less, w) <==> Same(v, w) {
        TotalOrdersAll(less, v);
        CanonicalPolicyDecides(less, v, w);
      }
    }
    if Decides(less) {
      forall a, b ensures a == b || less(a, b) || less(b, a) {
        if a != b && !less(a, b) && !less(b, a) {
          TiedNamesDiverge(less, a, b);
          assert false;
        }
      }
    }
  }
}

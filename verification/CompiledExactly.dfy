/** The checker of compiled policies accepts nothing but what the compiler may
    produce (src/sigbash-policy.ts): up to the order of object entries, an
    accepted tree is the request with one embedded id on every inline set, or
    on none. */
module CompiledExactly {
  import opened Wrappers
  import Sorting
  import opened Json
  import opened JsonProofs
  import opened CompiledPolicy
  import opened PolicyCompiler

  // ----- equality up to entry order is an equivalence -----

  /** Code units compared from the left. */
  predicate TextLess(a: Text, b: Text) {
    b != [] && (a == [] || a[0] < b[0] || (a[0] == b[0] && TextLess(a[1..], b[1..])))
  }

  lemma {:induction false} Irreflexive(a: Text)
    ensures !TextLess(a, a)
  {
    if a != [] {
      Irreflexive(a[1..]);
    }
  }

  lemma {:induction false} Transitive(a: Text, b: Text, c: Text)
    requires TextLess(a, b) && TextLess(b, c)
    ensures TextLess(a, c)
  {
    if a != [] && a[0] == b[0] == c[0] {
      Transitive(a[1..], b[1..], c[1..]);
    }
  }

  lemma {:induction false} Total(a: Text, b: Text)
    ensures a == b || TextLess(a, b) || TextLess(b, a)
  {
    if a != [] && b != [] && a[0] == b[0] {
      Total(a[1..], b[1..]);
      assert a == [a[0]] + a[1..] && b == [b[0]] + b[1..];
    }
  }

  lemma TextOrdered()
    ensures Sorting.StrictTotal(TextLess)
  {
    forall a ensures !TextLess(a, a) { Irreflexive(a); }
    forall a, b, c | TextLess(a, b) && TextLess(b, c) ensures TextLess(a, c) { Transitive(a, b, c); }
    forall a, b ensures a == b || TextLess(a, b) || TextLess(b, a) { Total(a, b); }
  }

  lemma SameIsOneCanon(v: Json, w: Json)
    requires WellFormed(v) && WellFormed(w)
    ensures Same(v, w) <==> Canon(TextLess, v) == Canon(TextLess, w)
  {
    hide TextLess, Same, Canon;
    TextOrdered();
    TotalOrdersAll(TextLess, v);
    if Same(v, w) {
      SameHasOneCanon(TextLess, v, w);
    }
    if Canon(TextLess, v) == Canon(TextLess, w) {
      OneCanonIsSame(TextLess, v, w);
    }
  }

  lemma SameBack(v: Json, w: Json)
    requires WellFormed(v) && WellFormed(w) && Same(v, w)
    ensures Same(w, v)
  {
    hide Same, WellFormed;
    SameIsOneCanon(v, w);
    SameIsOneCanon(w, v);
  }

  lemma SameOn(u: Json, v: Json, w: Json)
    requires WellFormed(u) && WellFormed(v) && WellFormed(w) && Same(u, v) && Same(v, w)
    ensures Same(u, w)
  {
    hide Same, WellFormed;
    SameIsOneCanon(u, v);
    SameIsOneCanon(v, w);
    SameIsOneCanon(u, w);
  }

  ghost predicate HasTwin(e: Entry, b: seq<Entry>) {
    exists j | 0 <= j < |b| :: e.name == b[j].name && Same(e.value, b[j].value)
  }

  /** Every entry of `a` has an equal one in `b`. */
  ghost predicate Partnered(a: seq<Entry>, b: seq<Entry>) {
    forall i | 0 <= i < |a| :: HasTwin(a[i], b)
  }

  lemma SameObjects(a: seq<Entry>, b: seq<Entry>)
    ensures Same(Obj(a), Obj(b)) <==> |a| == |b| && Partnered(a, b)
  {
    if Same(Obj(a), Obj(b)) {
      forall i | 0 <= i < |a| ensures HasTwin(a[i], b) {
        var j :| 0 <= j < |b| && a[i].name == b[j].name && Same(a[i].value, b[j].value);
      }
    }
    if |a| == |b| && Partnered(a, b) {
      TwinsSame(a, b);
    }
  }

  lemma TwinsSame(a: seq<Entry>, b: seq<Entry>)
    requires |a| == |b| && Partnered(a, b)
    ensures Same(Obj(a), Obj(b))
  {
    if a != [] {
      assert HasTwin(a[0], b) && b[0] in b;
    }
  }

  lemma Partner(a: seq<Entry>, b: seq<Entry>, i: nat) returns (j: nat)
    requires Partnered(a, b) && i < |a|
    ensures j < |b| && a[i].name == b[j].name && Same(a[i].value, b[j].value)
  {
    hide Same;
    assert HasTwin(a[i], b);
    j :| 0 <= j < |b| && a[i].name == b[j].name && Same(a[i].value, b[j].value);
  }

  /** Two entry lists without repeated names, equal up to order, both ways. */
  ghost predicate Permuted(a: seq<Entry>, b: seq<Entry>) {
    && WellFormed(Obj(a)) && WellFormed(Obj(b)) && |a| == |b| && Partnered(a, b) && Partnered(b, a)
  }

  lemma PermutedMeans(a: seq<Entry>, b: seq<Entry>)
    requires WellFormed(Obj(a)) && WellFormed(Obj(b))
    ensures Same(Obj(a), Obj(b)) <==> Permuted(a, b)
  {
    SameObjects(a, b);
    SameObjects(b, a);
    hide Partnered, WellFormed;
    if Same(Obj(a), Obj(b)) {
      SameBack(Obj(a), Obj(b));
    }
  }

  lemma DistinctOf(a: seq<Entry>)
    requires WellFormed(Obj(a))
    ensures DistinctNames(a) && forall i | 0 <= i < |a| :: WellFormed(a[i].value)
  {
  }

  lemma PermutedLookup(a: seq<Entry>, b: seq<Entry>, name: Text)
    requires Permuted(a, b)
    ensures Lookup(a, name).Some? ==> Lookup(b, name).Some? && Same(Lookup(a, name).value, Lookup(b, name).value)
    ensures Lookup(b, name).Some? ==> Lookup(a, name).Some?
  {
    hide Lookup, Same, WellFormed, Partnered;
    assert DistinctNames(a) && DistinctNames(b) by { DistinctOf(a); DistinctOf(b); }
    LookupName(a, name);
    LookupName(b, name);
    if Lookup(a, name).Some? {
      var i :| 0 <= i < |a| && a[i].name == name;
      var j := Partner(a, b, i);
      LookupAt(a, i);
      LookupAt(b, j);
    }
    if Lookup(b, name).Some? {
      var i :| 0 <= i < |b| && b[i].name == name;
      var j := Partner(b, a, i);
    }
  }

  // ----- taking the list id out, and putting it back -----

  lemma {:induction false} WithoutLength(a: seq<Entry>, name: Text)
    requires DistinctNames(a)
    ensures |Without(a, name)| == |a| - if Lookup(a, name).Some? then 1 else 0
  {
    if a != [] {
      if a[0].name == name {
        WithoutNothing(a[1..], name);
      } else {
        WithoutLength(a[1..], name);
      }
    }
  }

  lemma WithoutWellFormed(a: seq<Entry>, name: Text)
    requires WellFormed(Obj(a))
    ensures WellFormed(Obj(Without(a, name)))
  {
    WithoutKeepsDistinct(a, name);
    WithoutIsPart(a, name);
    var rest := Without(a, name);
    forall i | 0 <= i < |rest| ensures WellFormed(rest[i].value) {
      assert rest[i] in a;
    }
  }

  lemma TwinIn(e: Entry, twin: Entry, b: seq<Entry>)
    requires twin in b && e.name == twin.name && Same(e.value, twin.value)
    ensures HasTwin(e, b)
  {
    hide Same;
    var j :| 0 <= j < |b| && b[j] == twin;
  }

  lemma StripPartnered(a: seq<Entry>, b: seq<Entry>)
    requires Partnered(a, b)
    ensures Partnered(Without(a, ListId()), Without(b, ListId()))
  {
    var rest := Without(a, ListId());
    WithoutIsPart(a, ListId());
    forall i | 0 <= i < |rest| ensures HasTwin(rest[i], Without(b, ListId())) {
      hide HasTwin, Same;
      assert rest[i] in rest && rest[i] in a;
      var k :| 0 <= k < |a| && a[k] == rest[i];
      var j := Partner(a, b, k);
      KeptHas(b, b[j]);
      TwinIn(rest[i], b[j], Without(b, ListId()));
    }
  }

  lemma StripPermuted(a: seq<Entry>, b: seq<Entry>)
    requires Permuted(a, b)
    ensures Permuted(Without(a, ListId()), Without(b, ListId()))
  {
    PermutedLookup(a, b, ListId());
    DistinctOf(a);
    DistinctOf(b);
    hide Partnered, WellFormed, Same, Lookup;
    WithoutLength(a, ListId());
    WithoutLength(b, ListId());
    WithoutWellFormed(a, ListId());
    WithoutWellFormed(b, ListId());
    StripPartnered(a, b);
    StripPartnered(b, a);
  }

  lemma RestoreTwin(a: seq<Entry>, b: seq<Entry>, i: nat)
    requires DistinctNames(a) && DistinctNames(b) && Lookup(a, ListId()) == Lookup(b, ListId())
    requires Partnered(Without(a, ListId()), Without(b, ListId())) && i < |a|
    ensures HasTwin(a[i], b)
  {
    hide HasTwin, Same, Lookup, Without, Partnered, DistinctNames, ListId;
    if a[i].name == ListId() {
      LookupAt(a, i);
      LookupName(b, ListId());
      var j :| 0 <= j < |b| && b[j].name == ListId();
      LookupAt(b, j);
      SameSelf(a[i].value);
      TwinIn(a[i], b[j], b);
    } else {
      KeptHas(a, a[i]);
      var k :| 0 <= k < |Without(a, ListId())| && Without(a, ListId())[k] == a[i];
      var j := Partner(Without(a, ListId()), Without(b, ListId()), k);
      WithoutIsPart(b, ListId());
      assert Without(b, ListId())[j] in Without(b, ListId());
      TwinIn(a[i], Without(b, ListId())[j], b);
    }
  }

  lemma RestorePartnered(a: seq<Entry>, b: seq<Entry>)
    requires DistinctNames(a) && DistinctNames(b) && Lookup(a, ListId()) == Lookup(b, ListId())
    requires Partnered(Without(a, ListId()), Without(b, ListId()))
    ensures Partnered(a, b)
  {
    hide HasTwin, Lookup, Without, DistinctNames;
    forall i | 0 <= i < |a| ensures HasTwin(a[i], b) {
      RestoreTwin(a, b, i);
    }
  }

  lemma RestorePermuted(a: seq<Entry>, b: seq<Entry>)
    requires WellFormed(Obj(a)) && WellFormed(Obj(b)) && Lookup(a, ListId()) == Lookup(b, ListId())
    requires Permuted(Without(a, ListId()), Without(b, ListId()))
    ensures Permuted(a, b)
  {
    DistinctOf(a);
    DistinctOf(b);
    hide Partnered, WellFormed, Lookup;
    WithoutLength(a, ListId());
    WithoutLength(b, ListId());
    RestorePartnered(a, b);
    RestorePartnered(b, a);
  }

  // ----- inline sets under reordering -----

  lemma SameText(v: Json, t: Text)
    ensures Same(v, Str(t)) <==> v == Str(t)
    ensures Same(Str(t), v) <==> v == Str(t)
  {
  }

  lemma SameStrings(v: Json, w: Json)
    requires Same(v, w) && v.Arr? && AllStrings(v.items)
    ensures w == v
  {
    assert forall i | 0 <= i < |v.items| :: Same(v.items[i], w.items[i]);
  }

  lemma PermutedText(a: seq<Entry>, b: seq<Entry>, name: Text, t: Text)
    requires Permuted(a, b) && Lookup(a, name) == Some(Str(t))
    ensures Lookup(b, name) == Some(Str(t))
  {
    PermutedLookup(a, b, name);
    SameText(Lookup(b, name).value, t);
  }

  lemma PermutedPlain(a: seq<Entry>, b: seq<Entry>)
    requires Permuted(a, b) && Plain(a)
    ensures Plain(b) && AddressesOf(b) == AddressesOf(a)
  {
    hide Permuted, Same;
    PermutedLookup(a, b, Ascii("use_descriptor"));
    PermutedLookup(a, b, Ascii("addresses"));
    SameStrings(Lookup(a, Ascii("addresses")).value, Lookup(b, Ascii("addresses")).value);
  }

  lemma FieldsWellFormed(a: seq<Entry>, name: Text)
    requires WellFormed(Obj(a)) && Lookup(a, name).Some?
    ensures WellFormed(Lookup(a, name).value)
  {
    DistinctOf(a);
    LookupName(a, name);
    var i :| 0 <= i < |a| && a[i].name == name;
    LookupAt(a, i);
  }

  /** An object equal up to order to an inline set's is an inline set's. */
  lemma PermutedParams(a: seq<Entry>, b: seq<Entry>)
    requires Permuted(a, b) && InlineParams(a).Some?
    ensures InlineParams(b).Some? && Permuted(InlineParams(a).value, InlineParams(b).value)
    ensures AddressesOf(InlineParams(b).value) == AddressesOf(InlineParams(a).value)
  {
    ParamsMean(a);
    ParamsMean(b);
    var name := Ascii("conditionParams");
    PermutedText(a, b, Ascii("type"), Ascii("condition"));
    PermutedText(a, b, Ascii("conditionType"), Ascii("OUTPUT_DEST_IS_IN_SETS"));
    PermutedLookup(a, b, name);
    FieldsWellFormed(a, name);
    FieldsWellFormed(b, name);
    hide Permuted, InlineParams, Ascii, Plain, WellFormed;
    var pa, pb := Lookup(a, name).value, Lookup(b, name).value;
    SameIsObject(pa, pb);
    PermutedMeans(pa.entries, pb.entries);
    PermutedPlain(pa.entries, pb.entries);
  }

  lemma SameIsObject(v: Json, w: Json)
    requires Same(v, w)
    ensures v.Obj? <==> w.Obj?
  {
  }

  // ----- reordered visits -----

  ghost predicate Reordered(a: Visit, b: Visit) {
    && a.stripped == b.stripped && a.erasing && b.erasing
    && WellFormed(a.value) && WellFormed(b.value) && Same(a.value, b.value)
  }

  lemma KeptPermuted(a: Visit, b: Visit)
    requires Reordered(a, b) && a.value.Obj?
    ensures b.value.Obj? && Permuted(Kept(a), Kept(b))
  {
    hide WellFormed, Permuted;
    SameIsObject(a.value, b.value);
    PermutedMeans(a.value.entries, b.value.entries);
    if a.stripped {
      StripPermuted(a.value.entries, b.value.entries);
    }
  }

  lemma ReorderedBack(a: Visit, b: Visit)
    requires Reordered(a, b)
    ensures Reordered(b, a)
  {
    hide WellFormed, Same;
    SameBack(a.value, b.value);
  }

  lemma SameFlag(a: Visit, b: Visit)
    requires Reordered(a, b) && a.value.Obj? && b.value.Obj?
    ensures InlineParams(Kept(a)).Some? <==> InlineParams(Kept(b)).Some?
  {
    hide InlineParams, Kept, WellFormed, Same, Permuted;
    if InlineParams(Kept(a)).Some? {
      KeptPermuted(a, b);
      PermutedParams(Kept(a), Kept(b));
    }
    if InlineParams(Kept(b)).Some? {
      ReorderedBack(a, b);
      KeptPermuted(b, a);
      PermutedParams(Kept(b), Kept(a));
    }
  }

  lemma ChildIs(a: Visit, k: nat)
    requires a.value.Obj? && WellFormed(a.value) && k < |Kept(a)|
    ensures Child(a, k) == Visit(Kept(a)[k].value, a.erasing && InlineParams(Kept(a)).Some? && Kept(a)[k].name == ConditionParams(), a.erasing)
    ensures WellFormed(Kept(a)[k].value)
  {
    WithoutIsPart(a.value.entries, ListId());
    assert Kept(a)[k] in a.value.entries;
    hide InlineParams, ConditionParams;
  }

  /** The k-th child has a reordered counterpart. */
  lemma ChildTwin(a: Visit, b: Visit, k: nat) returns (j: nat)
    requires Reordered(a, b) && a.value.Obj? && k < |Kept(a)|
    ensures b.value.Obj? && j < |Kept(b)| && Kept(a)[k].name == Kept(b)[j].name && Reordered(Child(a, k), Child(b, j))
  {
    KeptPermuted(a, b);
    SameFlag(a, b);
    ChildIs(a, k);
    hide InlineParams, Kept, Same, HasTwin, Partnered, Child, WellFormed, ConditionParams;
    j := Partner(Kept(a), Kept(b), k);
    ChildIs(b, j);
  }

  lemma ItemTwin(a: Visit, b: Visit, k: nat)
    requires Reordered(a, b) && a.value.Arr? && k < |a.value.items|
    ensures b.value.Arr? && |b.value.items| == |a.value.items| && Reordered(Child(a, k), Child(b, k))
  {
  }

  lemma ErasedAt(c: Visit, k: nat)
    requires k < ChildCount(c)
    ensures c.value.Arr? ==> Erase(c).Arr? && |Erase(c).items| == ChildCount(c) && Erase(c).items[k] == Erase(Child(c, k))
    ensures c.value.Obj? ==>
              && Erase(c).Obj? && |Erase(c).entries| == ChildCount(c)
              && Erase(c).entries[k] == Entry(Kept(c)[k].name, Erase(Child(c, k)))
  {
  }

  lemma ErasedLength(c: Visit)
    requires c.value.Obj?
    ensures Erase(c).Obj? && |Erase(c).entries| == |Kept(c)|
  {
  }

  lemma EraseTwin(a: Visit, b: Visit, k: nat, j: nat)
    requires a.value.Obj? && b.value.Obj? && k < |Kept(a)| && j < |Kept(b)| && Kept(a)[k].name == Kept(b)[j].name
    requires Same(Erase(Child(a, k)), Erase(Child(b, j)))
    ensures Erase(a).Obj? && Erase(b).Obj? && k < |Erase(a).entries| && HasTwin(Erase(a).entries[k], Erase(b).entries)
  {
    ErasedAt(a, k);
    ErasedAt(b, j);
    hide Same, Child, Kept, Erase, HasTwin;
    TwinIn(Erase(a).entries[k], Erase(b).entries[j], Erase(b).entries);
  }

  lemma ErasedTwins(a: Visit, b: Visit)
    requires a.value.Obj? && b.value.Obj? && |Kept(a)| == |Kept(b)| && Erase(a).Obj? && Erase(b).Obj?
    requires forall k | 0 <= k < |Erase(a).entries| :: HasTwin(Erase(a).entries[k], Erase(b).entries)
    ensures Same(Erase(a), Erase(b))
  {
    ErasedLength(a);
    ErasedLength(b);
    hide Same, Kept, Erase, HasTwin;
    SameObjects(Erase(a).entries, Erase(b).entries);
  }

  lemma ErasedItems(a: Visit, b: Visit)
    requires a.value.Arr? && b.value.Arr? && |a.value.items| == |b.value.items|
    requires forall k | 0 <= k < |a.value.items| :: Same(Erase(Child(a, k)), Erase(Child(b, k)))
    ensures Same(Erase(a), Erase(b))
  {
    forall k | 0 <= k < |a.value.items|
      ensures Erase(a).items[k] == Erase(Child(a, k)) && Erase(b).items[k] == Erase(Child(b, k))
    {
      ErasedAt(a, k);
      ErasedAt(b, k);
    }
    hide Child;
  }

  lemma ErasedScalars(a: Visit, b: Visit)
    requires Reordered(a, b) && !a.value.Arr? && !a.value.Obj?
    ensures Same(Erase(a), Erase(b))
  {
  }

  lemma ReorderedArrays(a: Visit, b: Visit)
    requires Reordered(a, b) && a.value.Arr?
    ensures b.value.Arr? && |b.value.items| == |a.value.items|
  {
  }

  lemma {:induction false} EraseSame(a: Visit, b: Visit)
    requires Reordered(a, b)
    ensures Same(Erase(a), Erase(b))
    decreases a.value
  {
    hide Same, Child, Kept, Permuted, Erase, HasTwin, Reordered;
    if a.value.Arr? {
      ReorderedArrays(a, b);
      forall k | 0 <= k < |a.value.items| ensures Same(Erase(Child(a, k)), Erase(Child(b, k))) {
        ItemTwin(a, b, k);
        EraseSame(Child(a, k), Child(b, k));
      }
      ErasedItems(a, b);
    } else if a.value.Obj? {
      KeptPermuted(a, b);
      ErasedLength(a);
      ErasedLength(b);
      forall k | 0 <= k < |Erase(a).entries| ensures HasTwin(Erase(a).entries[k], Erase(b).entries) {
        var j := ChildTwin(a, b, k);
        EraseSame(Child(a, k), Child(b, j));
        EraseTwin(a, b, k, j);
      }
      PermutedLength(Kept(a), Kept(b));
      ErasedTwins(a, b);
    } else {
      ErasedScalars(a, b);
    }
  }

  lemma PermutedLength(a: seq<Entry>, b: seq<Entry>)
    requires Permuted(a, b)
    ensures |a| == |b|
  {
  }

  lemma {:induction false} StraySame(a: Visit, b: Visit)
    requires Reordered(a, b) && Stray(a)
    ensures Stray(b)
    decreases a.value
  {
    if OwnStray(a) {
      KeptPermuted(a, b);
      PermutedLookup(Kept(a), Kept(b), ListId());
    } else {
      var k :| 0 <= k < ChildCount(a) && Stray(Child(a, k));
      if a.value.Arr? {
        ItemTwin(a, b, k);
        StraySame(Child(a, k), Child(b, k));
      } else {
        hide Child, Kept, Same;
        var j := ChildTwin(a, b, k);
        StraySame(Child(a, k), Child(b, j));
      }
    }
  }

  /** The same addresses under the same id, up to order. */
  ghost predicate Matches(x: Inline, y: Inline) {
    && x.addresses == y.addresses && (x.id.Some? <==> y.id.Some?)
    && (x.id.Some? ==> Same(x.id.value, y.id.value))
  }

  lemma OwnMatches(a: Visit, b: Visit)
    requires Reordered(a, b) && a.value.Obj? && InlineParams(Kept(a)).Some?
    ensures b.value.Obj? && InlineParams(Kept(b)).Some?
    ensures Matches(InlineOf(InlineParams(Kept(a)).value), InlineOf(InlineParams(Kept(b)).value))
  {
    KeptPermuted(a, b);
    hide Kept, Same, Permuted, InlineParams;
    PermutedParams(Kept(a), Kept(b));
    PermutedLookup(InlineParams(Kept(a)).value, InlineParams(Kept(b)).value, ListId());
    ParamsMean(Kept(a));
    ParamsMean(Kept(b));
  }

  lemma {:induction false} InlineSame(a: Visit, b: Visit, x: Inline) returns (y: Inline)
    requires Reordered(a, b) && x in Inlines(a)
    ensures y in Inlines(b) && Matches(x, y)
    decreases a.value
  {
    if x in OwnInline(a) {
      OwnMatches(a, b);
      y := InlineOf(InlineParams(Kept(b)).value);
      assert y in OwnInline(b);
    } else {
      hide OwnInline, Matches;
      var k :| 0 <= k < ChildCount(a) && x in Inlines(Child(a, k));
      if a.value.Arr? {
        ItemTwin(a, b, k);
        y := InlineSame(Child(a, k), Child(b, k), x);
      } else {
        hide Child, Kept, Same;
        var j := ChildTwin(a, b, k);
        y := InlineSame(Child(a, k), Child(b, j), x);
      }
    }
  }

  // ----- sizes -----

  lemma {:induction false} InsertCount(before: (Entry, Entry) -> bool, x: Entry, sorted: seq<Entry>)
    ensures EntryCount(Sorting.Insert(before, x, sorted)) == NodeCount(x.value) + EntryCount(sorted)
  {
    if sorted != [] && before(sorted[0], x) {
      InsertCount(before, x, sorted[1..]);
      FrontCount(sorted[0], Sorting.Insert(before, x, sorted[1..]));
      FrontCount(sorted[0], sorted[1..]);
      assert sorted == [sorted[0]] + sorted[1..];
    } else {
      FrontCount(x, sorted);
    }
  }

  lemma {:induction false} FrontCount(x: Entry, rest: seq<Entry>)
    ensures EntryCount([x] + rest) == NodeCount(x.value) + EntryCount(rest)
  {
    if rest == [] {
      assert [x] + rest == [x] && [x][..0] == [];
    } else {
      var last := |rest| - 1;
      FrontCount(x, rest[..last]);
      assert ([x] + rest)[..|rest|] == [x] + rest[..last];
    }
  }

  lemma {:induction false} SortCount(before: (Entry, Entry) -> bool, xs: seq<Entry>)
    ensures EntryCount(Sorting.Sort(before, xs)) == EntryCount(xs)
  {
    if xs != [] {
      SortCount(before, xs[1..]);
      InsertCount(before, xs[0], Sorting.Sort(before, xs[1..]));
      FrontCount(xs[0], xs[1..]);
      assert xs == [xs[0]] + xs[1..];
    }
  }

  lemma {:induction false} ItemsCanonCount(less: Less, items: seq<Json>, k: nat)
    requires k <= |items|
    requires forall i | 0 <= i < |items| :: NodeCount(Canon(less, items[i])) == NodeCount(items[i])
    ensures ItemCount(CanonItems(less, items)[..k]) == ItemCount(items[..k])
  {
    if k > 0 {
      ItemsCanonCount(less, items, k - 1);
      assert CanonItems(less, items)[..k][..k - 1] == CanonItems(less, items)[..k - 1];
      assert items[..k][..k - 1] == items[..k - 1];
    }
  }

  lemma {:induction false} EntriesCanonCount(less: Less, entries: seq<Entry>, k: nat)
    requires k <= |entries|
    requires forall i | 0 <= i < |entries| :: NodeCount(Canon(less, entries[i].value)) == NodeCount(entries[i].value)
    ensures EntryCount(CanonEntries(less, entries)[..k]) == EntryCount(entries[..k])
  {
    if k > 0 {
      EntriesCanonCount(less, entries, k - 1);
      assert CanonEntries(less, entries)[..k][..k - 1] == CanonEntries(less, entries)[..k - 1];
      assert entries[..k][..k - 1] == entries[..k - 1];
    }
  }

  lemma {:induction false} CanonCount(less: Less, v: Json)
    ensures NodeCount(Canon(less, v)) == NodeCount(v)
  {
    match v
    case Arr(items) =>
      forall i | 0 <= i < |items| ensures NodeCount(Canon(less, items[i])) == NodeCount(items[i]) {
        CanonCount(less, items[i]);
      }
      ItemsCanonCount(less, items, |items|);
      assert items[..|items|] == items && CanonItems(less, items)[..|items|] == CanonItems(less, items);
    case Obj(entries) =>
      forall i | 0 <= i < |entries| ensures NodeCount(Canon(less, entries[i].value)) == NodeCount(entries[i].value) {
        CanonCount(less, entries[i].value);
      }
      EntriesCanonCount(less, entries, |entries|);
      SortCount(ByName(less), CanonEntries(less, entries));
      assert entries[..|entries|] == entries && CanonEntries(less, entries)[..|entries|] == CanonEntries(less, entries);
    case _ =>
  }

  lemma SameCount(v: Json, w: Json)
    requires WellFormed(v) && WellFormed(w) && Same(v, w)
    ensures NodeCount(v) == NodeCount(w)
  {
    hide Canon, NodeCount, Same, WellFormed;
    SameIsOneCanon(v, w);
    CanonCount(TextLess, v);
    CanonCount(TextLess, w);
  }

  lemma {:induction false} SameDeep(v: Json, w: Json, d: int)
    requires Same(v, w) && DeepAtMost(w, d)
    ensures DeepAtMost(v, d)
  {
    match v
    case Arr(items) =>
      forall i | 0 <= i < |items| ensures DeepAtMost(items[i], d - 1) {
        assert Same(items[i], w.items[i]);
        SameDeep(items[i], w.items[i], d - 1);
      }
    case Obj(entries) =>
      SameObjects(entries, w.entries);
      forall i | 0 <= i < |entries| ensures DeepAtMost(entries[i].value, d - 1) {
        var j := Partner(entries, w.entries, i);
        SameDeep(entries[i].value, w.entries[j].value, d - 1);
      }
    case _ =>
  }

  /** Erasing changes neither the number of visits nor their depth. */
  ghost predicate Measured(c: Visit) {
    && Nodes(c) == NodeCount(Erase(c))
    && forall d: int :: Within(c, d) <==> DeepAtMost(Erase(c), d)
  }

  lemma {:induction false} EraseMeasures(c: Visit)
    ensures Measured(c)
    decreases c.value
  {
    forall k | 0 <= k < ChildCount(c) ensures Measured(Child(c, k)) {
      EraseMeasures(Child(c, k));
    }
    match c.value
    case Arr(_) => ArrayMeasured(c);
    case Obj(_) => ObjectMeasured(c);
    case _ =>
  }

  lemma MeasuredParts(c: Visit)
    requires forall k | 0 <= k < ChildCount(c) :: Measured(Child(c, k))
    ensures forall k | 0 <= k < ChildCount(c) :: Nodes(Child(c, k)) == NodeCount(Erase(Child(c, k)))
    ensures forall d: int :: Within(c, d) <==> d >= 0 && forall k | 0 <= k < ChildCount(c) :: DeepAtMost(Erase(Child(c, k)), d - 1)
  {
    hide Child, ChildCount, Nodes, NodeCount, Erase, DeepAtMost;
  }

  lemma ArrayMeasured(c: Visit)
    requires c.value.Arr? && forall k | 0 <= k < ChildCount(c) :: Measured(Child(c, k))
    ensures Measured(c)
  {
    MeasuredParts(c);
    var items := Erase(c).items;
    forall k | 0 <= k < ChildCount(c) ensures items[k] == Erase(Child(c, k)) {
      ErasedAt(c, k);
    }
    ArrayCount(c, items, |items|);
    assert items[..|items|] == items;
    hide Child, Measured;
    assert Measured(c) by { MeasuredFrom(c); }
  }

  lemma MeasuredFrom(c: Visit)
    requires Nodes(c) == NodeCount(Erase(c))
    requires forall d: int :: Within(c, d) <==> DeepAtMost(Erase(c), d)
    ensures Measured(c)
  {
  }

  lemma ObjectMeasured(c: Visit)
    requires c.value.Obj? && forall k | 0 <= k < ChildCount(c) :: Measured(Child(c, k))
    ensures Measured(c)
  {
    MeasuredParts(c);
    var entries := Erase(c).entries;
    forall k | 0 <= k < ChildCount(c) ensures entries[k].value == Erase(Child(c, k)) {
      ErasedAt(c, k);
    }
    ObjectCount(c, entries, |entries|);
    assert entries[..|entries|] == entries;
    hide Child, Measured;
    assert Measured(c) by { MeasuredFrom(c); }
  }

  // ----- erasing and the ids determine the tree -----

  /** Looking up a name in the erased object. */
  lemma ErasedLookup(c: Visit, name: Text)
    requires c.value.Obj? && WellFormed(c.value)
    ensures Lookup(Erase(c).entries, name).Some? <==> Lookup(Kept(c), name).Some?
    ensures Lookup(Kept(c), name).Some? ==>
              exists k | 0 <= k < ChildCount(c) ::
                && Kept(c)[k].name == name && Lookup(Kept(c), name) == Some(Kept(c)[k].value)
                && Lookup(Erase(c).entries, name) == Some(Erase(Child(c, k)))
  {
    EraseWellFormed(c);
    var e := Erase(c).entries;
    DistinctOf(e);
    WithoutWellFormed(c.value.entries, ListId());
    DistinctOf(Kept(c));
    forall k | 0 <= k < ChildCount(c) ensures k < |e| && e[k] == Entry(Kept(c)[k].name, Erase(Child(c, k))) {
      ErasedAt(c, k);
    }
    assert |e| == |Kept(c)|;
    hide Child, Kept, Erase, Lookup, WellFormed;
    LookupName(e, name);
    LookupName(Kept(c), name);
    if k :| 0 <= k < |Kept(c)| && Kept(c)[k].name == name {
      LookupAt(Kept(c), k);
      LookupAt(e, k);
    }
  }

  lemma ErasedKind(c: Visit, t: Text)
    ensures Erase(c) == Str(t) <==> c.value == Str(t)
    ensures Erase(c).Obj? <==> c.value.Obj?
    ensures Erase(c).Arr? <==> c.value.Arr?
    ensures c.value.Arr? && AllStrings(c.value.items) ==> Erase(c) == c.value
    ensures c.value.Arr? && AllStrings(Erase(c).items) ==> Erase(c) == c.value
  {
    if c.value.Arr? {
      var items := c.value.items;
      forall k | 0 <= k < |items| ensures Erase(c).items[k] == Erase(Child(c, k)) && Child(c, k).value == items[k] {
        ErasedAt(c, k);
      }
      if AllStrings(items) || AllStrings(Erase(c).items) {
        forall k | 0 <= k < |items| ensures Erase(c).items[k] == items[k] {
          assert Erase(c).items[k] == Erase(Child(c, k));
        }
        assert Erase(c).items == items;
      }
    }
  }

  lemma ErasedText(c: Visit, name: Text, t: Text)
    requires c.value.Obj? && WellFormed(c.value)
    ensures Lookup(Erase(c).entries, name) == Some(Str(t)) <==> Lookup(Kept(c), name) == Some(Str(t))
  {
    ErasedKind(c, t);
    hide Kept, Erase, Lookup, WellFormed;
    ErasedLookup(c, name);
    if Lookup(Kept(c), name).Some? {
      var k :| 0 <= k < ChildCount(c) && Kept(c)[k].name == name && Lookup(Kept(c), name) == Some(Kept(c)[k].value)
               && Lookup(Erase(c).entries, name) == Some(Erase(Child(c, k)));
      ChildValue(c, k);
      ErasedKind(Child(c, k), t);
    }
  }

  lemma ChildValue(c: Visit, k: nat)
    requires c.value.Obj? && k < |Kept(c)| == ChildCount(c)
    ensures Child(c, k).value == Kept(c)[k].value
  {
  }

  /** The parameters of a set, with or without their id. */
  lemma KeptPlain(c: Visit)
    requires c.value.Obj?
    ensures Plain(Kept(c)) <==> Plain(c.value.entries)
    ensures AddressesOf(Kept(c)) == AddressesOf(c.value.entries)
  {
    NamesDiffer();
    LookupKept(c.value.entries, Ascii("use_descriptor"));
    LookupKept(c.value.entries, Ascii("addresses"));
    hide Ascii, Without;
  }

  lemma ErasedPlain(c: Visit)
    requires c.value.Obj? && WellFormed(c.value)
    ensures Plain(Erase(c).entries) <==> Plain(c.value.entries)
    ensures Plain(c.value.entries) ==> AddressesOf(Erase(c).entries) == AddressesOf(c.value.entries)
  {
    KeptPlain(c);
    hide Kept, Erase, Lookup, WellFormed, Ascii;
    ErasedLookup(c, Ascii("use_descriptor"));
    ErasedLookup(c, Ascii("addresses"));
    if Lookup(Kept(c), Ascii("addresses")).Some? {
      var k :| 0 <= k < ChildCount(c) && Kept(c)[k].name == Ascii("addresses")
               && Lookup(Kept(c), Ascii("addresses")) == Some(Kept(c)[k].value)
               && Lookup(Erase(c).entries, Ascii("addresses")) == Some(Erase(Child(c, k)));
      ChildValue(c, k);
      ErasedKind(Child(c, k), []);
    }
  }

  /** Erasing keeps which objects are inline sets, and their addresses. */
  lemma ErasedParams(c: Visit)
    requires c.value.Obj? && WellFormed(c.value)
    ensures InlineParams(Erase(c).entries).Some? <==> InlineParams(Kept(c)).Some?
    ensures InlineParams(Kept(c)).Some? ==>
              AddressesOf(InlineParams(Erase(c).entries).value) == AddressesOf(InlineParams(Kept(c)).value)
  {
    var name := Ascii("conditionParams");
    ErasedKind(c, []);
    ParamsMean(Erase(c).entries);
    ParamsMean(Kept(c));
    hide Kept, Erase, Lookup, WellFormed, InlineParams, Ascii, Plain;
    ErasedText(c, Ascii("type"), Ascii("condition"));
    ErasedText(c, Ascii("conditionType"), Ascii("OUTPUT_DEST_IS_IN_SETS"));
    ErasedLookup(c, name);
    if Lookup(Kept(c), name).Some? {
      var k :| 0 <= k < ChildCount(c) && Kept(c)[k].name == name && Lookup(Kept(c), name) == Some(Kept(c)[k].value)
               && Lookup(Erase(c).entries, name) == Some(Erase(Child(c, k)));
      ChildValue(c, k);
      ChildIs(c, k);
      ErasedKind(Child(c, k), []);
      if Child(c, k).value.Obj? {
        ErasedPlain(Child(c, k));
      }
    }
  }

  /** Every inline set of the visit has the id the naming gives its addresses. */
  ghost predicate Named(c: Visit, ids: Naming) {
    forall x | x in Inlines(c) :: x.id == IdOf(ids, x.addresses)
  }

  /** Two trees to compare: clean, named alike, equal once erased. */
  ghost predicate Comparable(c: Visit, d: Visit, ids: Naming) {
    && c.stripped == d.stripped && c.erasing && d.erasing
    && WellFormed(c.value) && WellFormed(d.value) && !Stray(c) && !Stray(d)
    && Named(c, ids) && Named(d, ids) && Same(Erase(c), Erase(d))
  }

  /** The value of a visit as it is seen. */
  function Bare(c: Visit): Json { if c.value.Obj? then Obj(Kept(c)) else c.value }

  lemma ChildClean(c: Visit, ids: Naming, k: nat)
    requires k < ChildCount(c) && c.erasing && WellFormed(c.value) && !Stray(c) && Named(c, ids)
    ensures Child(c, k).erasing && WellFormed(Child(c, k).value) && !Stray(Child(c, k)) && Named(Child(c, k), ids)
  {
    if c.value.Obj? {
      ChildIs(c, k);
    }
    hide Kept, InlineParams, OwnInline, IdOf;
  }

  lemma ErasedPermuted(c: Visit, d: Visit)
    requires WellFormed(c.value) && WellFormed(d.value) && c.value.Obj? && Same(Erase(c), Erase(d))
    ensures d.value.Obj? && Permuted(Erase(c).entries, Erase(d).entries)
  {
    ErasedKind(c, []);
    ErasedKind(d, []);
    EraseWellFormed(c);
    EraseWellFormed(d);
    SameIsObject(Erase(c), Erase(d));
    hide WellFormed, Same, Permuted, Erase;
    PermutedMeans(Erase(c).entries, Erase(d).entries);
  }

  lemma PermutedFlags(a: seq<Entry>, b: seq<Entry>)
    requires Permuted(a, b)
    ensures InlineParams(a).Some? <==> InlineParams(b).Some?
    ensures InlineParams(a).Some? ==> AddressesOf(InlineParams(a).value) == AddressesOf(InlineParams(b).value)
  {
    hide InlineParams, Permuted, AddressesOf;
    if InlineParams(a).Some? {
      PermutedParams(a, b);
    }
    if InlineParams(b).Some? {
      PermutedBack(a, b);
      PermutedParams(b, a);
    }
  }

  lemma ComparableFlags(c: Visit, d: Visit, ids: Naming)
    requires Comparable(c, d, ids) && c.value.Obj?
    ensures d.value.Obj? && |Kept(c)| == |Kept(d)|
    ensures InlineParams(Kept(c)).Some? <==> InlineParams(Kept(d)).Some?
    ensures InlineParams(Kept(c)).Some? ==>
              AddressesOf(InlineParams(Kept(c)).value) == AddressesOf(InlineParams(Kept(d)).value)
  {
    hide InlineParams, Kept, Erase, Same, WellFormed, AddressesOf, Permuted, Named, Stray;
    ErasedPermuted(c, d);
    ErasedParams(c);
    ErasedParams(d);
    ErasedLength(c);
    ErasedLength(d);
    PermutedLength(Erase(c).entries, Erase(d).entries);
    PermutedFlags(Erase(c).entries, Erase(d).entries);
  }

  lemma PermutedBack(a: seq<Entry>, b: seq<Entry>)
    requires Permuted(a, b)
    ensures Permuted(b, a)
  {
    hide Partnered, WellFormed;
  }

  /** The k-th child has a comparable counterpart of the same name. */
  lemma ComparableChild(c: Visit, d: Visit, ids: Naming, k: nat) returns (j: nat)
    requires Comparable(c, d, ids) && c.value.Obj? && k < |Kept(c)|
    ensures d.value.Obj? && j < |Kept(d)| && Kept(c)[k].name == Kept(d)[j].name && Comparable(Child(c, k), Child(d, j), ids)
  {
    ComparableFlags(c, d, ids);
    ErasedPermuted(c, d);
    ErasedAt(c, k);
    assert |Erase(c).entries| == |Kept(c)| && |Erase(d).entries| == |Kept(d)|;
    ChildIs(c, k);
    ChildClean(c, ids, k);
    hide InlineParams, Kept, Same, HasTwin, Partnered, Child, WellFormed, ConditionParams, Erase, Named, Stray, AddressesOf;
    j := Partner(Erase(c).entries, Erase(d).entries, k);
    ErasedAt(d, j);
    ChildIs(d, j);
    ChildClean(d, ids, j);
  }

  lemma OwnId(c: Visit, ids: Naming)
    requires c.value.Obj? && InlineParams(Kept(c)).Some? && Named(c, ids)
    ensures Lookup(InlineParams(Kept(c)).value, ListId()) == IdOf(ids, AddressesOf(InlineParams(Kept(c)).value))
  {
    ParamsMean(Kept(c));
    assert InlineOf(InlineParams(Kept(c)).value) in Inlines(c);
  }

  lemma ItemsComparable(c: Visit, d: Visit, ids: Naming, k: nat)
    requires Comparable(c, d, ids) && c.value.Arr? && k < |c.value.items|
    ensures d.value.Arr? && |d.value.items| == |c.value.items| && Comparable(Child(c, k), Child(d, k), ids)
    ensures Child(c, k) == Visit(c.value.items[k], false, true) && Child(d, k) == Visit(d.value.items[k], false, true)
  {
    ErasedKind(d, []);
    ErasedAt(c, k);
    ErasedAt(d, k);
    assert Same(Erase(c).items[k], Erase(d).items[k]);
    ChildClean(c, ids, k);
    ChildClean(d, ids, k);
  }

  /** Trees that agree once erased, and whose ids are given by their addresses,
      agree with their ids. */
  lemma {:induction false} Determined(c: Visit, d: Visit, ids: Naming)
    requires Comparable(c, d, ids)
    ensures Same(Bare(c), Bare(d))
    decreases c.value
  {
    match c.value
    case Arr(items) =>
      ErasedKind(d, []);
      forall k | 0 <= k < |items| ensures d.value.Arr? && |d.value.items| == |items| && Same(items[k], d.value.items[k]) {
        ItemsComparable(c, d, ids, k);
        Determined(Child(c, k), Child(d, k), ids);
        BareUnstripped(Child(c, k));
        BareUnstripped(Child(d, k));
      }
      assert d.value.Arr? && |d.value.items| == |items|;
    case Obj(_) =>
      ComparableFlags(c, d, ids);
      hide Same, Child, Kept, InlineParams, Comparable, AddressesOf;
      forall k | 0 <= k < |Kept(c)| ensures HasTwin(Kept(c)[k], Kept(d)) {
        var j := ComparableChild(c, d, ids, k);
        Determined(Child(c, k), Child(d, j), ids);
        ChildTwins(c, d, ids, k, j);
        TwinIn(Kept(c)[k], Kept(d)[j], Kept(d));
      }
      SameObjects(Kept(c), Kept(d));
    case _ =>
      ErasedKind(d, []);
  }

  lemma BareUnstripped(c: Visit)
    requires !c.stripped
    ensures Bare(c) == c.value
  {
  }

  /** A child and its counterpart are equal once their ids are put back. */
  lemma ChildTwins(c: Visit, d: Visit, ids: Naming, k: nat, j: nat)
    requires Comparable(c, d, ids) && c.value.Obj? && d.value.Obj? && k < |Kept(c)| && j < |Kept(d)|
    requires Kept(c)[k].name == Kept(d)[j].name && Comparable(Child(c, k), Child(d, j), ids)
    requires Same(Bare(Child(c, k)), Bare(Child(d, j)))
    ensures Same(Kept(c)[k].value, Kept(d)[j].value)
  {
    ComparableFlags(c, d, ids);
    ChildIs(c, k);
    ChildIs(d, j);
    if Child(c, k).stripped {
      OwnId(c, ids);
      OwnId(d, ids);
      ParamsChild(c, k);
      ParamsChild(d, j);
      var a, b := Kept(c)[k].value.entries, Kept(d)[j].value.entries;
      hide Same, Child, InlineParams, Comparable, AddressesOf, Lookup, WellFormed;
      assert Bare(Child(c, k)) == Obj(Without(a, ListId())) && Bare(Child(d, j)) == Obj(Without(b, ListId()));
      WithoutWellFormed(a, ListId());
      WithoutWellFormed(b, ListId());
      PermutedMeans(Without(a, ListId()), Without(b, ListId()));
      RestorePermuted(a, b);
      PermutedMeans(a, b);
    } else {
      BareUnstripped(Child(c, k));
      BareUnstripped(Child(d, j));
    }
  }

  lemma ParamsChild(c: Visit, k: nat)
    requires c.value.Obj? && WellFormed(c.value) && k < |Kept(c)| && InlineParams(Kept(c)).Some? && Kept(c)[k].name == ConditionParams()
    ensures Kept(c)[k].value == Obj(InlineParams(Kept(c)).value)
  {
    WithoutWellFormed(c.value.entries, ListId());
    DistinctOf(Kept(c));
    ParamsAt(Kept(c), k);
    ParamsName(Kept(c), Kept(c)[k]);
  }

  // ----- what the checker accepts -----

  /** Reordering a tree whose ids are texts changes nothing the checker sees. */
  lemma ReorderedStands(requested: Json, c: Json, d: Json)
    requires WellFormed(requested) && WellFormed(c) && WellFormed(d) && Same(c, d) && Stands(requested, d)
    ensures Stands(requested, c)
    ensures Inlines(Visit(c, false, true)) == Inlines(Visit(d, false, true))
  {
    var a, b := Visit(c, false, true), Visit(d, false, true);
    hide Same, WellFormed, Nodes, NodeCount, Inlines, Erase, Stray, Within, DeepAtMost, Consistent, AllOrNone;
    EraseSame(a, b);
    if Stray(a) {
      StraySame(a, b);
    }
    EraseMeasures(a);
    EraseMeasures(b);
    EraseWellFormed(a);
    EraseWellFormed(b);
    SameInlines(a, b);
    SameCount(Erase(a), Erase(b));
    SameDeep(Erase(a), Erase(b), 32);
    SameBack(Erase(a), Erase(b));
    SameOn(requested, Erase(b), Erase(a));
  }

  lemma SameInlines(a: Visit, b: Visit)
    requires Reordered(a, b) && Consistent(Inlines(b))
    ensures Inlines(a) == Inlines(b)
  {
    ReorderedBack(a, b);
    hide Inlines, Same, WellFormed, WellFormedId;
    forall x | x in Inlines(a) ensures x in Inlines(b) {
      var y := InlineSame(a, b, x);
      TextMatches(x, y);
    }
    forall y | y in Inlines(b) ensures y in Inlines(a) {
      var x := InlineSame(b, a, y);
      TextMatches(y, x);
    }
  }

  lemma TextMatches(x: Inline, y: Inline)
    requires Matches(x, y)
    ensures (x.id.Some? ==> WellFormedId(x.id.value)) || (y.id.Some? ==> WellFormedId(y.id.value)) ==> x == y
  {
    if x.id.Some? && WellFormedId(x.id.value) {
      SameText(y.id.value, x.id.value.text);
    }
    if y.id.Some? && WellFormedId(y.id.value) {
      SameText(x.id.value, y.id.value.text);
    }
  }

  /** The naming an accepted tree carries. */
  ghost function NamingOf(inlines: set<Inline>): Naming
    requires Consistent(inlines) && AllOrNone(inlines)
  {
    if forall x | x in inlines :: x.id.None? then None
    else Some((a: seq<Json>) => IdAt(inlines, a))
  }

  ghost function IdAt(inlines: set<Inline>, a: seq<Json>): Text {
    if exists x :: x in inlines && x.addresses == a && x.id.Some? && x.id.value.Str? then
      var x :| x in inlines && x.addresses == a && x.id.Some? && x.id.value.Str?;
      x.id.value.text
    else []
  }

  lemma NamingNames(c: Visit)
    requires Consistent(Inlines(c)) && AllOrNone(Inlines(c))
    ensures Named(c, NamingOf(Inlines(c)))
  {
    hide Inlines, WellFormedId;
    var all := Inlines(c);
    forall x | x in all ensures x.id == IdOf(NamingOf(all), x.addresses) {
      if x.id.Some? {
        IdIsText(x.id.value);
        NamedByAt(all, x);
      }
    }
  }

  lemma NamedByAt(inlines: set<Inline>, x: Inline)
    requires Consistent(inlines) && x in inlines && x.id.Some? && x.id.value.Str?
    ensures x.id.value == Str(IdAt(inlines, x.addresses))
  {
    hide WellFormedId;
    assert forall y | y in inlines && y.addresses == x.addresses && y.id.Some? :: y.id == x.id;
  }

  /** An accepted tree is what the compiler makes of the request under the
      naming the tree carries, up to entry order. */
  lemma AcceptedIsCompiled(requested: Json, compiled: Json) returns (ids: Naming)
    requires WellFormed(requested) && WellFormed(compiled) && Stands(requested, compiled)
    ensures Unnamed(requested) && NodeCount(requested) <= 4096 && DeepAtMost(requested, 32)
    ensures NamesApart(ids, Lists(requested)) && Same(compiled, Compile(requested, ids))
  {
    var c := Visit(compiled, false, true);
    ids := NamingOf(Inlines(c));
    RequestSeen(requested);
    assert Unnamed(requested);
    NamingNames(c);
    CompiledTracks(requested, ids);
    CompileWellFormed(requested, ids);
    EraseWellFormed(c);
    var d := Visit(Compile(requested, ids), false, true);
    hide Compile, Lists, NodeCount, DeepAtMost, Nodes, Within, WellFormed, NamesApart, IdOf, NamingOf, Inlines, Same, Erase, Stray, Consistent, AllOrNone;
    assert Same(Erase(c), Erase(d)) by { SameBack(requested, Erase(c)); }
    assert Named(d, ids);
    Determined(c, d, ids);
    BareUnstripped(c);
    BareUnstripped(d);
    SameBack(c.value, d.value);
    SameInlines(d, c);
    NamesMean(ids, Lists(requested), Inlines(d));
  }

  ghost predicate CompilesTo(requested: Json, ids: Naming, compiled: Json)
    requires WellFormed(requested)
  {
    NamesApart(ids, Lists(requested)) && Same(compiled, Compile(requested, ids))
  }

  /** The checker accepts exactly the compiler's trees: the request must be small
      and shallow enough and free of list ids, and the tree must be, up to entry
      order, the request with an embedded id on each of its inline sets, one for
      each address list, or with none at all. */
  lemma StandsExactly(requested: Json, compiled: Json)
    requires WellFormed(requested) && WellFormed(compiled)
    ensures Stands(requested, compiled) <==>
              && Unnamed(requested) && NodeCount(requested) <= 4096 && DeepAtMost(requested, 32)
              && exists ids :: CompilesTo(requested, ids, compiled)
  {
    hide WellFormed, Unnamed, NodeCount, DeepAtMost, Stands, NamesApart, Lists, Same, Compile;
    if Stands(requested, compiled) {
      var ids := AcceptedIsCompiled(requested, compiled);
      assert CompilesTo(requested, ids, compiled);
    }
    if Unnamed(requested) && NodeCount(requested) <= 4096 && DeepAtMost(requested, 32) {
      if ids :| CompilesTo(requested, ids, compiled) {
        CompiledStands(requested, ids);
        CompileWellFormed(requested, ids);
        ReorderedStands(requested, compiled, Compile(requested, ids));
      }
    }
  }
}

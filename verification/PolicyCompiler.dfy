/** The checker of compiled policies from the compiler's side
    (src/sigbash-policy.ts): every tree the compiler may produce stands, and
    list ids anywhere else or of any other form are refused. Names and ids are
    written out here. */
module PolicyCompiler {
  import opened Wrappers
  import opened Json
  import opened JsonProofs
  import opened CompiledPolicy

  // ----- plain measures of a tree -----

  function NodeCount(v: Json): nat
    decreases v, 0
  {
    match v
    case Arr(items) => 1 + ItemCount(items)
    case Obj(entries) => 1 + EntryCount(entries)
    case _ => 1
  }

  function ItemCount(items: seq<Json>): nat
    decreases items, 1
  {
    if items == [] then 0 else ItemCount(items[..|items| - 1]) + NodeCount(items[|items| - 1])
  }

  function EntryCount(entries: seq<Entry>): nat
    decreases entries, 1
  {
    if entries == [] then 0 else EntryCount(entries[..|entries| - 1]) + NodeCount(entries[|entries| - 1].value)
  }

  predicate DeepAtMost(v: Json, d: int) {
    && d >= 0
    && match v
       case Arr(items) => forall i | 0 <= i < |items| :: DeepAtMost(items[i], d - 1)
       case Obj(entries) => forall i | 0 <= i < |entries| :: DeepAtMost(entries[i].value, d - 1)
       case _ => true
  }

  /** No object of the tree has an entry "list_id". */
  predicate Unnamed(v: Json) {
    match v
    case Arr(items) => forall i | 0 <= i < |items| :: Unnamed(items[i])
    case Obj(entries) => forall i | 0 <= i < |entries| :: entries[i].name != Ascii("list_id") && Unnamed(entries[i].value)
    case _ => true
  }

  // ----- inline address sets, written out -----

  predicate Plain(fields: seq<Entry>) {
    && Lookup(fields, Ascii("use_descriptor")) == None
    && match Lookup(fields, Ascii("addresses"))
       case Some(Arr(addresses)) => addresses != [] && forall i | 0 <= i < |addresses| :: addresses[i].Str?
       case _ => false
  }

  function AddressesOf(fields: seq<Entry>): seq<Json> {
    match Lookup(fields, Ascii("addresses")) case Some(Arr(addresses)) => addresses case _ => []
  }

  /** The entry holds the parameters of an inline output address set. */
  predicate IsParams(entries: seq<Entry>, e: Entry) {
    && Lookup(entries, Ascii("type")) == Some(Str(Ascii("condition")))
    && Lookup(entries, Ascii("conditionType")) == Some(Str(Ascii("OUTPUT_DEST_IS_IN_SETS")))
    && e.name == Ascii("conditionParams") && e.value.Obj? && Plain(e.value.entries)
  }

  /** The address lists of a tree's inline sets. */
  function Lists(v: Json): set<seq<Json>> {
    match v
    case Arr(items) => set i, a | 0 <= i < |items| && a in Lists(items[i]) :: a
    case Obj(entries) =>
      (set i | 0 <= i < |entries| && IsParams(entries, entries[i]) :: AddressesOf(entries[i].value.entries))
      + set i, a | 0 <= i < |entries| && a in Lists(entries[i].value) :: a
    case _ => {}
  }

  /** "policy_embedded_" and three digits. */
  predicate EmbeddedId(id: Text) {
    && |id| == 19 && id[..16] == Ascii("policy_embedded_")
    && 48 <= id[16] <= 57 && 48 <= id[17] <= 57 && 48 <= id[18] <= 57
  }

  // ----- the compiler -----

  type Naming = Option<seq<Json> -> Text>

  /** The entry the compiler adds to the parameters of a set, if it names sets. */
  function IdEntry(ids: Naming, addresses: seq<Json>): seq<Entry> {
    if ids.Some? then [Entry(Ascii("list_id"), Str(ids.value(addresses)))] else []
  }

  function Compile(v: Json, ids: Naming): Json
    decreases v, 1
  {
    match v
    case Arr(items) => Arr(seq(|items|, i requires 0 <= i < |items| => Compile(items[i], ids)))
    case Obj(entries) =>
      Obj(seq(|entries|, i requires 0 <= i < |entries| => Entry(entries[i].name, CompileEntry(entries, entries[i], ids))))
    case _ => v
  }

  function CompileEntry(entries: seq<Entry>, e: Entry, ids: Naming): Json
    decreases e.value, 2
  {
    if IsParams(entries, e) then Obj(Compile(e.value, ids).entries + IdEntry(ids, AddressesOf(e.value.entries)))
    else Compile(e.value, ids)
  }

  /** Well-formed ids, one for each address list. */
  ghost predicate NamesApart(ids: Naming, lists: set<seq<Json>>) {
    ids.Some? ==>
      && (forall a | a in lists :: EmbeddedId(ids.value(a)))
      && (forall a, b | a in lists && b in lists :: ids.value(a) == ids.value(b) ==> a == b)
  }

  // ----- lookups -----

  lemma {:induction false} LookupCompiled(whole: seq<Entry>, entries: seq<Entry>, done: seq<Entry>, ids: Naming, name: Text)
    requires |done| == |entries|
    requires forall i | 0 <= i < |entries| :: done[i] == Entry(entries[i].name, CompileEntry(whole, entries[i], ids))
    ensures Lookup(entries, name).None? <==> Lookup(done, name).None?
    ensures Lookup(entries, name).Some? ==>
              exists i | 0 <= i < |entries| ::
                entries[i].name == name && Lookup(entries, name) == Some(entries[i].value) && Lookup(done, name) == Some(done[i].value)
  {
    if entries != [] && entries[0].name != name {
      LookupCompiled(whole, entries[1..], done[1..], ids, name);
      if Lookup(entries[1..], name).Some? {
        var i :| 0 <= i < |entries[1..]| && entries[1..][i].name == name && Lookup(entries[1..], name) == Some(entries[1..][i].value)
                 && Lookup(done[1..], name) == Some(done[1..][i].value);
        assert entries[i + 1] == entries[1..][i] && done[i + 1] == done[1..][i];
      }
    }
  }

  lemma {:induction false} LookupAppended(entries: seq<Entry>, more: seq<Entry>, name: Text)
    ensures Lookup(entries + more, name) == if Lookup(entries, name).Some? then Lookup(entries, name) else Lookup(more, name)
  {
    if entries == [] {
      assert entries + more == more;
    } else {
      assert (entries + more)[1..] == entries[1..] + more;
      LookupAppended(entries[1..], more, name);
    }
  }

  lemma {:induction false} LookupAt(entries: seq<Entry>, i: nat)
    requires DistinctNames(entries) && i < |entries|
    ensures Lookup(entries, entries[i].name) == Some(entries[i].value)
  {
    if i > 0 {
      LookupAt(entries[1..], i - 1);
    }
  }

  lemma LookupAbsent(entries: seq<Entry>, name: Text)
    requires forall i | 0 <= i < |entries| :: entries[i].name != name
    ensures Lookup(entries, name) == None
  {
  }

  // ----- compiled trees, tracked -----

  /** What the checker sees of a compiled tree is the tree it was compiled from. */
  ghost predicate Tracks(c: Visit, v: Json, ids: Naming) {
    && Erase(c) == v
    && Nodes(c) == NodeCount(v)
    && (forall d: int :: Within(c, d) <==> DeepAtMost(v, d))
    && !Stray(c)
    && Inlines(c) == set a | a in Lists(v) :: Inline(IdOf(ids, a), a)
  }

  lemma NamesDiffer()
    ensures |Ascii("type")| == 4 && |Ascii("list_id")| == 7 && |Ascii("addresses")| == 9
    ensures |Ascii("conditionType")| == 13 && |Ascii("use_descriptor")| == 14 && |Ascii("conditionParams")| == 15
  {
  }

  // ----- stripping the added entry -----

  lemma {:induction false} WithoutNothing(entries: seq<Entry>, name: Text)
    requires forall i | 0 <= i < |entries| :: entries[i].name != name
    ensures Without(entries, name) == entries
  {
    if entries != [] {
      WithoutNothing(entries[1..], name);
    }
  }

  lemma {:induction false} WithoutLast(entries: seq<Entry>, more: seq<Entry>, name: Text)
    requires forall i | 0 <= i < |entries| :: entries[i].name != name
    requires more == [] || (|more| == 1 && more[0].name == name)
    ensures Without(entries + more, name) == entries
  {
    if entries == [] {
      assert entries + more == more;
    } else {
      assert (entries + more)[1..] == entries[1..] + more;
      WithoutLast(entries[1..], more, name);
    }
  }

  /** Two visits with the same kept entries are seen alike. */
  ghost predicate Alike(c: Visit, d: Visit) { c.value.Obj? && d.value.Obj? && c.erasing == d.erasing && Kept(c) == Kept(d) }

  lemma AlikeChildren(c: Visit, d: Visit)
    requires Alike(c, d)
    ensures ChildCount(c) == ChildCount(d) && forall k | 0 <= k < ChildCount(c) :: Child(c, k) == Child(d, k)
    ensures OwnInline(c) == OwnInline(d)
  {
  }

  lemma {:induction false} AlikeNodes(c: Visit, d: Visit, k: nat)
    requires Alike(c, d) && k <= ChildCount(c) == ChildCount(d)
    ensures NodesUpTo(c, k) == NodesUpTo(d, k)
  {
    hide Alike, Child;
    if k > 0 {
      AlikeNodes(c, d, k - 1);
      AlikeChildren(c, d);
    }
  }

  lemma AlikeErase(c: Visit, d: Visit)
    requires Alike(c, d)
    ensures Erase(c) == Erase(d)
  {
    AlikeChildren(c, d);
    hide Child;
    assert Erase(c).entries == Erase(d).entries;
  }

  lemma AlikeShape(c: Visit, d: Visit)
    requires Alike(c, d)
    ensures forall n: int :: Within(c, n) <==> Within(d, n)
    ensures Stray(c) <==> Stray(d)
    ensures Inlines(c) == Inlines(d)
  {
    AlikeChildren(c, d);
    hide Child, ChildCount, OwnInline;
  }

  lemma AlikeTracks(c: Visit, d: Visit, v: Json, ids: Naming)
    requires Alike(c, d) && Tracks(d, v, ids)
    ensures Tracks(c, v, ids)
  {
    AlikeChildren(c, d);
    AlikeNodes(c, d, ChildCount(c));
    AlikeErase(c, d);
    AlikeShape(c, d);
  }

  // ----- the compiled parameters -----

  lemma CompiledText(v: Json, ids: Naming, t: Text)
    ensures Compile(v, ids) == Str(t) <==> v == Str(t)
  {
  }

  lemma CompiledStrings(v: Json, ids: Naming)
    ensures Compile(v, ids).Arr? <==> v.Arr?
    ensures Compile(v, ids).Obj? <==> v.Obj?
    ensures v.Arr? && AllStrings(v.items) ==> Compile(v, ids) == v
    ensures v.Arr? && AllStrings(Compile(v, ids).items) ==> Compile(v, ids) == v
  {
    if v.Arr? {
      var w := Compile(v, ids);
      assert |w.items| == |v.items| && forall i | 0 <= i < |v.items| :: w.items[i] == Compile(v.items[i], ids);
      if AllStrings(v.items) || AllStrings(w.items) {
        forall i | 0 <= i < |v.items| ensures w.items[i] == v.items[i] {
          assert w.items[i] == Compile(v.items[i], ids);
        }
        assert w.items == v.items;
      }
    }
  }

  /** Looking up a name other than "conditionParams" in compiled entries. */
  lemma LookupOther(entries: seq<Entry>, ids: Naming, name: Text)
    requires name != Ascii("conditionParams")
    ensures var w := Compile(Obj(entries), ids).entries;
            && (Lookup(w, name).Some? <==> Lookup(entries, name).Some?)
            && (Lookup(entries, name).Some? ==> Lookup(w, name).value == Compile(Lookup(entries, name).value, ids))
  {
    var w := Compile(Obj(entries), ids).entries;
    LookupCompiled(entries, entries, w, ids, name);
  }

  lemma PlainStays(fields: seq<Entry>, ids: Naming, more: seq<Entry>)
    requires more == [] || (|more| == 1 && more[0].name == Ascii("list_id"))
    ensures var w := Compile(Obj(fields), ids).entries + more;
            && (Plain(w) <==> Plain(fields))
            && (Plain(fields) ==> AddressesOf(w) == AddressesOf(fields))
  {
    NamesDiffer();
    var w := Compile(Obj(fields), ids).entries;
    hide Ascii, Compile;
    LookupOther(fields, ids, Ascii("use_descriptor"));
    LookupOther(fields, ids, Ascii("addresses"));
    LookupAppended(w, more, Ascii("use_descriptor"));
    LookupAppended(w, more, Ascii("addresses"));
    if Lookup(fields, Ascii("addresses")).Some? {
      CompiledStrings(Lookup(fields, Ascii("addresses")).value, ids);
    }
  }

  /** The checker's view of an object as a condition is the written-out one. */
  lemma ParamsMean(entries: seq<Entry>)
    ensures InlineParams(entries).Some? <==>
              && Lookup(entries, Ascii("conditionParams")).Some?
              && IsParams(entries, Entry(Ascii("conditionParams"), Lookup(entries, Ascii("conditionParams")).value))
    ensures InlineParams(entries).Some? ==>
              && InlineParams(entries).value == Lookup(entries, Ascii("conditionParams")).value.entries
              && InlineOf(InlineParams(entries).value).addresses == AddressesOf(InlineParams(entries).value)
  {
  }

  /** Names are distinct, so the parameters are found by name. */
  lemma ParamsAt(entries: seq<Entry>, i: nat)
    requires DistinctNames(entries) && i < |entries|
    ensures InlineParams(entries).Some? && entries[i].name == Ascii("conditionParams") <==> IsParams(entries, entries[i])
    ensures IsParams(entries, entries[i]) ==>
              && InlineParams(entries).value == entries[i].value.entries
              && InlineOf(entries[i].value.entries).addresses == AddressesOf(entries[i].value.entries)
  {
    hide InlineParams, IsParams, Ascii;
    ParamsMean(entries);
    LookupAt(entries, i);
    assert IsParams(entries, entries[i]) ==> entries[i].name == Ascii("conditionParams") by { ParamsName(entries, entries[i]); }
  }

  lemma ParamsName(entries: seq<Entry>, e: Entry)
    ensures IsParams(entries, e) ==> e.name == Ascii("conditionParams") && e.value.Obj? && Plain(e.value.entries)
  {
  }

  lemma CompiledNames(entries: seq<Entry>, ids: Naming)
    requires DistinctNames(entries) && forall i | 0 <= i < |entries| :: entries[i].name != Ascii("list_id")
    ensures var w := Compile(Obj(entries), ids).entries;
            && |w| == |entries| && DistinctNames(w)
            && forall i | 0 <= i < |w| :: w[i].name == entries[i].name && w[i].value == CompileEntry(entries, entries[i], ids)
                                          && w[i].name != Ascii("list_id")
  {
  }

  /** Compiling keeps which entry holds the parameters of a set. */
  lemma ParamsStay(entries: seq<Entry>, ids: Naming, i: nat)
    requires DistinctNames(entries) && i < |entries| && forall j | 0 <= j < |entries| :: entries[j].name != Ascii("list_id")
    ensures var w := Compile(Obj(entries), ids).entries;
            i < |w| && (IsParams(w, w[i]) <==> IsParams(entries, entries[i]))
  {
    NamesDiffer();
    var w := Compile(Obj(entries), ids).entries;
    CompiledNames(entries, ids);
    LookupOther(entries, ids, Ascii("type"));
    LookupOther(entries, ids, Ascii("conditionType"));
    TextStays(entries, ids, Ascii("type"), Ascii("condition"));
    TextStays(entries, ids, Ascii("conditionType"), Ascii("OUTPUT_DEST_IS_IN_SETS"));
    var e := entries[i];
    assert w[i].value == CompileEntry(entries, e, ids);
    CompiledStrings(e.value, ids);
    if e.value.Obj? {
      PlainStays(e.value.entries, ids, []);
      PlainStays(e.value.entries, ids, IdEntry(ids, AddressesOf(e.value.entries)));
      assert Compile(e.value, ids).entries + [] == Compile(e.value, ids).entries;
    }
  }

  lemma TextStays(entries: seq<Entry>, ids: Naming, name: Text, t: Text)
    requires name != Ascii("conditionParams")
    ensures Lookup(Compile(Obj(entries), ids).entries, name) == Some(Str(t)) <==> Lookup(entries, name) == Some(Str(t))
  {
    LookupOther(entries, ids, name);
    if Lookup(entries, name).Some? {
      CompiledText(Lookup(entries, name).value, ids, t);
    }
  }

  // ----- the compiled tree -----

  /** The compiled parameters, seen without their id, are the compiled object. */
  lemma ParamsVisit(fields: seq<Entry>, ids: Naming)
    requires DistinctNames(fields) && forall i | 0 <= i < |fields| :: fields[i].name != Ascii("list_id")
    ensures var w := Compile(Obj(fields), ids);
            Alike(Visit(Obj(w.entries + IdEntry(ids, AddressesOf(fields))), true, true), Visit(w, false, true))
  {
    var w := Compile(Obj(fields), ids);
    CompiledNames(fields, ids);
    WithoutLast(w.entries, IdEntry(ids, AddressesOf(fields)), ListId());
  }

  /** The k-th child of a compiled object is what the k-th entry compiles to. */
  lemma ObjectChild(entries: seq<Entry>, ids: Naming, k: nat)
    requires DistinctNames(entries) && k < |entries| && forall i | 0 <= i < |entries| :: entries[i].name != Ascii("list_id")
    ensures var c := Visit(Compile(Obj(entries), ids), false, true);
            && ChildCount(c) == |entries|
            && Child(c, k) == Visit(CompileEntry(entries, entries[k], ids), IsParams(entries, entries[k]), true)
  {
    hide IsParams, InlineParams, CompileEntry;
    var w := Compile(Obj(entries), ids).entries;
    CompiledNames(entries, ids);
    ParamsStay(entries, ids, k);
    ParamsAt(w, k);
  }

  lemma {:induction false} CompiledTracks(v: Json, ids: Naming)
    requires WellFormed(v) && Unnamed(v)
    ensures Tracks(Visit(Compile(v, ids), false, true), v, ids)
    decreases v
  {
    var c := Visit(Compile(v, ids), false, true);
    match v
    case Arr(items) =>
      forall k | 0 <= k < |items| ensures Tracks(Child(c, k), items[k], ids) {
        CompiledTracks(items[k], ids);
      }
      ArrayTracks(c, items, ids);
    case Obj(entries) =>
      forall k | 0 <= k < |entries| ensures k < ChildCount(c) && Tracks(Child(c, k), entries[k].value, ids) {
        ObjectChild(entries, ids, k);
        EntryTracks(v, k, ids);
      }
      ObjectTracks(c, v, ids);
    case _ =>
  }

  lemma {:induction false} EntryTracks(v: Json, k: nat, ids: Naming)
    requires v.Obj? && WellFormed(v) && Unnamed(v) && k < |v.entries|
    ensures Tracks(Visit(CompileEntry(v.entries, v.entries[k], ids), IsParams(v.entries, v.entries[k]), true), v.entries[k].value, ids)
    decreases v, 0
  {
    var e := v.entries[k];
    CompiledTracks(e.value, ids);
    if IsParams(v.entries, e) {
      ParamsVisit(e.value.entries, ids);
      AlikeTracks(Visit(CompileEntry(v.entries, e, ids), true, true), Visit(Compile(e.value, ids), false, true), e.value, ids);
    }
  }

  lemma {:induction false} ArrayCount(c: Visit, items: seq<Json>, k: nat)
    requires k <= |items| <= ChildCount(c) && forall j | 0 <= j < |items| :: Nodes(Child(c, j)) == NodeCount(items[j])
    ensures NodesUpTo(c, k) == ItemCount(items[..k])
  {
    hide Child, ChildCount, Nodes, NodeCount;
    if k > 0 {
      ArrayCount(c, items, k - 1);
      assert items[..k][..k - 1] == items[..k - 1];
    }
  }

  lemma {:induction false} ObjectCount(c: Visit, entries: seq<Entry>, k: nat)
    requires k <= |entries| <= ChildCount(c) && forall j | 0 <= j < |entries| :: Nodes(Child(c, j)) == NodeCount(entries[j].value)
    ensures NodesUpTo(c, k) == EntryCount(entries[..k])
  {
    hide Child, ChildCount, Nodes, NodeCount;
    if k > 0 {
      ObjectCount(c, entries, k - 1);
      assert entries[..k][..k - 1] == entries[..k - 1];
    }
  }

  /** The id the checker sees at an address list. */
  function IdOf(ids: Naming, addresses: seq<Json>): Option<Json> {
    if ids.Some? then Some(Str(ids.value(addresses))) else None
  }

  lemma ArrayTracks(c: Visit, items: seq<Json>, ids: Naming)
    requires c.value.Arr? && |c.value.items| == |items|
    requires forall k | 0 <= k < |items| :: Tracks(Child(c, k), items[k], ids)
    ensures Tracks(c, Arr(items), ids)
  {
    hide Child, IdOf;
    assert Erase(c) == Arr(items) by {
      assert forall k | 0 <= k < |items| :: Erase(Child(c, k)) == items[k];
      assert Erase(c).items == items;
    }
    ArrayCount(c, items, |items|);
    assert items[..|items|] == items;
    assert !Stray(c) && forall d: int :: Within(c, d) <==> DeepAtMost(Arr(items), d) by { hide Kept; }
    ArrayInlines(c, items, ids);
  }

  lemma ItemLists(items: seq<Json>, a: seq<Json>)
    ensures a in Lists(Arr(items)) <==> exists i | 0 <= i < |items| :: a in Lists(items[i])
  {
  }

  lemma TrackedInline(c: Visit, v: Json, ids: Naming, x: Inline)
    requires Tracks(c, v, ids)
    ensures x in Inlines(c) <==> x.addresses in Lists(v) && x.id == IdOf(ids, x.addresses)
  {
    hide Inlines, Lists, IdOf, Nodes, NodeCount, Erase, Within, Stray;
  }

  lemma ArrayInlines(c: Visit, items: seq<Json>, ids: Naming)
    requires c.value.Arr? && |c.value.items| == |items|
    requires forall k | 0 <= k < |items| :: Tracks(Child(c, k), items[k], ids)
    ensures Inlines(c) == set a | a in Lists(Arr(items)) :: Inline(IdOf(ids, a), a)
  {
    assert OwnInline(c) == {} && ChildCount(c) == |items|;
    hide Child, ChildCount, OwnInline, IdOf, Lists, Tracks;
    var named := set a | a in Lists(Arr(items)) :: Inline(IdOf(ids, a), a);
    forall x ensures x in Inlines(c) <==> x in named {
      ItemLists(items, x.addresses);
      forall k | 0 <= k < |items|
        ensures x in Inlines(Child(c, k)) <==> x.addresses in Lists(items[k]) && x.id == IdOf(ids, x.addresses)
      {
        TrackedInline(Child(c, k), items[k], ids, x);
      }
    }
  }

  /** The id of a compiled inline set is the one the compiler gave it. */
  lemma OwnAt(v: Json, ids: Naming, i: nat)
    requires v.Obj? && WellFormed(v) && Unnamed(v) && i < |v.entries| && IsParams(v.entries, v.entries[i])
    ensures var a := AddressesOf(v.entries[i].value.entries);
            OwnInline(Visit(Compile(v, ids), false, true)) == {Inline(IdOf(ids, a), a)}
  {
    NamesDiffer();
    hide IsParams, InlineParams, Ascii, Plain, AddressesOf;
    var entries, w := v.entries, Compile(v, ids).entries;
    ParamsName(entries, entries[i]);
    var fields := entries[i].value.entries;
    var added := IdEntry(ids, AddressesOf(fields));
    CompiledNames(entries, ids);
    ParamsStay(entries, ids, i);
    ParamsAt(w, i);
    assert w[i].value == Obj(Compile(Obj(fields), ids).entries + added);
    PlainStays(fields, ids, added);
    UnnamedFields(fields, ids);
    LookupAppended(Compile(Obj(fields), ids).entries, added, ListId());
    LookupAbsent(Compile(Obj(fields), ids).entries, ListId());
  }

  lemma UnnamedFields(fields: seq<Entry>, ids: Naming)
    requires WellFormed(Obj(fields)) && Unnamed(Obj(fields))
    ensures var w := Compile(Obj(fields), ids).entries;
            forall i | 0 <= i < |w| :: w[i].name != ListId()
  {
    CompiledNames(fields, ids);
  }

  /** Only an object with the parameters of a set has an inline set of its own. */
  lemma OwnNone(v: Json, ids: Naming)
    requires v.Obj? && WellFormed(v) && Unnamed(v)
    requires forall i | 0 <= i < |v.entries| :: !IsParams(v.entries, v.entries[i])
    ensures OwnInline(Visit(Compile(v, ids), false, true)) == {}
  {
    var entries, w := v.entries, Compile(v, ids).entries;
    hide IsParams, InlineParams, Compile, CompileEntry;
    if InlineParams(w).Some? {
      ParamsMean(w);
      CompiledNames(entries, ids);
      LookupCompiled(entries, entries, w, ids, Ascii("conditionParams"));
      var i :| 0 <= i < |entries| && entries[i].name == Ascii("conditionParams")
               && Lookup(w, Ascii("conditionParams")) == Some(w[i].value);
      assert w[i] == Entry(Ascii("conditionParams"), w[i].value);
      ParamsStay(entries, ids, i);
    }
  }

  lemma OwnTracks(v: Json, ids: Naming, x: Inline)
    requires v.Obj? && WellFormed(v) && Unnamed(v)
    ensures x in OwnInline(Visit(Compile(v, ids), false, true)) <==>
              exists i | 0 <= i < |v.entries| ::
                IsParams(v.entries, v.entries[i]) && x == Inline(IdOf(ids, AddressesOf(v.entries[i].value.entries)), AddressesOf(v.entries[i].value.entries))
  {
    hide IsParams, OwnInline, AddressesOf, IdOf, Compile;
    if i :| 0 <= i < |v.entries| && IsParams(v.entries, v.entries[i]) {
      OwnAt(v, ids, i);
      forall j | 0 <= j < |v.entries| && IsParams(v.entries, v.entries[j]) ensures j == i {
        ParamsName(v.entries, v.entries[i]);
        ParamsName(v.entries, v.entries[j]);
      }
    } else {
      OwnNone(v, ids);
    }
  }

  /** The address lists of an object are its own and those of its entries. */
  lemma ListsSplit(v: Json, a: seq<Json>)
    requires v.Obj?
    ensures a in Lists(v) <==>
              || (exists i | 0 <= i < |v.entries| :: IsParams(v.entries, v.entries[i]) && a == AddressesOf(v.entries[i].value.entries))
              || (exists i | 0 <= i < |v.entries| :: a in Lists(v.entries[i].value))
  {
  }

  lemma ObjectTracks(c: Visit, v: Json, ids: Naming)
    requires v.Obj? && WellFormed(v) && Unnamed(v) && c == Visit(Compile(v, ids), false, true)
    requires ChildCount(c) == |v.entries|
    requires forall k | 0 <= k < |v.entries| :: Tracks(Child(c, k), v.entries[k].value, ids)
    ensures Tracks(c, v, ids)
  {
    var entries, w := v.entries, Compile(v, ids).entries;
    CompiledNames(entries, ids);
    assert !OwnStray(c) by { LookupAbsent(w, ListId()); }
    assert Erase(c) == v by {
      hide Child;
      assert forall k | 0 <= k < |entries| :: Erase(Child(c, k)) == entries[k].value;
      assert Erase(c).entries == entries;
    }
    hide Child, Compile, OwnInline, IsParams;
    ObjectCount(c, entries, |entries|);
    assert entries[..|entries|] == entries;
    assert !Stray(c) && forall d: int :: Within(c, d) <==> DeepAtMost(v, d) by { hide Kept, CompileEntry; }
    ObjectInlines(c, v, ids);
  }

  lemma ObjectInlines(c: Visit, v: Json, ids: Naming)
    requires v.Obj? && WellFormed(v) && Unnamed(v) && c == Visit(Compile(v, ids), false, true)
    requires ChildCount(c) == |v.entries|
    requires forall k | 0 <= k < |v.entries| :: Tracks(Child(c, k), v.entries[k].value, ids)
    ensures Inlines(c) == set a | a in Lists(v) :: Inline(IdOf(ids, a), a)
  {
    hide Child, ChildCount, Compile, OwnInline, IsParams, Lists, AddressesOf, IdOf, WellFormed, Unnamed, Tracks;
    var named := set a | a in Lists(v) :: Inline(IdOf(ids, a), a);
    forall x ensures x in Inlines(c) <==> x in named {
      OwnTracks(v, ids, x);
      ListsSplit(v, x.addresses);
      forall k | 0 <= k < |v.entries|
        ensures x in Inlines(Child(c, k)) <==> x.addresses in Lists(v.entries[k].value) && x.id == IdOf(ids, x.addresses)
      {
        TrackedInline(Child(c, k), v.entries[k].value, ids, x);
      }
    }
  }

  // ----- the request -----

  ghost predicate Seen(v: Json) {
    && Nodes(Visit(v, false, false)) == NodeCount(v)
    && (forall d: int :: Within(Visit(v, false, false), d) <==> DeepAtMost(v, d))
    && (Stray(Visit(v, false, false)) <==> !Unnamed(v))
  }

  lemma RequestShape(r: Visit, parts: seq<Json>)
    requires ChildCount(r) == |parts|
    requires forall k | 0 <= k < |parts| :: Child(r, k) == Visit(parts[k], false, false) && Seen(parts[k])
    ensures forall d: int :: Within(r, d) <==> d >= 0 && forall k | 0 <= k < |parts| :: DeepAtMost(parts[k], d - 1)
    ensures Stray(r) <==> OwnStray(r) || exists k | 0 <= k < |parts| :: !Unnamed(parts[k])
  {
    hide ChildCount, Child, Kept, DeepAtMost, Unnamed;
    if Stray(r) && !OwnStray(r) {
      var k :| 0 <= k < ChildCount(r) && Stray(Child(r, k));
      assert !Unnamed(parts[k]);
    }
    if k :| 0 <= k < |parts| && !Unnamed(parts[k]) {
      assert Stray(Child(r, k));
    }
  }

  lemma ArraySeen(items: seq<Json>)
    requires forall k | 0 <= k < |items| :: Seen(items[k])
    ensures Seen(Arr(items))
  {
    hide Seen;
    var r := Visit(Arr(items), false, false);
    assert forall k | 0 <= k < |items| :: Child(r, k) == Visit(items[k], false, false);
    SeenCounts(items);
    ArrayCount(r, items, |items|);
    assert items[..|items|] == items;
    RequestShape(r, items);
    assert !OwnStray(r);
    hide Child, OwnStray;
    assert Seen(Arr(items)) by { SeenFrom(Arr(items)); }
  }

  lemma SeenCounts(parts: seq<Json>)
    requires forall k | 0 <= k < |parts| :: Seen(parts[k])
    ensures forall k | 0 <= k < |parts| :: Nodes(Visit(parts[k], false, false)) == NodeCount(parts[k])
  {
    hide Nodes, NodeCount;
  }

  lemma SeenFrom(v: Json)
    requires Nodes(Visit(v, false, false)) == NodeCount(v)
    requires forall d: int :: Within(Visit(v, false, false), d) <==> DeepAtMost(v, d)
    requires Stray(Visit(v, false, false)) <==> !Unnamed(v)
    ensures Seen(v)
  {
  }

  lemma ObjectSeen(entries: seq<Entry>)
    requires forall k | 0 <= k < |entries| :: Seen(entries[k].value)
    ensures Seen(Obj(entries))
  {
    hide Seen;
    ObjectNodes(entries);
    ObjectShape(entries);
    SeenFrom(Obj(entries));
  }

  lemma ObjectNodes(entries: seq<Entry>)
    requires forall k | 0 <= k < |entries| :: Seen(entries[k].value)
    ensures Nodes(Visit(Obj(entries), false, false)) == NodeCount(Obj(entries))
  {
    var r := Visit(Obj(entries), false, false);
    forall k | 0 <= k < |entries| ensures Nodes(Child(r, k)) == NodeCount(entries[k].value) {
      assert Child(r, k) == Visit(entries[k].value, false, false);
      assert Seen(entries[k].value);
    }
    ObjectCount(r, entries, |entries|);
    assert entries[..|entries|] == entries;
  }

  lemma ObjectShape(entries: seq<Entry>)
    requires forall k | 0 <= k < |entries| :: Seen(entries[k].value)
    ensures forall d: int :: Within(Visit(Obj(entries), false, false), d) <==> DeepAtMost(Obj(entries), d)
    ensures Stray(Visit(Obj(entries), false, false)) <==> !Unnamed(Obj(entries))
  {
    hide Seen, Within, Stray;
    var r := Visit(Obj(entries), false, false);
    var parts := seq(|entries|, k requires 0 <= k < |entries| => entries[k].value);
    assert forall k | 0 <= k < |entries| :: Child(r, k) == Visit(entries[k].value, false, false);
    RequestShape(r, parts);
    LookupName(entries, ListId());
    hide Child;
  }

  lemma {:induction false} RequestSeen(v: Json)
    ensures Seen(v)
  {
    hide Seen;
    match v
    case Arr(items) =>
      forall k | 0 <= k < |items| ensures Seen(items[k]) {
        RequestSeen(items[k]);
      }
      ArraySeen(items);
    case Obj(entries) =>
      forall k | 0 <= k < |entries| ensures Seen(entries[k].value) {
        RequestSeen(entries[k].value);
      }
      ObjectSeen(entries);
    case _ =>
      SeenFrom(v);
  }

  lemma {:induction false} LookupName(entries: seq<Entry>, name: Text)
    ensures Lookup(entries, name).Some? <==> exists i | 0 <= i < |entries| :: entries[i].name == name
  {
    if entries != [] && entries[0].name != name {
      LookupName(entries[1..], name);
      forall i | 0 < i < |entries| ensures entries[i] == entries[1..][i - 1] {
      }
    }
  }

  // ----- what stands -----

  lemma EmbeddedMeans(t: Text)
    ensures WellFormedId(Str(t)) <==> EmbeddedId(t)
  {
  }

  /** The ids are consistent exactly when they are embedded ids, one to a list. */
  lemma NamesMean(ids: Naming, lists: set<seq<Json>>, named: set<Inline>)
    requires named == set a | a in lists :: Inline(IdOf(ids, a), a)
    ensures AllOrNone(named)
    ensures Consistent(named) <==> NamesApart(ids, lists)
  {
    hide WellFormedId, EmbeddedId;
    if Consistent(named) && ids.Some? {
      forall a | a in lists ensures EmbeddedId(ids.value(a)) {
        assert Inline(IdOf(ids, a), a) in named;
        EmbeddedMeans(ids.value(a));
      }
      forall a, b | a in lists && b in lists && ids.value(a) == ids.value(b) ensures a == b {
        assert Inline(IdOf(ids, a), a) in named && Inline(IdOf(ids, b), b) in named;
      }
    }
    if NamesApart(ids, lists) {
      forall x | x in named && x.id.Some? ensures WellFormedId(x.id.value) {
        EmbeddedMeans(ids.value(x.addresses));
      }
    }
  }

  lemma SameSelf(v: Json)
    ensures Same(v, v)
  {
    OneCanonIsSame((a, b) => false, v, v);
  }

  /** Whatever ids the compiler gives the inline sets of a request, or none, its
      tree stands for the request exactly when the request names no list id
      itself and keeps within 4096 nodes and 32 levels, and the ids are embedded
      ids, no two lists sharing one. */
  lemma CompiledStands(requested: Json, ids: Naming)
    requires WellFormed(requested)
    ensures Stands(requested, Compile(requested, ids)) <==>
              Unnamed(requested) && NodeCount(requested) <= 4096 && DeepAtMost(requested, 32)
              && NamesApart(ids, Lists(requested))
  {
    hide Compile, Lists, Unnamed, NodeCount, DeepAtMost, Consistent, AllOrNone, Nodes, Within, Stray, Inlines, Erase, WellFormed, NamesApart;
    RequestSeen(requested);
    if Unnamed(requested) {
      CompiledTracks(requested, ids);
      SameSelf(requested);
      NamesMean(ids, Lists(requested), Inlines(Visit(Compile(requested, ids), false, true)));
    }
  }

  lemma {:induction false} CompileWellFormed(v: Json, ids: Naming)
    requires WellFormed(v) && Unnamed(v)
    ensures WellFormed(Compile(v, ids))
  {
    match v
    case Arr(items) =>
      forall i | 0 <= i < |items| ensures WellFormed(Compile(items[i], ids)) {
        CompileWellFormed(items[i], ids);
      }
    case Obj(entries) =>
      CompiledNames(entries, ids);
      forall i | 0 <= i < |entries| ensures WellFormed(CompileEntry(entries, entries[i], ids)) {
        CompileWellFormed(entries[i].value, ids);
        if IsParams(entries, entries[i]) {
          CompiledNames(entries[i].value.entries, ids);
        }
      }
    case _ =>
  }

  // ----- list ids the compiler never writes -----

  /** Some list id lies outside the parameters of an inline set. */
  predicate Misplaced(v: Json, params: bool) {
    match v
    case Arr(items) => exists i | 0 <= i < |items| :: Misplaced(items[i], false)
    case Obj(entries) =>
      exists i | 0 <= i < |entries| ::
        if entries[i].name == Ascii("list_id") then !params
        else Misplaced(entries[i].value, IsParams(entries, entries[i]))
    case _ => false
  }

  /** Some inline set has a list id that is not an embedded id. */
  predicate Misnamed(v: Json) {
    match v
    case Arr(items) => exists i | 0 <= i < |items| :: Misnamed(items[i])
    case Obj(entries) =>
      exists i | 0 <= i < |entries| ::
        || (IsParams(entries, entries[i]) && BadId(entries[i].value.entries))
        || (entries[i].name != Ascii("list_id") && Misnamed(entries[i].value))
    case _ => false
  }

  predicate BadId(fields: seq<Entry>) {
    match Lookup(fields, Ascii("list_id"))
    case Some(Str(id)) => !EmbeddedId(id)
    case Some(_) => true
    case None => false
  }

  lemma {:induction false} LookupKept(entries: seq<Entry>, name: Text)
    requires name != ListId()
    ensures Lookup(Without(entries, ListId()), name) == Lookup(entries, name)
  {
    if entries != [] {
      LookupKept(entries[1..], name);
      assert Without(entries, ListId()) != [] && entries[0].name != ListId() ==>
          Without(entries, ListId())[1..] == Without(entries[1..], ListId());
    }
  }

  lemma {:induction false} KeptHas(entries: seq<Entry>, e: Entry)
    requires e in entries && e.name != ListId()
    ensures e in Without(entries, ListId())
  {
    if entries[0] != e {
      KeptHas(entries[1..], e);
    }
  }

  lemma KeptAt(v: Visit, i: nat) returns (k: nat)
    requires v.value.Obj? && i < |v.value.entries| && v.value.entries[i].name != ListId()
    ensures k < |Kept(v)| && Kept(v)[k] == v.value.entries[i]
  {
    if v.stripped {
      KeptHas(v.value.entries, v.value.entries[i]);
    }
    k :| 0 <= k < |Kept(v)| && Kept(v)[k] == v.value.entries[i];
  }

  /** Stripping an object leaves the parameters of its inline set in place. */
  lemma StrippedParams(v: Visit, i: nat)
    requires v.value.Obj? && WellFormed(v.value) && v.erasing && i < |v.value.entries|
    ensures ChildOf(v, v.value.entries[i]) == Visit(v.value.entries[i].value, IsParams(v.value.entries, v.value.entries[i]), true)
    ensures IsParams(v.value.entries, v.value.entries[i]) ==> OwnInline(v) == {InlineOf(v.value.entries[i].value.entries)}
  {
    NamesDiffer();
    var entries := v.value.entries;
    LookupKept(entries, Ascii("type"));
    LookupKept(entries, Ascii("conditionType"));
    LookupKept(entries, Ascii("conditionParams"));
    assert InlineParams(Kept(v)) == InlineParams(entries) by { hide Ascii; }
    ParamsAt(entries, i);
  }

  lemma {:induction false} MisplacedStrays(v: Visit)
    requires WellFormed(v.value) && v.erasing && Misplaced(v.value, v.stripped)
    ensures Stray(v)
    decreases v.value
  {
    match v.value
    case Arr(items) =>
      var i :| 0 <= i < |items| && Misplaced(items[i], false);
      MisplacedStrays(Child(v, i));
    case Obj(entries) =>
      var i :| 0 <= i < |entries| && if entries[i].name == Ascii("list_id") then !v.stripped
                                     else Misplaced(entries[i].value, IsParams(entries, entries[i]));
      if entries[i].name == ListId() {
        LookupName(entries, ListId());
      } else {
        var k := KeptAt(v, i);
        StrippedParams(v, i);
        MisplacedStrays(Child(v, k));
      }
  }

  lemma {:induction false} MisnamedFound(v: Visit) returns (x: Inline)
    requires WellFormed(v.value) && v.erasing && Misnamed(v.value)
    ensures x in Inlines(v) && x.id.Some? && !WellFormedId(x.id.value)
    decreases v.value
  {
    match v.value
    case Arr(items) =>
      var i :| 0 <= i < |items| && Misnamed(items[i]);
      x := MisnamedFound(Child(v, i));
    case Obj(entries) =>
      var i :| 0 <= i < |entries| && ((IsParams(entries, entries[i]) && BadId(entries[i].value.entries))
                                      || (entries[i].name != Ascii("list_id") && Misnamed(entries[i].value)));
      StrippedParams(v, i);
      if IsParams(entries, entries[i]) && BadId(entries[i].value.entries) {
        x := InlineOf(entries[i].value.entries);
        if x.id.value.Str? {
          EmbeddedMeans(x.id.value.text);
        }
      } else {
        var k := KeptAt(v, i);
        x := MisnamedFound(Child(v, k));
      }
  }

  /** A list id anywhere but in the parameters of an inline set (another
      conditionType, a "use_descriptor", an empty or mixed list) is refused, and
      so is one that is not "policy_embedded_" and three digits. */
  lemma ForeignIdsRefused(requested: Json, compiled: Json)
    requires WellFormed(compiled) && (Misplaced(compiled, false) || Misnamed(compiled))
    ensures !Stands(requested, compiled)
  {
    var tree := Visit(compiled, false, true);
    if Misplaced(compiled, false) {
      MisplacedStrays(tree);
    } else {
      var x := MisnamedFound(tree);
    }
  }
}

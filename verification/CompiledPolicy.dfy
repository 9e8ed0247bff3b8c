/** assertCompiledSigbashPolicy (src/sigbash-policy.ts): which compiled trees
    stand for the requested policy. */
module CompiledPolicy {
  import opened Wrappers
  import opened Json
  import opened JsonProofs

  function Ascii(s: string): Text { seq(|s|, i requires 0 <= i < |s| => (s[i] as int) % 0x10000) }

  function ListId(): Text { Ascii("list_id") }
  function ConditionParams(): Text { Ascii("conditionParams") }
  function AddressesName(): Text { Ascii("addresses") }
  function UseDescriptor(): Text { Ascii("use_descriptor") }
  function IdPrefix(): Text { Ascii("policy_embedded_") }

  const MAX_NODES: nat := 4096
  const MAX_DEPTH: nat := 32

  /** ^policy_embedded_[0-9]{3}$ */
  predicate WellFormedId(id: Json) {
    && id.Str? && |id.text| == |IdPrefix()| + 3
    && id.text[..|IdPrefix()|] == IdPrefix()
    && forall i | |IdPrefix()| <= i < |id.text| :: Digit(id.text[i])
  }

  // ----- inline address sets -----

  predicate AllStrings(items: seq<Json>) { forall i | 0 <= i < |items| :: items[i].Str? }

  /** The parameters of an inline output address set, if this object is one. */
  function InlineParams(entries: seq<Entry>): Option<seq<Entry>> {
    if Lookup(entries, Ascii("type")) == Some(Str(Ascii("condition")))
       && Lookup(entries, Ascii("conditionType")) == Some(Str(Ascii("OUTPUT_DEST_IS_IN_SETS")))
    then
      match Lookup(entries, ConditionParams())
      case Some(Obj(fields)) =>
        (match Lookup(fields, AddressesName())
         case Some(Arr(addresses)) =>
           if addresses != [] && AllStrings(addresses) && Lookup(fields, UseDescriptor()).None? then Some(fields) else None
         case _ => None)
      case _ => None
    else None
  }

  /** One inline set: its list id, if any, and its addresses. */
  datatype Inline = Inline(id: Option<Json>, addresses: seq<Json>)

  function InlineOf(fields: seq<Entry>): Inline {
    Inline(Lookup(fields, ListId()),
           match Lookup(fields, AddressesName()) case Some(Arr(addresses)) => addresses case _ => [])
  }

  // ----- the walk -----

  /** A value to visit. When `erasing`, the parameters of an inline set are
      visited `stripped`, without their list id. */
  datatype Visit = Visit(value: Json, stripped: bool, erasing: bool)

  function Without(entries: seq<Entry>, name: Text): seq<Entry> {
    if entries == [] then []
    else if entries[0].name == name then Without(entries[1..], name)
    else [entries[0]] + Without(entries[1..], name)
  }

  function Kept(v: Visit): seq<Entry>
    requires v.value.Obj?
  {
    if v.stripped then Without(v.value.entries, ListId()) else v.value.entries
  }

  lemma {:induction false} WithoutIsPart(entries: seq<Entry>, name: Text)
    ensures forall e | e in Without(entries, name) :: e in entries && e.name != name
  {
    if entries != [] {
      WithoutIsPart(entries[1..], name);
    }
  }

  function ChildOf(v: Visit, e: Entry): Visit
    requires v.value.Obj?
  {
    Visit(e.value, v.erasing && InlineParams(Kept(v)).Some? && e.name == ConditionParams(), v.erasing)
  }

  function ChildCount(v: Visit): nat {
    match v.value case Arr(items) => |items| case Obj(_) => |Kept(v)| case _ => 0
  }

  function Child(v: Visit, k: nat): (c: Visit)
    requires k < ChildCount(v)
    ensures c.value < v.value
  {
    match v.value
    case Arr(items) => Visit(items[k], false, v.erasing)
    case Obj(entries) =>
      WithoutIsPart(entries, ListId());
      assert Kept(v)[k] in entries;
      ChildOf(v, Kept(v)[k])
  }

  function Nodes(v: Visit): nat
    decreases v.value, ChildCount(v) + 1
  {
    1 + NodesUpTo(v, ChildCount(v))
  }

  function NodesUpTo(v: Visit, k: nat): nat
    requires k <= ChildCount(v)
    decreases v.value, k
  {
    if k == 0 then 0 else NodesUpTo(v, k - 1) + Nodes(Child(v, k - 1))
  }

  /** No part lies more than d levels down. */
  predicate Within(v: Visit, d: int)
    decreases v.value
  {
    d >= 0 && forall k | 0 <= k < ChildCount(v) :: Within(Child(v, k), d - 1)
  }

  /** Some visited object carries a list id. */
  predicate Stray(v: Visit)
    decreases v.value
  {
    || (v.value.Obj? && Lookup(Kept(v), ListId()).Some?)
    || exists k | 0 <= k < ChildCount(v) :: Stray(Child(v, k))
  }

  function OwnInline(v: Visit): set<Inline> {
    if v.value.Obj? && InlineParams(Kept(v)).Some?
    then {InlineOf(InlineParams(Kept(v)).value)}
    else {}
  }

  /** The inline sets of a tree, without any order. */
  function Inlines(v: Visit): set<Inline>
    decreases v.value
  {
    OwnInline(v) + set k, x | 0 <= k < ChildCount(v) && x in Inlines(Child(v, k)) :: x
  }

  /** The tree with the list ids of its inline sets erased. */
  function Erase(v: Visit): Json
    decreases v.value
  {
    match v.value
    case Arr(items) => Arr(seq(|items|, k requires 0 <= k < |items| => Erase(Child(v, k))))
    case Obj(_) => Obj(seq(|Kept(v)|, k requires 0 <= k < |Kept(v)| => Entry(Kept(v)[k].name, Erase(Child(v, k)))))
    case _ => v.value
  }

  /** Ids are well formed, and ids and address lists determine each other. */
  ghost predicate Consistent(inlines: set<Inline>) {
    && (forall x | x in inlines && x.id.Some? :: WellFormedId(x.id.value))
    && (forall x, y | x in inlines && y in inlines && x.id.Some? && y.id.Some? ::
          x.id == y.id <==> x.addresses == y.addresses)
  }

  ghost predicate AllOrNone(inlines: set<Inline>) {
    (forall x | x in inlines :: x.id.Some?) || (forall x | x in inlines :: x.id.None?)
  }

  /** Shallow enough and without stray list ids. */
  predicate Clean(v: Visit, d: int) { Within(v, d) && !Stray(v) }

  /** The declarative verdict: nothing in it depends on a visiting order. */
  ghost predicate Stands(requested: Json, compiled: Json) {
    var request, tree := Visit(requested, false, false), Visit(compiled, false, true);
    && Nodes(request) <= MAX_NODES && Clean(request, MAX_DEPTH)
    && Nodes(tree) <= MAX_NODES && Clean(tree, MAX_DEPTH)
    && Consistent(Inlines(tree)) && AllOrNone(Inlines(tree))
    && Same(requested, Erase(tree))
  }

  // ----- the checker as written -----

  /** The key the checker files an address list under. */
  function SetKey(less: Less, addresses: seq<Json>): Text { CanonicalPolicy(less, Arr(addresses)) }

  lemma SetKeyDecides(less: Less, a: seq<Json>, b: seq<Json>)
    requires AllStrings(a) && AllStrings(b)
    ensures SetKey(less, a) == SetKey(less, b) <==> a == b
  {
    if SetKey(less, a) == SetKey(less, b) {
      EqualPrintsAreSame(less, Arr(a), Arr(b));
      assert forall i | 0 <= i < |a| :: Same(a[i], b[i]);
    }
  }

  // ----- one visit at a time -----

  predicate OwnStray(v: Visit) { v.value.Obj? && Lookup(Kept(v), ListId()).Some? }

  ghost predicate ChildrenClean(v: Visit, d: int, k: nat)
    requires k <= ChildCount(v)
  {
    forall j | 0 <= j < k :: Clean(Child(v, j), d - 1)
  }

  lemma CleanSplit(v: Visit, d: int)
    ensures Clean(v, d) <==> d >= 0 && !OwnStray(v) && ChildrenClean(v, d, ChildCount(v))
  {
    hide Child, ChildCount, Kept, Lookup;
  }

  lemma ChildrenCleanStep(v: Visit, d: int, k: nat)
    requires k < ChildCount(v) && ChildrenClean(v, d, k)
    ensures Clean(Child(v, k), d - 1) ==> ChildrenClean(v, d, k + 1)
    ensures !Clean(Child(v, k), d - 1) ==> !ChildrenClean(v, d, ChildCount(v))
  {
    hide Child, ChildCount, Clean;
  }

  lemma NodesSplit(v: Visit, k: nat)
    requires k < ChildCount(v)
    ensures NodesUpTo(v, k + 1) == NodesUpTo(v, k) + Nodes(Child(v, k))
    ensures NodesUpTo(v, k) + Nodes(Child(v, k)) <= Nodes(v) - 1
  {
    NodesGrow(v, k + 1, ChildCount(v));
  }

  /** assertNoRequestedListIds: the walk of the requested policy. */
  class RequestWalk {
    var visited: nat

    constructor ()
      ensures visited == 0
    {
      visited := 0;
    }

    method Walk(v: Visit, depth: nat) returns (ok: bool)
      modifies this
      ensures ok ==> visited == old(visited) + Nodes(v) && visited <= MAX_NODES && Clean(v, MAX_DEPTH - depth)
      ensures !ok ==> old(visited) + Nodes(v) > MAX_NODES || !Clean(v, MAX_DEPTH - depth)
      decreases v.value
    {
      hide Child, ChildCount, Clean, OwnStray, NodesUpTo, ChildrenClean;
      CleanSplit(v, MAX_DEPTH - depth);
      visited := visited + 1;
      if visited > MAX_NODES || depth > MAX_DEPTH || OwnStray(v) {
        return false;
      }
      NoChildrenYet(v, MAX_DEPTH - depth);
      for k := 0 to ChildCount(v)
        invariant visited == old(visited) + 1 + NodesUpTo(v, k) && visited <= MAX_NODES
        invariant ChildrenClean(v, MAX_DEPTH - depth, k)
      {
        NodesSplit(v, k);
        ChildrenCleanStep(v, MAX_DEPTH - depth, k);
        var childOk := Walk(Child(v, k), depth + 1);
        if !childOk {
          return false;
        }
      }
      ok := true;
    }
  }

  lemma NoChildrenYet(v: Visit, d: int)
    ensures NodesUpTo(v, 0) == 0 && ChildrenClean(v, d, 0)
  {
  }

  lemma {:induction false} NodesGrow(v: Visit, j: nat, k: nat)
    requires j <= k <= ChildCount(v)
    ensures NodesUpTo(v, j) <= NodesUpTo(v, k)
  {
    if j < k {
      NodesGrow(v, j, k - 1);
    }
  }

  lemma ConsistentPart(part: set<Inline>, whole: set<Inline>)
    requires part <= whole && Consistent(whole)
    ensures Consistent(part)
  {
  }

  /** `x` agrees with the two maps. */
  predicate Filed(less: Less, idToSet: map<Text, Text>, setToId: map<Text, Text>, x: Inline) {
    x.id.Some? ==>
      && WellFormedId(x.id.value)
      && var id, key := x.id.value.text, SetKey(less, x.addresses);
         id in idToSet && idToSet[id] == key && key in setToId && setToId[key] == id
  }

  /** The maps hold exactly the inline sets seen so far. */
  ghost predicate MapsMatch(less: Less, idToSet: map<Text, Text>, setToId: map<Text, Text>, seen: set<Inline>) {
    && (forall x | x in seen :: AllStrings(x.addresses) && Filed(less, idToSet, setToId, x))
    && (forall id | id in idToSet :: exists x | x in seen :: x.id == Some(Str(id)) && SetKey(less, x.addresses) == idToSet[id])
    && (forall key | key in setToId :: exists x | x in seen :: x.id == Some(Str(setToId[key])) && SetKey(less, x.addresses) == key)
  }

  ghost predicate CountsMatch(inlineSets: nat, identifiers: nat, seen: set<Inline>) {
    && identifiers <= inlineSets
    && (identifiers == 0 <==> forall x | x in seen :: x.id.None?)
    && (identifiers == inlineSets <==> forall x | x in seen :: x.id.Some?)
  }

  lemma MapsAreConsistent(less: Less, idToSet: map<Text, Text>, setToId: map<Text, Text>, seen: set<Inline>)
    requires MapsMatch(less, idToSet, setToId, seen)
    ensures Consistent(seen)
  {
    hide SetKey;
    forall x, y | x in seen && y in seen && x.id.Some? && y.id.Some?
      ensures x.id == y.id <==> x.addresses == y.addresses
    {
      SetKeyDecides(less, x.addresses, y.addresses);
    }
  }

  /** A conflict the maps show is a conflict among the sets. */
  lemma ConflictIsInconsistent(less: Less, idToSet: map<Text, Text>, setToId: map<Text, Text>, seen: set<Inline>, x: Inline)
    requires MapsMatch(less, idToSet, setToId, seen) && AllStrings(x.addresses) && x.id.Some? && x.id.value.Str?
    requires var id, key := x.id.value.text, SetKey(less, x.addresses);
             (id in idToSet && idToSet[id] != key) || (key in setToId && setToId[key] != id)
    ensures !Consistent(seen + {x})
  {
    hide SetKey, WellFormedId;
    var id, key := x.id.value.text, SetKey(less, x.addresses);
    if id in idToSet && idToSet[id] != key {
      var y :| y in seen && y.id == Some(Str(id)) && SetKey(less, y.addresses) == idToSet[id];
      assert y in seen + {x} && x in seen + {x};
    } else {
      var y :| y in seen && y.id == Some(Str(setToId[key])) && SetKey(less, y.addresses) == key;
      SetKeyDecides(less, x.addresses, y.addresses);
      assert y in seen + {x} && x in seen + {x};
    }
  }

  lemma FileOne(less: Less, idToSet: map<Text, Text>, setToId: map<Text, Text>, seen: set<Inline>, x: Inline)
    requires MapsMatch(less, idToSet, setToId, seen) && AllStrings(x.addresses) && x.id.Some? && WellFormedId(x.id.value)
    requires var id, key := x.id.value.text, SetKey(less, x.addresses);
             !((id in idToSet && idToSet[id] != key) || (key in setToId && setToId[key] != id))
    ensures var id, key := x.id.value.text, SetKey(less, x.addresses);
            MapsMatch(less, idToSet[id := key], setToId[key := id], seen + {x})
  {
    hide SetKey;
    var id, key := x.id.value.text, SetKey(less, x.addresses);
    var ids, keys := idToSet[id := key], setToId[key := id];
    forall y | y in seen + {x} ensures AllStrings(y.addresses) && Filed(less, ids, keys, y) {
    }
    forall i | i in ids ensures exists y | y in seen + {x} :: y.id == Some(Str(i)) && SetKey(less, y.addresses) == ids[i] {
      if i == id {
        assert x in seen + {x};
      } else {
        var y :| y in seen && y.id == Some(Str(i)) && SetKey(less, y.addresses) == idToSet[i];
        assert y in seen + {x};
      }
    }
    forall k | k in keys ensures exists y | y in seen + {x} :: y.id == Some(Str(keys[k])) && SetKey(less, y.addresses) == k {
      if k == key {
        assert x in seen + {x};
      } else {
        var y :| y in seen && y.id == Some(Str(setToId[k])) && SetKey(less, y.addresses) == k;
        assert y in seen + {x};
      }
    }
  }

  lemma PassUnnamed(less: Less, idToSet: map<Text, Text>, setToId: map<Text, Text>, seen: set<Inline>, x: Inline)
    requires MapsMatch(less, idToSet, setToId, seen) && AllStrings(x.addresses) && x.id.None?
    ensures MapsMatch(less, idToSet, setToId, seen + {x})
  {
    hide SetKey, WellFormedId;
    forall i | i in idToSet ensures exists y | y in seen + {x} :: y.id == Some(Str(i)) && SetKey(less, y.addresses) == idToSet[i] {
      var y :| y in seen && y.id == Some(Str(i)) && SetKey(less, y.addresses) == idToSet[i];
      assert y in seen + {x};
    }
    forall k | k in setToId ensures exists y | y in seen + {x} :: y.id == Some(Str(setToId[k])) && SetKey(less, y.addresses) == k {
      var y :| y in seen && y.id == Some(Str(setToId[k])) && SetKey(less, y.addresses) == k;
      assert y in seen + {x};
    }
  }

  lemma InlineAddresses(entries: seq<Entry>)
    ensures InlineParams(entries).Some? ==> AllStrings(InlineOf(InlineParams(entries).value).addresses)
  {
  }

  /** The closure state of assertCompiledSigbashPolicy. */
  class Normalizer {
    const less: Less
    var idToSet: map<Text, Text>
    var setToId: map<Text, Text>
    var inlineSets: nat
    var identifiers: nat
    var visited: nat
    ghost var seen: set<Inline>

    ghost predicate Valid()
      reads this
    {
      MapsMatch(less, idToSet, setToId, seen) && CountsMatch(inlineSets, identifiers, seen)
    }

    constructor (less: Less)
      ensures Valid() && seen == {} && visited == 0 && this.less == less
    {
      this.less := less;
      idToSet, setToId, inlineSets, identifiers, visited, seen := map[], map[], 0, 0, 0, {};
    }

    /** Counts one inline set and files its id; false on a malformed or
        conflicting id. */
    method Record(x: Inline) returns (ok: bool)
      requires Valid() && AllStrings(x.addresses)
      modifies this`idToSet, this`setToId, this`inlineSets, this`identifiers, this`seen
      ensures ok ==> Valid() && seen == old(seen) + {x}
      ensures !ok ==> !Consistent(old(seen) + {x})
    {
      hide SetKey, WellFormedId, MapsMatch;
      inlineSets := inlineSets + 1;
      if x.id.None? {
        PassUnnamed(less, idToSet, setToId, seen, x);
        seen := seen + {x};
        return true;
      }
      if !WellFormedId(x.id.value) {
        assert x in seen + {x};
        return false;
      }
      IdIsText(x.id.value);
      var id, key := x.id.value.text, SetKey(less, x.addresses);
      if (id in idToSet && idToSet[id] != key) || (key in setToId && setToId[key] != id) {
        ConflictIsInconsistent(less, idToSet, setToId, seen, x);
        return false;
      }
      FileOne(less, idToSet, setToId, seen, x);
      idToSet := idToSet[id := key];
      setToId := setToId[key := id];
      identifiers := identifiers + 1;
      seen := seen + {x};
      ok := true;
    }

    /** The recursive walk. */
    method Normalize(v: Visit, depth: nat) returns (r: Option<Json>)
      requires Valid()
      modifies this
      ensures r.Some? ==>
                && Valid() && r.value == Erase(v) && seen == old(seen) + Inlines(v)
                && visited == old(visited) + Nodes(v) && visited <= MAX_NODES && Clean(v, MAX_DEPTH - depth)
      ensures r.None? ==>
                || old(visited) + Nodes(v) > MAX_NODES
                || !Clean(v, MAX_DEPTH - depth)
                || !Consistent(old(seen) + Inlines(v))
      decreases v.value
    {
      hide Child, ChildCount, Clean, OwnStray, NodesUpTo, ChildrenClean, MapsMatch, Consistent, InlineParams, Inlines, Erase, CountsMatch;
      CleanSplit(v, MAX_DEPTH - depth);
      visited := visited + 1;
      if visited > MAX_NODES || depth > MAX_DEPTH || OwnStray(v) {
        return None;
      }
      ghost var before := seen;
      if v.value.Obj? && InlineParams(Kept(v)).Some? {
        var x := InlineOf(InlineParams(Kept(v)).value);
        InlineAddresses(Kept(v));
        var filed := Record(x);
        if !filed {
          OwnIsPart(v, before);
          return None;
        }
      }
      NoChildrenYet(v, MAX_DEPTH - depth);
      InlinesStart(v);
      assert seen == before + InlinesUpTo(v, 0);
      var values: seq<Json> := [];
      for k := 0 to ChildCount(v)
        invariant visited == old(visited) + 1 + NodesUpTo(v, k) && visited <= MAX_NODES
        invariant ChildrenClean(v, MAX_DEPTH - depth, k)
        invariant Valid() && seen == before + InlinesUpTo(v, k)
        invariant |values| == k && forall j | 0 <= j < k :: values[j] == Erase(Child(v, j))
      {
        NodesSplit(v, k);
        ChildrenCleanStep(v, MAX_DEPTH - depth, k);
        InlinesStep(v, k, before);
        var child := Normalize(Child(v, k), depth + 1);
        if child.None? {
          return None;
        }
        values := values + [child.value];
      }
      InlinesEnd(v);
      EraseSplit(v, values);
      r := Some(Rebuild(v, values));
    }
  }

  /** The value with its children replaced, in order. */
  function Rebuild(v: Visit, values: seq<Json>): Json
    requires |values| == ChildCount(v)
  {
    match v.value
    case Arr(_) => Arr(values)
    case Obj(_) => Obj(seq(|Kept(v)|, k requires 0 <= k < |Kept(v)| => Entry(Kept(v)[k].name, values[k])))
    case _ => v.value
  }

  lemma EraseSplit(v: Visit, values: seq<Json>)
    requires |values| == ChildCount(v) && forall k | 0 <= k < ChildCount(v) :: values[k] == Erase(Child(v, k))
    ensures Rebuild(v, values) == Erase(v)
  {
    match v.value
    case Arr(items) =>
      assert values == Erase(v).items;
    case Obj(_) =>
      assert Rebuild(v, values).entries == Erase(v).entries;
    case _ =>
  }

  ghost function InlinesUpTo(v: Visit, k: nat): set<Inline>
    requires k <= ChildCount(v)
  {
    OwnInline(v) + set j, x | 0 <= j < k && x in Inlines(Child(v, j)) :: x
  }

  lemma InlinesStart(v: Visit)
    ensures InlinesUpTo(v, 0) == OwnInline(v)
  {
  }

  lemma InlinesEnd(v: Visit)
    ensures InlinesUpTo(v, ChildCount(v)) == Inlines(v)
  {
  }

  lemma InlinesStep(v: Visit, k: nat, before: set<Inline>)
    requires k < ChildCount(v)
    ensures before + InlinesUpTo(v, k + 1) == before + InlinesUpTo(v, k) + Inlines(Child(v, k))
    ensures !Consistent(before + InlinesUpTo(v, k) + Inlines(Child(v, k))) ==> !Consistent(before + Inlines(v))
  {
    InlinesGrow(v, k);
    hide Child, ChildCount, InlinesUpTo, Inlines, Consistent;
    var part, whole := before + InlinesUpTo(v, k) + Inlines(Child(v, k)), before + Inlines(v);
    assert part <= whole;
    if Consistent(whole) {
      ConsistentPart(part, whole);
    }
  }

  lemma InlinesGrow(v: Visit, k: nat)
    requires k < ChildCount(v)
    ensures InlinesUpTo(v, k + 1) == InlinesUpTo(v, k) + Inlines(Child(v, k))
    ensures InlinesUpTo(v, k + 1) <= Inlines(v)
  {
    hide Child, ChildCount, OwnInline;
    forall x ensures x in InlinesUpTo(v, k + 1) <==> x in InlinesUpTo(v, k) + Inlines(Child(v, k)) {
    }
    forall x | x in InlinesUpTo(v, k + 1) ensures x in Inlines(v) {
    }
  }

  lemma OwnIsPart(v: Visit, before: set<Inline>)
    requires v.value.Obj? && InlineParams(Kept(v)).Some?
    ensures !Consistent(before + {InlineOf(InlineParams(Kept(v)).value)}) ==> !Consistent(before + Inlines(v))
  {
    assert {InlineOf(InlineParams(Kept(v)).value)} <= Inlines(v);
  }

  lemma IdIsText(id: Json)
    requires WellFormedId(id)
    ensures id.Str?
  {
  }

  // ----- the verdict -----

  lemma {:induction false} WithoutKeepsDistinct(entries: seq<Entry>, name: Text)
    requires DistinctNames(entries)
    ensures DistinctNames(Without(entries, name))
  {
    if entries != [] {
      WithoutKeepsDistinct(entries[1..], name);
      WithoutIsPart(entries[1..], name);
    }
  }

  lemma {:induction false} EraseWellFormed(v: Visit)
    requires WellFormed(v.value)
    ensures WellFormed(Erase(v))
    decreases v.value
  {
    match v.value
    case Arr(items) =>
      forall k | 0 <= k < |items| ensures WellFormed(Erase(Child(v, k))) {
        EraseWellFormed(Child(v, k));
      }
    case Obj(entries) =>
      WithoutIsPart(entries, ListId());
      WithoutKeepsDistinct(entries, ListId());
      forall k | 0 <= k < |Kept(v)| ensures WellFormed(Erase(Child(v, k))) {
        assert Kept(v)[k] in entries;
        EraseWellFormed(Child(v, k));
      }
    case _ =>
  }

  /** assertCompiledSigbashPolicy accepts only compiled trees that stand for the
      request, whatever comparator sorts the names, and all of them when the
      comparator orders the request's names. */
  method AssertCompiledPolicy(less: Less, requested: Json, compiled: Json) returns (ok: bool)
    requires WellFormed(requested) && WellFormed(compiled)
    ensures ok ==> Stands(requested, compiled)
    ensures Ordered(less, requested) ==> (ok <==> Stands(requested, compiled))
  {
    hide Ordered, WellFormed, Clean, Nodes, Erase, Inlines, Consistent, MapsMatch, Same, CanonicalPolicy;
    var walk := new RequestWalk();
    var request, tree := Visit(requested, false, false), Visit(compiled, false, true);
    var clean := walk.Walk(request, 0);
    if !clean {
      return false;
    }
    var normalizer := new Normalizer(less);
    var normalized := normalizer.Normalize(tree, 0);
    assert {} + Inlines(tree) == Inlines(tree);
    if normalized.None? {
      return false;
    }
    MapsAreConsistent(less, normalizer.idToSet, normalizer.setToId, normalizer.seen);
    if normalizer.identifiers != 0 && normalizer.identifiers != normalizer.inlineSets {
      return false;
    }
    EraseWellFormed(tree);
    ok := CanonicalPolicy(less, requested) == CanonicalPolicy(less, normalized.value);
    if ok {
      EqualPrintsAreSame(less, requested, normalized.value);
    }
    if Ordered(less, requested) {
      CanonicalPolicyDecides(less, requested, normalized.value);
    }
  }
}

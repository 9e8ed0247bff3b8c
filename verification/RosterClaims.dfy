/** The claims of validateRoster (src/custody.ts): no public material serves
    twice in a roster, so no transaction passes two solo policies. */
module RosterClaims {
  import opened SoloPolicies
  import opened Provisioning

  /** A roster entry with its x-only payout key; `entry.personal` is compressed,
      two hexadecimal digits before its x-only form. */
  datatype Candidate = Candidate(entry: Entry, payoutKey: Key)

  function Entries(cs: seq<Candidate>): seq<Entry> { seq(|cs|, i requires 0 <= i < |cs| => cs[i].entry) }

  /** The rounds a participant can leave from, sorted by name. */
  function SortedRounds(id: Id): seq<Round> {
    if id == Carol then [EVERYONE, PairOne(id), PairTwo(id)] else [PairOne(id), EVERYONE, PairTwo(id)]
  }

  predicate HasRounds(e: Entry) { forall ids | ids in SortedRounds(e.id) :: ids in e.leaves }

  /** What one entry claims, in order. That its two keys of a round differ is
      checked before them, and follows from distinct claims. */
  function Claims(c: Candidate): (r: seq<string>)
    requires HasRounds(c.entry)
    ensures |r| == 10
  {
    var e, rounds := c.entry, SortedRounds(c.entry.id);
    [ e.personal, if |e.personal| >= 2 then e.personal[2..] else "", c.payoutKey, e.payout,
      e.leaves[rounds[0]].policy, e.leaves[rounds[0]].identification,
      e.leaves[rounds[1]].policy, e.leaves[rounds[1]].identification,
      e.leaves[rounds[2]].policy, e.leaves[rounds[2]].identification ]
  }

  predicate AllHaveRounds(cs: seq<Candidate>) { forall i | 0 <= i < |cs| :: HasRounds(cs[i].entry) }

  function AllClaims(cs: seq<Candidate>): seq<string>
    requires AllHaveRounds(cs)
  {
    if cs == [] then [] else AllClaims(cs[..|cs| - 1]) + Claims(cs[|cs| - 1])
  }

  predicate Distinct(claims: seq<string>) { forall i, j | 0 <= i < j < |claims| :: claims[i] != claims[j] }

  /** A roster the validator accepts: three seats, every round's keys, and no
      material claimed twice. */
  predicate Stands(cs: seq<Candidate>) { Seats(Entries(cs)) && AllHaveRounds(cs) && Distinct(AllClaims(cs)) }

  /** Claims one entry's material on top of what was claimed before. */
  method ClaimEntry(claims: seq<string>, claimedBy: set<string>, ghost before: seq<string>) returns (ok: bool, claimed: set<string>)
    requires Distinct(before) && forall s :: s in claimedBy <==> s in before
    ensures ok <==> Distinct(before + claims)
    ensures ok ==> forall s :: s in claimed <==> s in before + claims
  {
    claimed := claimedBy;
    assert before + claims[..0] == before;
    for k := 0 to |claims|
      invariant Distinct(before + claims[..k])
      invariant forall s :: s in claimed <==> s in before + claims[..k]
    {
      var so := before + claims[..k];
      assert before + claims[..k + 1] == so + [claims[k]];
      if claims[k] in claimed {
        RepeatStays(so, claims[k], before + claims);
        return false, claimed;
      }
      claimed := claimed + {claims[k]};
    }
    assert claims[..|claims|] == claims;
    ok := true;
  }

  lemma RepeatStays(so: seq<string>, again: string, all: seq<string>)
    requires again in so && |so| < |all| && all[..|so|] == so && all[|so|] == again
    ensures !Distinct(all)
  {
    var i :| 0 <= i < |so| && so[i] == again;
    assert all[..|so|][i] == all[i];
  }

  lemma SeatsMean(cs: seq<Candidate>)
    ensures Seats(Entries(cs)) <==>
              |cs| == 3 && cs[0].entry.id != cs[1].entry.id && cs[0].entry.id != cs[2].entry.id && cs[1].entry.id != cs[2].entry.id
  {
    if |cs| == 3 {
      assert forall i | 0 <= i < 3 :: Entries(cs)[i].id == cs[i].entry.id;
    }
  }

  lemma NothingRepeats()
    ensures Distinct([])
  {
  }

  /** validateRoster: entry by entry. */
  method ValidateRoster(cs: seq<Candidate>) returns (ok: bool)
    ensures ok <==> Stands(cs)
  {
    SeatsMean(cs);
    hide Seats, Entries, Distinct, Claims, HasRounds;
    if |cs| != 3 {
      return false;
    }
    var claimed: set<string> := {};
    assert Distinct([]) by { NothingRepeats(); }
    for i := 0 to |cs|
      invariant AllHaveRounds(cs[..i]) && Distinct(AllClaims(cs[..i]))
      invariant forall s :: s in claimed <==> s in AllClaims(cs[..i])
    {
      if !HasRounds(cs[i].entry) {
        return false;
      }
      ghost var before := AllClaims(cs[..i]);
      assert cs[..i + 1][..i] == cs[..i];
      ok, claimed := ClaimEntry(Claims(cs[i]), claimed, before);
      if !ok {
        PrefixDecides(cs, i + 1);
        return;
      }
    }
    assert cs[..|cs|] == cs;
    ok := cs[0].entry.id != cs[1].entry.id && cs[0].entry.id != cs[2].entry.id && cs[1].entry.id != cs[2].entry.id;
  }

  /** A repetition among the first entries is one in the whole roster. */
  lemma {:induction false} PrefixDecides(cs: seq<Candidate>, k: nat)
    requires k <= |cs| && AllHaveRounds(cs[..k])
    ensures AllHaveRounds(cs) && Distinct(AllClaims(cs)) ==> Distinct(AllClaims(cs[..k]))
    decreases |cs| - k
  {
    if k == |cs| {
      assert cs[..k] == cs;
    } else if AllHaveRounds(cs) {
      assert cs[..k + 1][..k] == cs[..k];
      PrefixDecides(cs, k + 1);
      var all := AllClaims(cs[..k + 1]);
      assert all[..|AllClaims(cs[..k])|] == AllClaims(cs[..k]);
    }
  }

  // ----- what the claims are for -----

  lemma {:induction false} ClaimPlace(cs: seq<Candidate>, i: nat, j: nat)
    requires AllHaveRounds(cs) && i < |cs| && j < 10
    ensures |AllClaims(cs)| == 10 * |cs| && AllClaims(cs)[10 * i + j] == Claims(cs[i])[j]
  {
    var rest := cs[..|cs| - 1];
    if i < |rest| {
      ClaimPlace(rest, i, j);
    } else if rest != [] {
      ClaimPlace(rest, 0, 0);
    }
  }

  /** A round someone leaves from is one of the three they hold keys for. */
  lemma RoundOf(ids: Round, id: Id) returns (k: nat)
    requires IsRound(ids) && id in ids
    ensures k < 3 && SortedRounds(id)[k] == ids
  {
    var rest := ids - {id};
    if ids == EVERYONE {
      k := if id == Carol then 0 else 1;
    } else {
      assert ids == rest + {id};
      var other :| other in rest;
      assert rest == {other} by {
        assert |rest - {other}| == 0;
      }
      assert ids == {id, other} && other != id;
      assert other == First(id) || other == Second(id);
      k := if other == Second(id) then 2 else if id == Carol then 1 else 0;
    }
  }

  /** Accepted rosters never let one leaf key serve two (round, participant) pairs. */
  lemma ClaimsKeepKeysApart(c: Context, cs: seq<Candidate>)
    requires Stands(cs)
    ensures UniqueLeafKeys(RosterOf(c, Entries(cs)))
  {
    var entries := Entries(cs);
    var r := RosterOf(c, entries);
    forall ids, id, ids', id' | IsRound(ids) && id in ids && IsRound(ids') && id' in ids' && r.leafKey(ids, id) == r.leafKey(ids', id')
      ensures ids == ids' && id == id'
    {
      var p := KeyPlace(c, cs, ids, id);
      var p' := KeyPlace(c, cs, ids', id');
      assert p.0 == p'.0 && p.1 == p'.1;
    }
  }

  /** Where a leaf key stands among the claims: entry and round determine it. */
  lemma KeyPlace(c: Context, cs: seq<Candidate>, ids: Round, id: Id) returns (p: (nat, nat))
    requires Stands(cs) && IsRound(ids) && id in ids
    ensures p.0 < 3 && p.1 < 3 && cs[p.0].entry.id == id && SortedRounds(id)[p.1] == ids
    ensures var at := 10 * p.0 + 4 + 2 * p.1;
            at < |AllClaims(cs)| && AllClaims(cs)[at] == RosterOf(c, Entries(cs)).leafKey(ids, id)
  {
    hide Distinct, AllClaims, Seats;
    var i := SeatOf(cs, id);
    var k := RoundOf(ids, id);
    ClaimPlace(cs, i, 4 + 2 * k);
    KeyClaimed(cs[i], k);
    LeafIsEntrys(c, cs, i, ids);
    p := (i, k);
  }

  lemma SeatOf(cs: seq<Candidate>, id: Id) returns (i: nat)
    requires Seats(Entries(cs))
    ensures i < 3 == |cs| && cs[i].entry == Get(Entries(cs), id) && cs[i].entry.id == id
  {
    var e := Get(Entries(cs), id);
    assert e in Entries(cs);
    i :| 0 <= i < 3 && Entries(cs)[i] == e;
  }

  lemma KeyClaimed(c: Candidate, k: nat)
    requires HasRounds(c.entry) && k < 3
    ensures SortedRounds(c.entry.id)[k] in c.entry.leaves
    ensures Claims(c)[4 + 2 * k] == c.entry.leaves[SortedRounds(c.entry.id)[k]].policy
  {
    assert SortedRounds(c.entry.id)[k] in SortedRounds(c.entry.id);
  }

  lemma LeafIsEntrys(c: Context, cs: seq<Candidate>, i: nat, ids: Round)
    requires Seats(Entries(cs)) && i < 3 == |cs| && cs[i].entry == Get(Entries(cs), cs[i].entry.id) && ids in cs[i].entry.leaves
    ensures RosterOf(c, Entries(cs)).leafKey(ids, cs[i].entry.id) == cs[i].entry.leaves[ids].policy
  {
    hide Seats, Get, Members;
  }

  /** Under an accepted roster a transaction passes at most one of the nine policies. */
  lemma AcceptedRosterSeparatesPolicies(c: Context, cs: seq<Candidate>, tx: Tx, ids: Round, id: Id, ids': Round, id': Id)
    requires Stands(cs) && IsRound(ids) && id in ids && IsRound(ids') && id' in ids'
    requires Evaluate(tx, PolicyFor(c, Entries(cs), ids, id)) == [] && Evaluate(tx, PolicyFor(c, Entries(cs), ids', id')) == []
    ensures ids == ids' && id == id'
  {
    ClaimsKeepKeysApart(c, cs);
    AtMostOnePolicy(RosterOf(c, Entries(cs)), c.economics, tx, ids, id, ids', id');
  }

  // ----- acceptance, use by use -----

  /** What public material is used for. */
  datatype Use = Personal | PersonalXOnly | PayoutKey | PayoutAddress | PolicyLeaf(round: Round) | IdentificationLeaf(round: Round)

  /** Leaf keys are for the rounds the participant is in. */
  predicate UsedBy(id: Id, u: Use) { u.PolicyLeaf? || u.IdentificationLeaf? ==> IsRound(u.round) && id in u.round }

  ghost predicate HoldsAllKeys(e: Entry) { forall ids | IsRound(ids) && e.id in ids :: ids in e.leaves }

  function Material(c: Candidate, u: Use): string
    requires HoldsAllKeys(c.entry) && UsedBy(c.entry.id, u)
  {
    match u
    case Personal => c.entry.personal
    case PersonalXOnly => if |c.entry.personal| >= 2 then c.entry.personal[2..] else ""
    case PayoutKey => c.payoutKey
    case PayoutAddress => c.entry.payout
    case PolicyLeaf(ids) => c.entry.leaves[ids].policy
    case IdentificationLeaf(ids) => c.entry.leaves[ids].identification
  }

  lemma SortedRoundsAre(id: Id, k: nat)
    requires k < 3
    ensures IsRound(SortedRounds(id)[k]) && id in SortedRounds(id)[k]
    ensures SortedRounds(id)[0] != SortedRounds(id)[1] && SortedRounds(id)[0] != SortedRounds(id)[2] && SortedRounds(id)[1] != SortedRounds(id)[2]
  {
    RoundsDiffer(id);
    assert |{id, First(id)}| == 2 && |{id, Second(id)}| == 2;
  }

  lemma RoundsHeld(e: Entry)
    ensures HasRounds(e) <==> HoldsAllKeys(e)
  {
    var rounds := SortedRounds(e.id);
    if HasRounds(e) {
      forall ids | IsRound(ids) && e.id in ids ensures ids in e.leaves {
        var k := RoundOf(ids, e.id);
        assert rounds[k] in rounds;
      }
    }
    SortedRoundsAre(e.id, 0);
    SortedRoundsAre(e.id, 1);
    SortedRoundsAre(e.id, 2);
  }

  /** The use of the k-th claim. */
  function UseAt(id: Id, k: nat): Use
    requires k < 10
  {
    if k == 0 then Personal else if k == 1 then PersonalXOnly else if k == 2 then PayoutKey else if k == 3 then PayoutAddress
    else if k % 2 == 0 then PolicyLeaf(SortedRounds(id)[(k - 4) / 2]) else IdentificationLeaf(SortedRounds(id)[(k - 4) / 2])
  }

  lemma ClaimIsMaterial(c: Candidate, k: nat)
    requires HasRounds(c.entry) && k < 10
    ensures HoldsAllKeys(c.entry) && UsedBy(c.entry.id, UseAt(c.entry.id, k))
    ensures Claims(c)[k] == Material(c, UseAt(c.entry.id, k))
  {
    RoundsHeld(c.entry);
    if k >= 4 {
      SortedRoundsAre(c.entry.id, (k - 4) / 2);
    }
  }

  lemma UseHasPlace(id: Id, u: Use) returns (k: nat)
    requires UsedBy(id, u)
    ensures k < 10 && UseAt(id, k) == u
  {
    match u
    case Personal => k := 0;
    case PersonalXOnly => k := 1;
    case PayoutKey => k := 2;
    case PayoutAddress => k := 3;
    case PolicyLeaf(ids) => var m := RoundOf(ids, id); k := 4 + 2 * m;
    case IdentificationLeaf(ids) => var m := RoundOf(ids, id); k := 5 + 2 * m;
  }

  lemma PlacesDiffer(id: Id, k: nat, l: nat)
    requires k < 10 && l < 10 && UseAt(id, k) == UseAt(id, l)
    ensures k == l
  {
    SortedRoundsAre(id, 0);
    hide SortedRounds;
  }

  ghost predicate NoMaterialTwice(cs: seq<Candidate>)
    requires forall i | 0 <= i < |cs| :: HoldsAllKeys(cs[i].entry)
  {
    forall i, j, u, v | 0 <= i < |cs| && 0 <= j < |cs| && UsedBy(cs[i].entry.id, u) && UsedBy(cs[j].entry.id, v) ::
      Material(cs[i], u) == Material(cs[j], v) ==> i == j && u == v
  }

  /** Exactly the rosters with three different participants, each holding both
      leaf keys of every round it is in, in which no personal key, x-only form,
      payout key, payout address or leaf key equals another. */
  lemma StandsExactly(cs: seq<Candidate>)
    ensures Stands(cs) <==>
              && |cs| == 3 && (forall i, j | 0 <= i < j < 3 :: cs[i].entry.id != cs[j].entry.id)
              && (forall i | 0 <= i < |cs| :: HoldsAllKeys(cs[i].entry))
              && NoMaterialTwice(cs)
  {
    SeatsMean(cs);
    forall i | 0 <= i < |cs| ensures HasRounds(cs[i].entry) <==> HoldsAllKeys(cs[i].entry) {
      RoundsHeld(cs[i].entry);
    }
    hide Seats, HasRounds, HoldsAllKeys, AllClaims, Claims, Distinct;
    if AllHaveRounds(cs) && cs != [] {
      DistinctIsNoReuse(cs);
    }
  }

  lemma DistinctIsNoReuse(cs: seq<Candidate>)
    requires AllHaveRounds(cs) && cs != [] && forall i | 0 <= i < |cs| :: HoldsAllKeys(cs[i].entry)
    ensures Distinct(AllClaims(cs)) <==> NoMaterialTwice(cs)
  {
    hide AllClaims, Claims, HoldsAllKeys, HasRounds, Material, UseAt, UsedBy, Distinct, NoMaterialTwice, AllHaveRounds;
    if Distinct(AllClaims(cs)) {
      DistinctIsOnce(cs);
    }
    if NoMaterialTwice(cs) {
      OnceIsDistinct(cs);
    }
  }

  lemma DistinctIsOnce(cs: seq<Candidate>)
    requires AllHaveRounds(cs) && forall i | 0 <= i < |cs| :: HoldsAllKeys(cs[i].entry)
    requires Distinct(AllClaims(cs))
    ensures NoMaterialTwice(cs)
  {
    hide AllClaims, Claims, HoldsAllKeys, HasRounds, Material, UseAt, UsedBy;
    forall i, j, u, v | 0 <= i < |cs| && 0 <= j < |cs| && UsedBy(cs[i].entry.id, u) && UsedBy(cs[j].entry.id, v)
                        && Material(cs[i], u) == Material(cs[j], v)
      ensures i == j && u == v
    {
      var k := UseHasPlace(cs[i].entry.id, u);
      var l := UseHasPlace(cs[j].entry.id, v);
      ClaimIsMaterial(cs[i], k);
      ClaimIsMaterial(cs[j], l);
      ClaimPlace(cs, i, k);
      ClaimPlace(cs, j, l);
      assert 10 * i + k == 10 * j + l;
    }
  }

  lemma OnceIsDistinct(cs: seq<Candidate>)
    requires AllHaveRounds(cs) && cs != [] && forall i | 0 <= i < |cs| :: HoldsAllKeys(cs[i].entry)
    requires NoMaterialTwice(cs)
    ensures Distinct(AllClaims(cs))
  {
    hide AllClaims, Claims, HoldsAllKeys, HasRounds, UsedBy;
    ClaimPlace(cs, 0, 0);
    forall a, b | 0 <= a < b < |AllClaims(cs)| ensures AllClaims(cs)[a] != AllClaims(cs)[b] {
      if AllClaims(cs)[a] == AllClaims(cs)[b] {
        EqualClaims(cs, a / 10, a % 10, b / 10, b % 10);
      }
    }
  }

  lemma EqualClaims(cs: seq<Candidate>, i: nat, k: nat, j: nat, l: nat)
    requires AllHaveRounds(cs) && (forall i | 0 <= i < |cs| :: HoldsAllKeys(cs[i].entry)) && NoMaterialTwice(cs)
    requires i < |cs| && j < |cs| && k < 10 && l < 10 && |AllClaims(cs)| == 10 * |cs|
    requires AllClaims(cs)[10 * i + k] == AllClaims(cs)[10 * j + l]
    ensures i == j && k == l
  {
    hide AllClaims, Claims, HoldsAllKeys, HasRounds, UsedBy, UseAt, Material;
    ClaimPlace(cs, i, k);
    ClaimPlace(cs, j, l);
    ClaimIsMaterial(cs[i], k);
    ClaimIsMaterial(cs[j], l);
    assert i == j && UseAt(cs[i].entry.id, k) == UseAt(cs[j].entry.id, l);
    PlacesDiffer(cs[i].entry.id, k, l);
  }
}

/** Staged key provisioning (src/sigbash-provisioning.ts, src/sigbash-policy.ts, src/vault.ts):
    what each participant is offered next, and runs of registrations that
    follow those offers. */
module Provisioning {
  import opened Wrappers
  import opened SoloPolicies

  datatype LeafKeys = LeafKeys(policy: Key, identification: Key)

  datatype Entry = Entry(id: Id, personal: Key, payout: Address, leaves: map<Round, LeafKeys>, registered: set<Round>)

  datatype Member = Member(personal: Key, leaf: LeafKeys)

  /** The economics policies are compiled under, and the address of the vault
      built from its recovery delay and its members in id order. */
  datatype Context = Context(economics: Economics, vaultAddress: (int, seq<Member>) -> Address)

  // ----- rounds a participant can leave from -----

  function First(id: Id): Id { if id == Alice then Bob else Alice }

  function Second(id: Id): Id { if id == Carol then Bob else Carol }

  function PairOne(id: Id): Round { {id, First(id)} }

  function PairTwo(id: Id): Round { {id, Second(id)} }

  /** The rounds a participant leaves from, round one filtered out. */
  function PairRounds(id: Id): seq<Round> { [PairOne(id), PairTwo(id)] }

  /** participantLeaveRounds: round one, then the pair rounds in id order. */
  function LeaveRounds(id: Id): seq<Round> { [EVERYONE] + PairRounds(id) }

  lemma RoundsDiffer(id: Id)
    ensures PairOne(id) != PairTwo(id) && PairOne(id) != EVERYONE && PairTwo(id) != EVERYONE
    ensures EVERYONE - {id} == {First(id), Second(id)}
  {
    assert First(id) in PairOne(id) && First(id) !in PairTwo(id);
    assert Second(id) !in PairOne(id) && First(id) in EVERYONE && Second(id) in EVERYONE;
    forall x: Id ensures x in EVERYONE - {id} <==> x in {First(id), Second(id)} {
    }
  }

  // ----- the roster and its policies -----

  predicate Seats(entries: seq<Entry>) {
    |entries| == 3 && forall i, j | 0 <= i < j < 3 :: entries[i].id != entries[j].id
  }

  function Get(entries: seq<Entry>, id: Id): (e: Entry)
    requires Seats(entries)
    ensures e in entries && e.id == id
  {
    assert entries[0].id != entries[1].id && entries[0].id != entries[2].id && entries[1].id != entries[2].id;
    if entries[0].id == id then entries[0] else if entries[1].id == id then entries[1] else entries[2]
  }

  predicate HasLeaves(entries: seq<Entry>) {
    forall e | e in entries :: forall ids | ids in LeaveRounds(e.id) :: ids in e.leaves
  }

  function LeafOf(entries: seq<Entry>, ids: Round, id: Id): LeafKeys
    requires Seats(entries)
  {
    var e := Get(entries, id);
    if ids in e.leaves then e.leaves[ids] else LeafKeys("", "")
  }

  function MemberOf(entries: seq<Entry>, ids: Round, id: Id): seq<Member>
    requires Seats(entries)
  {
    if id in ids then [Member(Get(entries, id).personal, LeafOf(entries, ids, id))] else []
  }

  function Members(entries: seq<Entry>, ids: Round): seq<Member>
    requires Seats(entries)
  {
    MemberOf(entries, ids, Alice) + MemberOf(entries, ids, Bob) + MemberOf(entries, ids, Carol)
  }

  /** createRosterState, as the policies see it. */
  function RosterOf(c: Context, entries: seq<Entry>): Roster
    requires Seats(entries)
  {
    Roster(id => Get(entries, id).payout,
           ids => c.vaultAddress(c.economics.recoveryDelay, Members(entries, ids)),
           (ids, id) => LeafOf(entries, ids, id).policy)
  }

  function PolicyFor(c: Context, entries: seq<Entry>, ids: Round, id: Id): Policy
    requires Seats(entries)
  {
    SoloPolicy(RosterOf(c, entries), c.economics, ids, id)
  }

  // ----- the offered condition config -----

  /** A policy without its local key identifiers. */
  datatype Config = Kept(condition: Condition) | AnyKey | All(configs: seq<Config>) | Either(configs: seq<Config>)

  /** sigbashConditionConfig */
  function ConditionConfig(p: Policy): Config {
    match p
    case Leaf(ReqKey(_)) => AnyKey
    case Leaf(c) => Kept(c)
    case And(ps) => All(seq(|ps|, i requires 0 <= i < |ps| => ConditionConfig(ps[i])))
    case Or(ps) => Either(seq(|ps|, i requires 0 <= i < |ps| => ConditionConfig(ps[i])))
  }

  /** Equal but for the keys named by REQKEY. */
  predicate SameButKeys(p: Policy, q: Policy) {
    match (p, q)
    case (Leaf(c), Leaf(d)) => c == d || (c.ReqKey? && d.ReqKey?)
    case (And(ps), And(qs)) => |ps| == |qs| && forall i | 0 <= i < |ps| :: SameButKeys(ps[i], qs[i])
    case (Or(ps), Or(qs)) => |ps| == |qs| && forall i | 0 <= i < |ps| :: SameButKeys(ps[i], qs[i])
    case _ => false
  }

  /** The config forgets the local keys and nothing else. */
  lemma {:induction false} ConfigForgetsOnlyKeys(p: Policy, q: Policy)
    ensures ConditionConfig(p) == ConditionConfig(q) <==> SameButKeys(p, q)
  {
    match (p, q)
    case (And(ps), And(qs)) => ChildrenForgetOnlyKeys(ps, qs);
    case (Or(ps), Or(qs)) => ChildrenForgetOnlyKeys(ps, qs);
    case _ =>
  }

  lemma {:induction false} ChildrenForgetOnlyKeys(ps: seq<Policy>, qs: seq<Policy>)
    ensures seq(|ps|, i requires 0 <= i < |ps| => ConditionConfig(ps[i])) == seq(|qs|, i requires 0 <= i < |qs| => ConditionConfig(qs[i]))
            <==> |ps| == |qs| && forall i | 0 <= i < |ps| :: SameButKeys(ps[i], qs[i])
  {
    var a := seq(|ps|, i requires 0 <= i < |ps| => ConditionConfig(ps[i]));
    var b := seq(|qs|, i requires 0 <= i < |qs| => ConditionConfig(qs[i]));
    if |ps| == |qs| {
      forall i | 0 <= i < |ps| ensures a[i] == b[i] <==> SameButKeys(ps[i], qs[i]) {
        ConfigForgetsOnlyKeys(ps[i], qs[i]);
      }
      assert a == b <==> forall i | 0 <= i < |ps| :: a[i] == b[i];
    } else {
      assert |a| == |ps| && |b| == |qs|;
    }
  }

  /** What a config demands of a transaction once it is bound to its own key. */
  predicate Permits(tx: Tx, config: Config, key: Key) {
    match config
    case Kept(c) => Check(tx, c) == []
    case AnyKey => tx.leafKey == Some(key)
    case All(configs) => forall i | 0 <= i < |configs| :: Permits(tx, configs[i], key)
    case Either(configs) => configs == [] || exists i | 0 <= i < |configs| :: Permits(tx, configs[i], key)
  }

  predicate NamesOnly(p: Policy, key: Key) {
    match p
    case Leaf(c) => c.ReqKey? ==> c.localKey == key
    case And(ps) => forall i | 0 <= i < |ps| :: NamesOnly(ps[i], key)
    case Or(ps) => forall i | 0 <= i < |ps| :: NamesOnly(ps[i], key)
  }

  /** Bound to the key its policy names, the config permits exactly the
      transactions the local evaluator passes. */
  lemma {:induction false} ConfigMeans(tx: Tx, p: Policy, key: Key)
    requires NamesOnly(p, key)
    ensures Permits(tx, ConditionConfig(p), key) <==> Evaluate(tx, p) == []
  {
    EvaluateDecides(tx, p);
    match p
    case Leaf(_) =>
    case And(ps) =>
      forall i | 0 <= i < |ps| ensures Permits(tx, ConditionConfig(ps[i]), key) <==> Holds(tx, ps[i], true) {
        ConfigMeans(tx, ps[i], key);
        EvaluateDecides(tx, ps[i]);
      }
      var configs := ConditionConfig(p).configs;
      assert forall i | 0 <= i < |ps| :: configs[i] == ConditionConfig(ps[i]);
    case Or(ps) =>
      forall i | 0 <= i < |ps| ensures Permits(tx, ConditionConfig(ps[i]), key) <==> Holds(tx, ps[i], true) {
        ConfigMeans(tx, ps[i], key);
        EvaluateDecides(tx, ps[i]);
      }
      var configs := ConditionConfig(p).configs;
      assert forall i | 0 <= i < |ps| :: configs[i] == ConditionConfig(ps[i]);
      assert forall i | 0 <= i < |configs| :: configs[i] == ConditionConfig(ps[i]);
  }

  /** The amounts a solo policy of this round names. */
  predicate TermsAgree(e: Economics, f: Economics, ids: Round) {
    PayoutOf(e, ids) == PayoutOf(f, ids) && FloorOf(e, ids) == FloorOf(f, ids)
  }

  /** A solo policy's config turns on two addresses and two amounts. */
  lemma SoloConfigIs(r: Roster, s: Roster, e: Economics, f: Economics, ids: Round, id: Id)
    ensures ConditionConfig(SoloPolicy(r, e, ids, id)) == ConditionConfig(SoloPolicy(s, f, ids, id))
            <==> r.payout(id) == s.payout(id) && NextAddress(r, ids, id) == NextAddress(s, ids, id) && TermsAgree(e, f, ids)
  {
    var p, q := SoloPolicy(r, e, ids, id), SoloPolicy(s, f, ids, id);
    var cs, ds := Conditions(r, e, ids, id), Conditions(s, f, ids, id);
    ConfigForgetsOnlyKeys(p, q);
    assert forall i | 0 <= i < 7 :: p.conditions[i] == Leaf(cs[i]) && q.conditions[i] == Leaf(ds[i]);
    if SameButKeys(p, q) {
      assert forall i | 0 <= i < 4 :: SameButKeys(p.conditions[i], q.conditions[i]);
      assert cs[0] == ds[0] && cs[1] == ds[1] && cs[2] == ds[2] && cs[3] == ds[3];
      assert cs[1].addresses[0] == ds[1].addresses[0] && cs[2].addresses[0] == ds[2].addresses[0];
    }
  }

  /** All rounds agree exactly when deposit, withdrawals and fee budget do. */
  lemma TermsPinAmounts(e: Economics, f: Economics)
    ensures (forall ids | IsRound(ids) :: TermsAgree(e, f, ids))
            <==> && e.deposit == f.deposit && e.soloFeeBudget == f.soloFeeBudget
                 && e.firstWithdrawal == f.firstWithdrawal && e.secondWithdrawal == f.secondWithdrawal
  {
    if forall ids | IsRound(ids) :: TermsAgree(e, f, ids) {
      RoundsDiffer(Alice);
      assert |PairOne(Alice)| == 2;
      assert IsRound(EVERYONE) && IsRound(PairOne(Alice));
      assert TermsAgree(e, f, EVERYONE) && TermsAgree(e, f, PairOne(Alice));
    }
  }

  // ----- the plan -----

  datatype Step = Step(round: Round, keyIndex: nat, policy: Policy, config: Config)

  datatype Plan =
    | Planned(completed: seq<Round>, total: nat, next: Option<Step>, stillMissing: Option<nat>)
    | WrongSeats
    | MissingLeafKey

  function Among(rounds: seq<Round>, wanted: set<Round>): seq<Round> {
    if rounds == [] then []
    else if rounds[0] in wanted then [rounds[0]] + Among(rounds[1..], wanted)
    else Among(rounds[1..], wanted)
  }

  function FirstMissing(rounds: seq<Round>, done: seq<Round>): Option<Round> {
    if rounds == [] then None else if rounds[0] !in done then Some(rounds[0]) else FirstMissing(rounds[1..], done)
  }

  function IndexOf(rounds: seq<Round>, ids: Round): nat {
    if rounds == [] || rounds[0] == ids then 0 else 1 + IndexOf(rounds[1..], ids)
  }

  function PairRegistrations(entries: seq<Entry>): nat {
    if entries == [] then 0
    else
      var e := entries[|entries| - 1];
      PairRegistrations(entries[..|entries| - 1]) + |Among(PairRounds(e.id), e.registered)|
  }

  /** planSigbashProvisioning */
  function PlanFor(c: Context, entries: seq<Entry>, id: Id): Plan {
    if !Seats(entries) then WrongSeats
    else
      var rounds := LeaveRounds(id);
      var completed := Among(rounds, Get(entries, id).registered);
      var total := PairRegistrations(entries);
      var pair := FirstMissing(PairRounds(id), completed);
      var next :=
        if pair.Some? then pair
        else if EVERYONE !in completed && total == 6 then Some(EVERYONE)
        else None;
      var stillMissing := if pair.None? && EVERYONE !in completed && total != 6 then Some(if total < 6 then 6 - total else 0) else None;
      if next.None? then Planned(completed, total, None, stillMissing)
      else if !HasLeaves(entries) then MissingLeafKey
      else
        var policy := PolicyFor(c, entries, next.value, id);
        Planned(completed, total, Some(Step(next.value, IndexOf(rounds, next.value), policy, ConditionConfig(policy))), stillMissing)
  }

  // ----- runs of registrations -----

  /** What is fixed before provisioning; a placeholder stands in for a key not yet made. */
  datatype Setup = Setup(personal: Id -> Key, payout: Id -> Address, placeholder: (Id, Round) -> LeafKeys)

  type Keys = map<(Id, Round), LeafKeys>

  function EntryFor(s: Setup, keys: Keys, id: Id): Entry {
    Entry(id, s.personal(id), s.payout(id),
          map ids | ids in LeaveRounds(id) :: if (id, ids) in keys then keys[(id, ids)] else s.placeholder(id, ids),
          set ids | ids in LeaveRounds(id) && (id, ids) in keys)
  }

  function RosterFor(s: Setup, keys: Keys): (r: seq<Entry>)
    ensures Seats(r) && HasLeaves(r) && forall id :: Get(r, id) == EntryFor(s, keys, id)
  {
    [EntryFor(s, keys, Alice), EntryFor(s, keys, Bob), EntryFor(s, keys, Carol)]
  }

  datatype Registration = Registration(id: Id, keys: LeafKeys)

  /** A participant registers the key its plan asks for. */
  function Register(c: Context, s: Setup, keys: Keys, r: Registration): Option<Keys> {
    var plan := PlanFor(c, RosterFor(s, keys), r.id);
    if plan.Planned? && plan.next.Some? then Some(keys[(r.id, plan.next.value.round) := r.keys]) else None
  }

  function RegisterAll(c: Context, s: Setup, rs: seq<Registration>): Option<Keys> {
    if rs == [] then Some(map[])
    else
      match RegisterAll(c, s, rs[..|rs| - 1])
      case None => None
      case Some(keys) => Register(c, s, keys, rs[|rs| - 1])
  }

  // ----- what the plan comes to -----

  predicate HasPairs(keys: Keys, id: Id) { (id, PairOne(id)) in keys && (id, PairTwo(id)) in keys }

  predicate AllPairs(keys: Keys) { HasPairs(keys, Alice) && HasPairs(keys, Bob) && HasPairs(keys, Carol) }

  /** How many of the six pair keys exist. */
  function PairKeys(keys: Keys): nat {
    (if (Alice, PairOne(Alice)) in keys then 1 else 0) + (if (Alice, PairTwo(Alice)) in keys then 1 else 0)
    + (if (Bob, PairOne(Bob)) in keys then 1 else 0) + (if (Bob, PairTwo(Bob)) in keys then 1 else 0)
    + (if (Carol, PairOne(Carol)) in keys then 1 else 0) + if (Carol, PairTwo(Carol)) in keys then 1 else 0
  }

  /** Own pair rounds first, round one only after all six pair keys. */
  function NextRound(keys: Keys, id: Id): Option<Round> {
    if (id, PairOne(id)) !in keys then Some(PairOne(id))
    else if (id, PairTwo(id)) !in keys then Some(PairTwo(id))
    else if (id, EVERYONE) !in keys && AllPairs(keys) then Some(EVERYONE)
    else None
  }

  lemma AmongIs(rounds: seq<Round>, wanted: set<Round>, ids: Round)
    ensures ids in Among(rounds, wanted) <==> ids in rounds && ids in wanted
  {
    if rounds != [] {
      AmongIs(rounds[1..], wanted, ids);
      assert rounds == [rounds[0]] + rounds[1..];
    }
  }

  lemma AmongTwo(one: Round, two: Round, wanted: set<Round>)
    ensures |Among([one, two], wanted)| == (if one in wanted then 1 else 0) + (if two in wanted then 1 else 0)
  {
    assert [one, two][1..] == [two] && [two][1..] == [];
    assert Among([two], wanted) == if two in wanted then [two] else [];
  }

  lemma PairCount(s: Setup, keys: Keys, id: Id)
    ensures |Among(PairRounds(id), EntryFor(s, keys, id).registered)|
            == (if (id, PairOne(id)) in keys then 1 else 0) + (if (id, PairTwo(id)) in keys then 1 else 0)
  {
    hide PairOne, PairTwo, Among;
    assert PairOne(id) in LeaveRounds(id) && PairTwo(id) in LeaveRounds(id) by { assert LeaveRounds(id)[1] == PairOne(id) && LeaveRounds(id)[2] == PairTwo(id); }
    AmongTwo(PairOne(id), PairTwo(id), EntryFor(s, keys, id).registered);
  }

  lemma ThreeEntries(r: seq<Entry>)
    requires |r| == 3
    ensures PairRegistrations(r) == |Among(PairRounds(r[0].id), r[0].registered)|
                                  + |Among(PairRounds(r[1].id), r[1].registered)|
                                  + |Among(PairRounds(r[2].id), r[2].registered)|
  {
    hide Among, PairRounds;
    var two, one := r[..2], r[..1];
    assert two[..1] == one && one[..0] == [];
    assert PairRegistrations(two) == PairRegistrations(one) + |Among(PairRounds(r[1].id), r[1].registered)|;
    assert PairRegistrations(one) == |Among(PairRounds(r[0].id), r[0].registered)|;
  }

  lemma TotalPairs(s: Setup, keys: Keys)
    ensures PairRegistrations(RosterFor(s, keys)) == PairKeys(keys) <= 6
    ensures PairRegistrations(RosterFor(s, keys)) == 6 <==> AllPairs(keys)
  {
    hide Among, PairRounds, PairRegistrations, PairOne, PairTwo;
    PairCount(s, keys, Alice);
    PairCount(s, keys, Bob);
    PairCount(s, keys, Carol);
    var r := RosterFor(s, keys);
    ThreeEntries(r);
    assert r[0] == EntryFor(s, keys, Alice) && r[1] == EntryFor(s, keys, Bob) && r[2] == EntryFor(s, keys, Carol);
    hide RosterFor, EntryFor;
  }

  lemma FirstMissingOfTwo(one: Round, two: Round, done: seq<Round>)
    ensures FirstMissing([one, two], done) == if one !in done then Some(one) else if two !in done then Some(two) else None
  {
    assert [one, two][1..] == [two] && [two][1..] == [];
    assert FirstMissing([two], done) == if two !in done then Some(two) else None;
  }

  lemma IndexIsPosition(rounds: seq<Round>, ids: Round)
    requires ids in rounds
    ensures IndexOf(rounds, ids) < |rounds| && rounds[IndexOf(rounds, ids)] == ids
  {
    if rounds[0] != ids {
      IndexIsPosition(rounds[1..], ids);
    }
  }

  lemma Completed(s: Setup, keys: Keys, id: Id)
    ensures var done := Among(LeaveRounds(id), EntryFor(s, keys, id).registered);
            forall ids | ids in LeaveRounds(id) :: ids in done <==> (id, ids) in keys
  {
    hide PairOne, PairTwo;
    var wanted := EntryFor(s, keys, id).registered;
    forall ids | ids in LeaveRounds(id) ensures ids in Among(LeaveRounds(id), wanted) <==> (id, ids) in keys {
      AmongIs(LeaveRounds(id), wanted, ids);
    }
  }

  /** The step offers round `ids` with that round's config and key index. */
  predicate Offers(step: Step, c: Context, entries: seq<Entry>, ids: Round, id: Id)
    requires Seats(entries)
  {
    && step.round == ids
    && step.config == ConditionConfig(PolicyFor(c, entries, ids, id))
    && step.keyIndex < 3 && LeaveRounds(id)[step.keyIndex] == ids
  }

  /** A plan that offers exactly the next round, and waits exactly when round one must. */
  predicate Answers(plan: Plan, c: Context, entries: seq<Entry>, keys: Keys, id: Id)
    requires Seats(entries)
  {
    && plan.Planned?
    && (plan.next.Some? <==> NextRound(keys, id).Some?)
    && (plan.next.Some? ==> Offers(plan.next.value, c, entries, NextRound(keys, id).value, id))
    && (plan.stillMissing.Some? <==> HasPairs(keys, id) && (id, EVERYONE) !in keys && !AllPairs(keys))
    && (plan.stillMissing.Some? ==> plan.stillMissing.value == 6 - PairKeys(keys))
    && plan.total == PairKeys(keys)
    && forall ids | ids in LeaveRounds(id) :: ids in plan.completed <==> (id, ids) in keys
  }

  /** The order of the rounds, and with it the key indexes, written out. */
  lemma LeaveRoundsAre()
    ensures LeaveRounds(Alice) == [{Alice, Bob, Carol}, {Alice, Bob}, {Alice, Carol}]
    ensures LeaveRounds(Bob) == [{Alice, Bob, Carol}, {Alice, Bob}, {Bob, Carol}]
    ensures LeaveRounds(Carol) == [{Alice, Bob, Carol}, {Alice, Carol}, {Bob, Carol}]
  {
    assert {Bob, Alice} == {Alice, Bob} && {Carol, Alice} == {Alice, Carol} && {Carol, Bob} == {Bob, Carol};
  }

  /** The plan, read off the keys registered so far. */
  lemma PlanMeans(c: Context, s: Setup, keys: Keys, id: Id)
    ensures Answers(PlanFor(c, RosterFor(s, keys), id), c, RosterFor(s, keys), keys, id)
  {
    hide Among, PairRegistrations, PairKeys, ConditionConfig, PolicyFor, FirstMissing, IndexOf, PairOne, PairTwo, AllPairs, EntryFor, RosterFor, Seats, HasLeaves, Get;
    var rounds := LeaveRounds(id);
    TotalPairs(s, keys);
    Completed(s, keys, id);
    FirstMissingOfTwo(PairOne(id), PairTwo(id), Among(rounds, EntryFor(s, keys, id).registered));
    assert rounds[0] == EVERYONE && rounds[1] == PairOne(id) && rounds[2] == PairTwo(id);
    assert rounds[0] in rounds && rounds[1] in rounds && rounds[2] in rounds;
    if NextRound(keys, id).Some? {
      IndexIsPosition(rounds, NextRound(keys, id).value);
    }
    if HasPairs(keys, id) {
      assert AllPairs(keys) ==> HasPairs(keys, id) by { AllHavePairs(keys, id); }
    }
  }

  lemma AllHavePairs(keys: Keys, id: Id)
    ensures AllPairs(keys) ==> HasPairs(keys, id)
  {
  }

  // ----- the protocol's properties -----

  /** No round-one key is offered before all six pair keys exist. */
  lemma RoundOneComesLast(c: Context, s: Setup, keys: Keys, id: Id)
    ensures var plan := PlanFor(c, RosterFor(s, keys), id);
            plan.Planned? && (plan.next.Some? && plan.next.value.round == EVERYONE ==> AllPairs(keys))
  {
    hide PlanFor, RosterFor, PairOne, PairTwo, AllPairs;
    PlanMeans(c, s, keys, id);
    RoundsDiffer(id);
  }

  predicate Extends(later: Keys, keys: Keys) { forall k | k in keys :: k in later && later[k] == keys[k] }

  lemma RegisterExtends(c: Context, s: Setup, keys: Keys, r: Registration)
    requires Register(c, s, keys, r).Some?
    ensures Extends(Register(c, s, keys, r).value, keys)
  {
    hide PlanFor, RosterFor, PairOne, PairTwo, AllPairs;
    PlanMeans(c, s, keys, r.id);
  }

  lemma {:induction false} RunsExtend(c: Context, s: Setup, rs: seq<Registration>, k: nat)
    requires k <= |rs| && RegisterAll(c, s, rs).Some?
    ensures RegisterAll(c, s, rs[..k]).Some? && Extends(RegisterAll(c, s, rs).value, RegisterAll(c, s, rs[..k]).value)
  {
    hide Register;
    if k == |rs| {
      assert rs[..k] == rs;
    } else {
      var before := rs[..|rs| - 1];
      assert before[..k] == rs[..k];
      RunsExtend(c, s, before, k);
      RegisterExtends(c, s, RegisterAll(c, s, before).value, rs[|rs| - 1]);
    }
  }

  lemma PayoutIsFixed(s: Setup, keys: Keys, id: Id)
    ensures Get(RosterFor(s, keys), id).payout == s.payout(id)
  {
    hide Get, Seats, HasLeaves;
    assert Get(RosterFor(s, keys), id) == EntryFor(s, keys, id);
  }

  /** The vault of the two who stay when `id` leaves from round one. */
  function SurvivorVault(c: Context, entries: seq<Entry>, id: Id): Address
    requires Seats(entries)
  {
    c.vaultAddress(c.economics.recoveryDelay, Members(entries, EVERYONE - {id}))
  }

  lemma Destinations(c: Context, s: Setup, keys: Keys, ids: Round, id: Id)
    ensures var r := RosterOf(c, RosterFor(s, keys));
            && r.payout(id) == s.payout(id)
            && NextAddress(r, ids, id) == if ids == EVERYONE then SurvivorVault(c, RosterFor(s, keys), id)
                                          else s.payout(Other(ids, id))
  {
    hide Members, Seats, HasLeaves, Get, Other, EntryFor, RosterFor;
    PayoutIsFixed(s, keys, id);
    PayoutIsFixed(s, keys, Other(ids, id));
  }

  /** Under keys that extend `keys` and under any published economics, the
      offered config is the published one exactly when the terms agree and, for
      round one, the delay leaves the surviving vault where it was. */
  lemma OfferOutlivesRegistrations(c: Context, published: Economics, s: Setup, keys: Keys, later: Keys, id: Id)
    requires Extends(later, keys) && NextRound(keys, id).Some?
    ensures var ids, d := NextRound(keys, id).value, c.(economics := published);
            ConditionConfig(PolicyFor(c, RosterFor(s, keys), ids, id)) == ConditionConfig(PolicyFor(d, RosterFor(s, later), ids, id))
            <==> && TermsAgree(c.economics, published, ids)
                 && (ids == EVERYONE ==> SurvivorVault(c, RosterFor(s, later), id) == SurvivorVault(d, RosterFor(s, later), id))
  {
    hide ConditionConfig, SoloPolicy, RosterOf, RosterFor, Members, NextAddress, Other, Seats, AllPairs, PairOne, PairTwo, Extends, TermsAgree;
    var ids, d := NextRound(keys, id).value, c.(economics := published);
    var r, t := RosterFor(s, keys), RosterFor(s, later);
    RoundsDiffer(id);
    SoloConfigIs(RosterOf(c, r), RosterOf(d, t), c.economics, published, ids, id);
    Destinations(c, s, keys, ids, id);
    Destinations(d, s, later, ids, id);
    if ids == EVERYONE {
      SurvivorsKeepTheirKeys(s, keys, later, id);
    }
  }

  lemma SurvivorsKeepTheirKeys(s: Setup, keys: Keys, later: Keys, id: Id)
    requires Extends(later, keys) && AllPairs(keys)
    ensures Members(RosterFor(s, keys), EVERYONE - {id}) == Members(RosterFor(s, later), EVERYONE - {id})
  {
    var pair := EVERYONE - {id};
    RoundsDiffer(Alice);
    RoundsDiffer(Bob);
    RoundsDiffer(Carol);
    assert id == Alice ==> pair == {Bob, Carol};
    assert id == Bob ==> pair == {Alice, Carol};
    assert id == Carol ==> pair == {Alice, Bob};
    var r, t := RosterFor(s, keys), RosterFor(s, later);
    forall m | m in pair ensures LeafOf(r, pair, m) == LeafOf(t, pair, m) {
      assert pair == {m, First(m)} || pair == {m, Second(m)};
    }
  }

  /** The published policy's config for one key, under the published economics. */
  function PublishedConfig(c: Context, published: Economics, entries: seq<Entry>, ids: Round, id: Id): Config
    requires Seats(entries)
  {
    ConditionConfig(PolicyFor(c.(economics := published), entries, ids, id))
  }

  predicate OfferHolds(c: Context, published: Economics, entries: seq<Entry>, ids: Round, id: Id)
    requires Seats(entries)
  {
    && TermsAgree(c.economics, published, ids)
    && (ids == EVERYONE ==> SurvivorVault(c, entries, id) == SurvivorVault(c.(economics := published), entries, id))
  }

  /** In every run that follows the plans, each offer has the config of every
      later roster, the finished one included, exactly when the economics the
      roster is published under give the same terms and surviving vault. */
  lemma OfferedConfigIsFinal(c: Context, published: Economics, s: Setup, rs: seq<Registration>, k: nat)
    requires k < |rs| && RegisterAll(c, s, rs).Some?
    ensures RegisterAll(c, s, rs[..k]).Some?
    ensures var offer := PlanFor(c, RosterFor(s, RegisterAll(c, s, rs[..k]).value), rs[k].id);
            var final := RosterFor(s, RegisterAll(c, s, rs).value);
            && offer.Planned? && offer.next.Some?
            && (offer.next.value.config == PublishedConfig(c, published, final, offer.next.value.round, rs[k].id)
                <==> OfferHolds(c, published, final, offer.next.value.round, rs[k].id))
            && (published == c.economics ==> OfferHolds(c, published, final, offer.next.value.round, rs[k].id))
  {
    hide ConditionConfig, PolicyFor, PlanFor, RosterFor;
    RunsExtend(c, s, rs, k);
    RunsExtend(c, s, rs, k + 1);
    assert rs[..k + 1][..k] == rs[..k] && rs[..k + 1][k] == rs[k];
    var keys := RegisterAll(c, s, rs[..k]).value;
    assert Register(c, s, keys, rs[k]).Some?;
    PlanMeans(c, s, keys, rs[k].id);
    OfferOutlivesRegistrations(c, published, s, keys, RegisterAll(c, s, rs).value, rs[k].id);
  }

  /** The default economics, and those of a small vault the tests publish. */
  const DEFAULT := Economics(100_000_000, 95_000_000, 102_500_000, 10_000, 1_000, 900, 1_500, 1_000, 6)

  const SMALL := Economics(10_000, 9_500, 10_250, 2_000, 300, 300, 500, 300, 12)

  /** Under the default economics no offer of any run has the config that the
      small vault's roster publishes; the first offer is already one. */
  lemma DefaultOffersMissSmallVault(c: Context, s: Setup, rs: seq<Registration>, k: nat)
    requires c.economics == DEFAULT && k < |rs| && RegisterAll(c, s, rs).Some?
    ensures ValidEconomics(DEFAULT) && ValidEconomics(SMALL)
    ensures RegisterAll(c, s, rs[..k]).Some?
    ensures var offer := PlanFor(c, RosterFor(s, RegisterAll(c, s, rs[..k]).value), rs[k].id);
            && offer.Planned? && offer.next.Some?
            && offer.next.value.config
               != PublishedConfig(c, SMALL, RosterFor(s, RegisterAll(c, s, rs).value), offer.next.value.round, rs[k].id)
  {
    hide PlanFor, RosterFor, RegisterAll, PublishedConfig, SurvivorVault;
    OfferedConfigIsFinal(c, SMALL, s, rs, k);
  }

  lemma SomeoneIsOffered(c: Context, s: Setup, leaf: LeafKeys)
    ensures RegisterAll(c, s, [Registration(Alice, leaf)]).Some?
  {
    hide PlanFor, RosterFor, PairOne, PairTwo;
    PlanMeans(c, s, map[], Alice);
    assert [Registration(Alice, leaf)][..0] == [];
  }

  /** Why the order matters: with addresses that commit to their members, the
      round-one config of two rosters agrees exactly when the surviving pair's keys do. */
  lemma RoundOneConfigNeedsPairKeys(c: Context, s: Setup, keys: Keys, later: Keys, id: Id)
    requires forall delay, x, y :: c.vaultAddress(delay, x) == c.vaultAddress(delay, y) ==> x == y
    ensures ConditionConfig(PolicyFor(c, RosterFor(s, keys), EVERYONE, id)) == ConditionConfig(PolicyFor(c, RosterFor(s, later), EVERYONE, id))
            <==> forall m | m in EVERYONE - {id} ::
                   LeafOf(RosterFor(s, keys), EVERYONE - {id}, m) == LeafOf(RosterFor(s, later), EVERYONE - {id}, m)
  {
    hide ConditionConfig, SoloPolicy, RosterOf, RosterFor, Members, NextAddress, Other, Seats, LeafOf;
    var r, t := RosterFor(s, keys), RosterFor(s, later);
    var pair := EVERYONE - {id};
    SoloConfigIs(RosterOf(c, r), RosterOf(c, t), c.economics, c.economics, EVERYONE, id);
    Destinations(c, s, keys, EVERYONE, id);
    Destinations(c, s, later, EVERYONE, id);
    assert SurvivorVault(c, r, id) == SurvivorVault(c, t, id) <==> Members(r, pair) == Members(t, pair);
    forall m | m in pair ensures Get(r, m).personal == Get(t, m).personal {
    }
    SameMembers(r, t, pair);
  }

  lemma SameParts<T>(a: seq<T>, b: seq<T>, c: seq<T>, a': seq<T>, b': seq<T>, c': seq<T>)
    requires |a| == |a'| && |b| == |b'|
    ensures a + b + c == a' + b' + c' <==> a == a' && b == b' && c == c'
  {
    var all, all' := a + b + c, a' + b' + c';
    assert all[..|a|] == a && all'[..|a|] == a';
    assert all[|a|..|a + b|] == b && all'[|a|..|a + b|] == b';
    assert all[|a + b|..] == c && all'[|a + b|..] == c';
  }

  lemma SameMember(r: seq<Entry>, t: seq<Entry>, ids: Round, m: Id)
    requires Seats(r) && Seats(t) && (m in ids ==> Get(r, m).personal == Get(t, m).personal)
    ensures |MemberOf(r, ids, m)| == |MemberOf(t, ids, m)|
    ensures MemberOf(r, ids, m) == MemberOf(t, ids, m) <==> (m in ids ==> LeafOf(r, ids, m) == LeafOf(t, ids, m))
  {
    hide LeafOf, Get, Seats;
    if m in ids {
      assert MemberOf(r, ids, m)[0].leaf == LeafOf(r, ids, m) && MemberOf(t, ids, m)[0].leaf == LeafOf(t, ids, m);
    }
  }

  lemma SameMembers(r: seq<Entry>, t: seq<Entry>, ids: Round)
    requires Seats(r) && Seats(t) && forall m | m in ids :: Get(r, m).personal == Get(t, m).personal
    ensures Members(r, ids) == Members(t, ids) <==> forall m | m in ids :: LeafOf(r, ids, m) == LeafOf(t, ids, m)
  {
    hide LeafOf, Get, Seats, MemberOf;
    SameMember(r, t, ids, Alice);
    SameMember(r, t, ids, Bob);
    SameMember(r, t, ids, Carol);
    SameParts(MemberOf(r, ids, Alice), MemberOf(r, ids, Bob), MemberOf(r, ids, Carol),
              MemberOf(t, ids, Alice), MemberOf(t, ids, Bob), MemberOf(t, ids, Carol));
    forall m | m in ids ensures m == Alice || m == Bob || m == Carol {
    }
  }

  // ----- progress -----

  function CountOf(keys: Keys, id: Id): nat {
      (if (id, EVERYONE) in keys then 1 else 0) + (if (id, PairOne(id)) in keys then 1 else 0)
    + (if (id, PairTwo(id)) in keys then 1 else 0)
  }

  function Registered(keys: Keys): nat { CountOf(keys, Alice) + CountOf(keys, Bob) + CountOf(keys, Carol) }

  /** Until nine keys exist some participant has a next step, and then none has. */
  lemma SomeoneCanRegister(c: Context, s: Setup, keys: Keys)
    ensures Registered(keys) < 9 <==> exists id :: PlanFor(c, RosterFor(s, keys), id).Planned? && PlanFor(c, RosterFor(s, keys), id).next.Some?
  {
    hide PlanFor, RosterFor;
    forall id: Id ensures PlanFor(c, RosterFor(s, keys), id).Planned?
                          && (PlanFor(c, RosterFor(s, keys), id).next.Some? <==> NextRound(keys, id).Some?) {
      PlanMeans(c, s, keys, id);
    }
    assert NextRound(keys, Alice).Some? || NextRound(keys, Bob).Some? || NextRound(keys, Carol).Some? <==> Registered(keys) < 9;
  }

  /** Each registration in a run adds one of the nine keys. */
  lemma {:induction false} RunsRegisterOneEach(c: Context, s: Setup, rs: seq<Registration>)
    requires RegisterAll(c, s, rs).Some?
    ensures Registered(RegisterAll(c, s, rs).value) == |rs| <= 9
  {
    hide PlanFor, RosterFor, NextRound, Registered, PairOne, PairTwo, AllPairs, HasPairs, LeaveRounds, PolicyFor, ConditionConfig;
    if rs == [] {
      assert Registered(map[]) == 0 by { NoneYet(); }
    } else {
      var keys := RegisterAll(c, s, rs[..|rs| - 1]).value;
      RunsRegisterOneEach(c, s, rs[..|rs| - 1]);
      PlanMeans(c, s, keys, rs[|rs| - 1].id);
      AddsOne(keys, rs[|rs| - 1].id, rs[|rs| - 1].keys);
      AtMostNine(RegisterAll(c, s, rs).value);
    }
  }

  lemma NoneYet()
    ensures Registered(map[]) == 0
  {
  }

  lemma AtMostNine(keys: Keys)
    ensures Registered(keys) <= 9
  {
  }

  lemma CountsOne(keys: Keys, id: Id, ids: Round, leaf: LeafKeys, other: Id)
    requires (ids == EVERYONE || ids == PairOne(id) || ids == PairTwo(id)) && (id, ids) !in keys
    ensures CountOf(keys[(id, ids) := leaf], other) == CountOf(keys, other) + if other == id then 1 else 0
  {
    hide PairOne, PairTwo;
    RoundsDiffer(id);
  }

  lemma AddsOne(keys: Keys, id: Id, leaf: LeafKeys)
    requires NextRound(keys, id).Some?
    ensures Registered(keys[(id, NextRound(keys, id).value) := leaf]) == Registered(keys) + 1
  {
    hide PairOne, PairTwo, AllPairs, CountOf;
    var ids := NextRound(keys, id).value;
    CountsOne(keys, id, ids, leaf, Alice);
    CountsOne(keys, id, ids, leaf, Bob);
    CountsOne(keys, id, ids, leaf, Carol);
  }

  // ----- seat order -----

  lemma SameSeat(r: seq<Entry>, t: seq<Entry>, id: Id)
    requires Seats(r) && Seats(t) && forall e :: e in r <==> e in t
    ensures Get(r, id) == Get(t, id)
  {
    hide Get;
    var a, b := Get(r, id), Get(t, id);
    assert a in r && b in r;
    var i :| 0 <= i < 3 && r[i] == a;
    var j :| 0 <= j < 3 && r[j] == b;
  }

  function PairsOf(e: Entry): nat { |Among(PairRounds(e.id), e.registered)| }

  lemma SumOverSeats(r: seq<Entry>)
    requires Seats(r)
    ensures PairRegistrations(r) == PairsOf(Get(r, Alice)) + PairsOf(Get(r, Bob)) + PairsOf(Get(r, Carol))
  {
    hide PairsOf;
    assert PairRegistrations(r) == PairsOf(r[0]) + PairsOf(r[1]) + PairsOf(r[2]) by { ThreeEntries(r); UnfoldPairs(r); }
    hide PairRegistrations;
    assert r[0].id != r[1].id && r[0].id != r[2].id && r[1].id != r[2].id;
  }

  lemma UnfoldPairs(r: seq<Entry>)
    requires |r| == 3
    ensures forall i | 0 <= i < 3 :: PairsOf(r[i]) == |Among(PairRounds(r[i].id), r[i].registered)|
  {
  }

  lemma SamePolicy(c: Context, r: seq<Entry>, t: seq<Entry>, ids: Round, id: Id)
    requires Seats(r) && Seats(t) && forall m :: Get(r, m) == Get(t, m)
    ensures PolicyFor(c, r, ids, id) == PolicyFor(c, t, ids, id)
  {
    hide Seats, Get;
    assert Members(r, ids - {id}) == Members(t, ids - {id});
    assert Conditions(RosterOf(c, r), c.economics, ids, id) == Conditions(RosterOf(c, t), c.economics, ids, id);
  }

  /** The order of the seats in the roster changes neither the plan nor any policy. */
  lemma SeatOrderDoesNotMatter(c: Context, r: seq<Entry>, t: seq<Entry>, id: Id)
    requires Seats(r) && Seats(t) && forall e :: e in r <==> e in t
    ensures PlanFor(c, r, id) == PlanFor(c, t, id)
  {
    hide Among, PairRegistrations, PairsOf, Get, PolicyFor, ConditionConfig, FirstMissing, IndexOf, Seats, LeaveRounds, PairRounds;
    forall m: Id ensures Get(r, m) == Get(t, m) {
      SameSeat(r, t, m);
    }
    SumOverSeats(r);
    SumOverSeats(t);
    forall ids: Round ensures PolicyFor(c, r, ids, id) == PolicyFor(c, t, ids, id) {
      SamePolicy(c, r, t, ids, id);
    }
  }
}

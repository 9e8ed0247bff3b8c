/** The solo policies and their local evaluator (src/vault.ts, src/sigbash.ts,
    src/config.ts). */
module SoloPolicies {
  import opened Wrappers

  /** taprootAddress never yields the empty string. */
  type Address = s: string | s != "" witness "-"

  type Key = string

  const MAX_SAFE: int := 0x1f_ffff_ffff_ffff

  // ----- participants, rounds and the roster -----

  datatype Id = Alice | Bob | Carol

  /** A round is the set of its participants; roundId sorts before joining. */
  type Round = set<Id>

  const EVERYONE: Round := {Alice, Bob, Carol}

  predicate IsRound(ids: Round) { ids == EVERYONE || |ids| == 2 }

  /** The public material of a vault: where each participant is paid, where each
      round's coin sits, and the policy leaf key of each (round, leaver). */
  datatype Roster = Roster(payout: Id -> Address, vault: Round -> Address, leafKey: (Round, Id) -> Key)

  datatype Economics = Economics(
    deposit: int,
    firstWithdrawal: int,
    secondWithdrawal: int,
    soloFeeBudget: int,
    soloFee: int,
    cooperativeFee: int,
    recoveryFee: int,
    finalSweepFee: int,
    recoveryDelay: int)

  predicate IsSats(v: int) { 0 <= v <= MAX_SAFE }

  /** validateVaultEconomics, on exact integers. */
  predicate ValidEconomics(e: Economics) {
    && IsSats(e.deposit) && IsSats(e.firstWithdrawal) && IsSats(e.secondWithdrawal) && IsSats(e.soloFeeBudget)
    && IsSats(e.soloFee) && IsSats(e.cooperativeFee) && IsSats(e.recoveryFee) && IsSats(e.finalSweepFee)
    && e.deposit >= 10_000
    && 1 <= e.recoveryDelay <= 65_535
    && e.firstWithdrawal + e.secondWithdrawal * 2 == e.deposit * 3
    && e.soloFeeBudget > 0 && e.soloFee > 0 && e.cooperativeFee > 0 && e.recoveryFee > 0 && e.finalSweepFee > 0
    && RoundTwoFloor(e) >= 330
    && e.soloFee <= e.soloFeeBudget
    && e.soloFee * 2 <= e.soloFeeBudget
  }

  function FundingValue(e: Economics): int { e.deposit * 3 }

  function RoundOneFloor(e: Economics): int { e.deposit * 3 - e.firstWithdrawal - e.soloFeeBudget }

  function RoundTwoFloor(e: Economics): int { RoundOneFloor(e) - e.secondWithdrawal - e.soloFeeBudget }

  // ----- policies -----

  datatype Operator = EQ | NEQ | LT | LTE | GT | GTE

  function Compare(actual: int, operator: Operator, expected: int): bool {
    match operator
    case EQ => actual == expected
    case NEQ => actual != expected
    case LT => actual < expected
    case LTE => actual <= expected
    case GT => actual > expected
    case GTE => actual >= expected
  }

  datatype Condition =
    | OutputValue(index: nat, operator: Operator, value: int)
    | OutputDestIsInSets(index: nat, addresses: seq<Address>)
    | TxOutputCount(operator: Operator, value: int)
    | TxInputCount(operator: Operator, value: int)
    | ReqKey(localKey: Key)

  datatype Policy = Leaf(condition: Condition) | And(conditions: seq<Policy>) | Or(conditions: seq<Policy>)

  datatype Output = Output(address: Option<string>, value: int)

  datatype Tx = Tx(leafKey: Option<Key>, inputCount: Option<nat>, outputs: seq<Output>)

  // ----- the evaluator -----

  datatype Failure =
    | MissingOutput(index: nat) | WrongValue(index: nat) | WrongAddress(index: nat)
    | WrongOutputCount | WrongInputCount | MissingKey | BranchFailed(index: nat, failures: seq<Failure>)

  function Check(tx: Tx, c: Condition): seq<Failure> {
    match c
    case OutputValue(i, operator, value) =>
      if i >= |tx.outputs| then [MissingOutput(i)]
      else if Compare(tx.outputs[i].value, operator, value) then [] else [WrongValue(i)]
    case OutputDestIsInSets(i, addresses) =>
      if i >= |tx.outputs| then [MissingOutput(i)]
      else if tx.outputs[i].address.Some? && tx.outputs[i].address.value != "" && tx.outputs[i].address.value in addresses then [] else [WrongAddress(i)]
    case TxOutputCount(operator, value) => if Compare(|tx.outputs|, operator, value) then [] else [WrongOutputCount]
    case TxInputCount(operator, value) =>
      if Compare(if tx.inputCount.Some? then tx.inputCount.value else 0, operator, value) then [] else [WrongInputCount]
    case ReqKey(key) => if tx.leafKey == Some(key) then [] else [MissingKey]
  }

  /** evaluatePolicy: the failures of every AND child, or of every OR branch when
      none passes. */
  function Evaluate(tx: Tx, p: Policy): seq<Failure>
    decreases p, 0
  {
    match p
    case Leaf(c) => Check(tx, c)
    case And(ps) => Flat(EvaluateAll(tx, ps))
    case Or(ps) =>
      var results := EvaluateAll(tx, ps);
      if [] in results then [] else seq(|results|, i requires 0 <= i < |results| => BranchFailed(i, results[i]))
  }

  function EvaluateAll(tx: Tx, ps: seq<Policy>): (r: seq<seq<Failure>>)
    ensures |r| == |ps| && forall i | 0 <= i < |ps| :: r[i] == Evaluate(tx, ps[i])
    decreases ps, 1
  {
    if ps == [] then [] else [Evaluate(tx, ps[0])] + EvaluateAll(tx, ps[1..])
  }

  function Flat<T>(lists: seq<seq<T>>): seq<T> {
    if lists == [] then [] else lists[0] + Flat(lists[1..])
  }

  /** The truth of an AND/OR tree; `emptyOr` is what an OR without branches means. */
  predicate Holds(tx: Tx, p: Policy, emptyOr: bool) {
    match p
    case Leaf(c) => Check(tx, c) == []
    case And(ps) => forall i | 0 <= i < |ps| :: Holds(tx, ps[i], emptyOr)
    case Or(ps) => if ps == [] then emptyOr else exists i | 0 <= i < |ps| :: Holds(tx, ps[i], emptyOr)
  }

  predicate EveryOrHasABranch(p: Policy) {
    match p
    case Leaf(_) => true
    case And(ps) => forall i | 0 <= i < |ps| :: EveryOrHasABranch(ps[i])
    case Or(ps) => ps != [] && forall i | 0 <= i < |ps| :: EveryOrHasABranch(ps[i])
  }

  lemma {:induction false} FlatIsEmpty<T>(lists: seq<seq<T>>)
    ensures Flat(lists) == [] <==> forall i | 0 <= i < |lists| :: lists[i] == []
  {
    if lists != [] {
      var rest := lists[1..];
      FlatIsEmpty(rest);
      assert |Flat(lists)| == |lists[0]| + |Flat(rest)|;
      hide Flat;
      if forall i | 0 <= i < |rest| :: rest[i] == [] {
        assert forall i | 1 <= i < |lists| :: lists[i] == rest[i - 1];
      } else {
        var k :| 0 <= k < |rest| && rest[k] != [];
        assert lists[k + 1] != [];
      }
    }
  }

  /** No failures exactly when the tree is true, an empty OR counting as true. */
  lemma {:induction false} EvaluateDecides(tx: Tx, p: Policy)
    ensures Evaluate(tx, p) == [] <==> Holds(tx, p, true)
  {
    match p
    case Leaf(_) =>
    case And(ps) =>
      forall i | 0 <= i < |ps| { EvaluateDecides(tx, ps[i]); }
      FlatIsEmpty(EvaluateAll(tx, ps));
    case Or(ps) =>
      var results := EvaluateAll(tx, ps);
      forall i | 0 <= i < |ps| { EvaluateDecides(tx, ps[i]); }
      assert forall i | 0 <= i < |results| :: results[i] in results;
      if [] in results {
        var i :| 0 <= i < |results| && results[i] == [];
        assert Holds(tx, ps[i], true);
      }
  }

  /** The reading of an empty OR matters only where there is one. */
  lemma {:induction false} NonEmptyOrsAreStandard(tx: Tx, p: Policy)
    requires EveryOrHasABranch(p)
    ensures Holds(tx, p, true) == Holds(tx, p, false)
    ensures Evaluate(tx, p) == [] <==> Holds(tx, p, false)
  {
    EvaluateDecides(tx, p);
    match p
    case Leaf(_) =>
    case And(ps) =>
      forall i | 0 <= i < |ps| { NonEmptyOrsAreStandard(tx, ps[i]); }
    case Or(ps) =>
      forall i | 0 <= i < |ps| { NonEmptyOrsAreStandard(tx, ps[i]); }
  }

  lemma EmptyOrPasses(tx: Tx)
    ensures Evaluate(tx, Or([])) == [] && !Holds(tx, Or([]), false)
  {
    EvaluateDecides(tx, Or([]));
  }

  /** The operators split by one three-way comparison. */
  lemma OperatorsPartition(a: int, b: int)
    ensures a < b ==> forall o: Operator :: Compare(a, o, b) <==> o == LT || o == LTE || o == NEQ
    ensures a == b ==> forall o: Operator :: Compare(a, o, b) <==> o == EQ || o == LTE || o == GTE
    ensures a > b ==> forall o: Operator :: Compare(a, o, b) <==> o == GT || o == GTE || o == NEQ
  {
  }

  // ----- the nine solo policies -----

  function PayoutOf(e: Economics, ids: Round): int { if ids == EVERYONE then e.firstWithdrawal else e.secondWithdrawal }

  function FloorOf(e: Economics, ids: Round): int { if ids == EVERYONE then RoundOneFloor(e) else RoundTwoFloor(e) }

  function Other(ids: Round, leaver: Id): Id {
    if Alice in ids && leaver != Alice then Alice else if Bob in ids && leaver != Bob then Bob else Carol
  }

  /** Where the leftover goes: the surviving pair's vault, or the last one's payout. */
  function NextAddress(r: Roster, ids: Round, leaver: Id): Address {
    if ids == EVERYONE then r.vault(ids - {leaver}) else r.payout(Other(ids, leaver))
  }

  /** soloPolicy as buildPolicies calls it. */
  function Conditions(r: Roster, e: Economics, ids: Round, leaver: Id): seq<Condition> {
    [ OutputValue(0, EQ, PayoutOf(e, ids)),
      OutputDestIsInSets(0, [r.payout(leaver)]),
      OutputDestIsInSets(1, [NextAddress(r, ids, leaver)]),
      OutputValue(1, GTE, FloorOf(e, ids)),
      TxOutputCount(EQ, 2),
      TxInputCount(EQ, 1),
      ReqKey(r.leafKey(ids, leaver)) ]
  }

  function Leaves(cs: seq<Condition>): seq<Policy> { seq(|cs|, i requires 0 <= i < |cs| => Leaf(cs[i])) }

  function SoloPolicy(r: Roster, e: Economics, ids: Round, leaver: Id): Policy { And(Leaves(Conditions(r, e, ids, leaver))) }

  /** What a transaction must look like to pass a solo policy. */
  predicate SoloShape(r: Roster, e: Economics, ids: Round, leaver: Id, tx: Tx) {
    && tx.inputCount == Some(1)
    && tx.leafKey == Some(r.leafKey(ids, leaver))
    && |tx.outputs| == 2
    && tx.outputs[0] == Output(Some(r.payout(leaver)), PayoutOf(e, ids))
    && tx.outputs[1].address == Some(NextAddress(r, ids, leaver))
    && tx.outputs[1].value >= FloorOf(e, ids)
  }

  lemma SoloPolicyMeans(r: Roster, e: Economics, ids: Round, leaver: Id, tx: Tx)
    ensures Evaluate(tx, SoloPolicy(r, e, ids, leaver)) == [] <==> SoloShape(r, e, ids, leaver, tx)
  {
    var cs := Conditions(r, e, ids, leaver);
    var p := SoloPolicy(r, e, ids, leaver);
    EvaluateDecides(tx, p);
    assert Holds(tx, p, true) <==> forall i | 0 <= i < |cs| :: Check(tx, cs[i]) == [] by {
      assert forall i | 0 <= i < |cs| :: Holds(tx, p.conditions[i], true) <==> Check(tx, cs[i]) == [];
    }
    assert cs[0].OutputValue? && cs[1].OutputDestIsInSets? && cs[2].OutputDestIsInSets? && cs[3].OutputValue?;
    assert cs[4].TxOutputCount? && cs[5].TxInputCount? && cs[6].ReqKey?;
    forall a: string ensures a in [r.payout(leaver)] <==> a == r.payout(leaver) {
    }
  }

  /** validateRoster never lets one key serve two (round, participant) pairs. */
  ghost predicate UniqueLeafKeys(r: Roster) {
    forall ids, leaver, ids', leaver' ::
      IsRound(ids) && leaver in ids && IsRound(ids') && leaver' in ids' && r.leafKey(ids, leaver) == r.leafKey(ids', leaver')
      ==> ids == ids' && leaver == leaver'
  }

  /** A transaction passes at most one of the nine policies. */
  lemma AtMostOnePolicy(r: Roster, e: Economics, tx: Tx, ids: Round, leaver: Id, ids': Round, leaver': Id)
    requires UniqueLeafKeys(r)
    requires IsRound(ids) && leaver in ids && IsRound(ids') && leaver' in ids'
    requires Evaluate(tx, SoloPolicy(r, e, ids, leaver)) == [] && Evaluate(tx, SoloPolicy(r, e, ids', leaver')) == []
    ensures ids == ids' && leaver == leaver'
  {
    SoloPolicyMeans(r, e, ids, leaver, tx);
    SoloPolicyMeans(r, e, ids', leaver', tx);
  }
}

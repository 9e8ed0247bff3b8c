/** The withdrawal game (src/vault-runtime.ts, src/psbt.ts, src/vault.ts): coins,
    solo proposals, and the adversarial spends the policies allow. */
module VaultGame {
  import opened Wrappers
  import Sets
  import opened SoloPolicies

  datatype Kind = VaultCoin | FinalPayout

  /** The fields of a coin snapshot that the game turns on. */
  datatype Coin = Coin(kind: Kind, round: Option<Round>, owner: Option<Id>, value: int, script: string, txid: string, vout: nat)

  datatype CoinError =
    | UnusableFloors | NotTrustedInput | MalformedVaultCoin | UnknownRound | WrongScript | WrongFundingValue | PairValueOutOfBounds
    | MalformedPayoutCoin | PayoutValueOutOfBounds

  datatype Validated = Valid(current: Round) | Invalid(error: CoinError)

  /** A published vault: roster and economics, reproduced from its commitments. */
  datatype Vault = Vault(roster: Roster, economics: Economics)

  function MaximumPairValue(e: Economics): int { FundingValue(e) - e.firstWithdrawal }

  function MaximumFinalValue(e: Economics): int { MaximumPairValue(e) - e.secondWithdrawal }

  /** vaultPolicyFloors rejects floors that are not satoshi amounts. */
  predicate FloorsFit(e: Economics) { IsSats(RoundOneFloor(e)) && IsSats(RoundTwoFloor(e)) }

  /** validateVaultCoin, given an artifact that reproduces. */
  function ValidateCoin(v: Vault, coin: Coin): Validated {
    var e := v.economics;
    if !FloorsFit(e) then Invalid(UnusableFloors)
    else if !(0 < coin.value <= MAX_SAFE && coin.vout <= 0xffff_ffff) then Invalid(NotTrustedInput)
    else
      match coin.kind
      case VaultCoin =>
        if coin.owner.Some? || coin.round.None? then Invalid(MalformedVaultCoin)
        else
          var ids := coin.round.value;
          if !IsRound(ids) then Invalid(UnknownRound)
          else if coin.script != v.roster.vault(ids) then Invalid(WrongScript)
          else if ids == EVERYONE && coin.value != FundingValue(e) then Invalid(WrongFundingValue)
          else if |ids| == 2 && !(RoundOneFloor(e) <= coin.value <= MaximumPairValue(e)) then Invalid(PairValueOutOfBounds)
          else Valid(ids)
      case FinalPayout =>
        if coin.round.Some? || coin.owner.None? then Invalid(MalformedPayoutCoin)
        else if coin.script != v.roster.payout(coin.owner.value) then Invalid(WrongScript)
        else if !(RoundTwoFloor(e) <= coin.value <= MaximumFinalValue(e)) then Invalid(PayoutValueOutOfBounds)
        else Valid({coin.owner.value})
  }

  // ----- building a solo proposal -----

  /** outputValue: the first condition of that output and operator. */
  function FindValue(cs: seq<Condition>, index: nat, operator: Operator): Option<int> {
    if cs == [] then None
    else if cs[0].OutputValue? && cs[0].index == index && cs[0].operator == operator then Some(cs[0].value)
    else FindValue(cs[1..], index, operator)
  }

  /** outputAddress: the first pinned address of that output. */
  function FindAddress(cs: seq<Condition>, index: nat): Option<Address> {
    if cs == [] then None
    else if cs[0].OutputDestIsInSets? && cs[0].index == index then
      (if cs[0].addresses == [] then None else Some(cs[0].addresses[0]))
    else FindAddress(cs[1..], index)
  }

  datatype BuildError = NotACurrentParticipant | MissingCondition | BelowFloor(leftover: int, floor: int) | NoFee

  datatype Built = Proposal(tx: Tx, fee: int) | Refused(error: BuildError)

  function SoloFee(e: Economics, ids: Round): int { if ids == EVERYONE then e.soloFee else e.soloFee * 2 }

  /** buildSoloWithdrawalPsbt: payout and leftover as the policy's own conditions
      give them, and the configured fee. */
  function BuildSolo(v: Vault, ids: Round, leaver: Id, value: int): Built {
    if leaver !in ids then Refused(NotACurrentParticipant)
    else
      var cs := Conditions(v.roster, v.economics, ids, leaver);
      var payout, floor := FindValue(cs, 0, EQ), FindValue(cs, 1, GTE);
      var payee, next := FindAddress(cs, 0), FindAddress(cs, 1);
      if payout.None? || floor.None? || payee.None? || next.None? then Refused(MissingCondition)
      else
        var leftover := value - payout.value - SoloFee(v.economics, ids);
        if leftover < floor.value then Refused(BelowFloor(leftover, floor.value))
        else if payout.value + leftover >= value then Refused(NoFee)
        else
          Proposal(Tx(Some(v.roster.leafKey(ids, leaver)), Some(1),
                      [Output(payee, payout.value), Output(next, leftover)]),
                   value - payout.value - leftover)
  }

  lemma PolicyAmounts(r: Roster, e: Economics, ids: Round, leaver: Id)
    ensures var cs := Conditions(r, e, ids, leaver);
            && FindValue(cs, 0, EQ) == Some(PayoutOf(e, ids)) && FindValue(cs, 1, GTE) == Some(FloorOf(e, ids))
            && FindAddress(cs, 0) == Some(r.payout(leaver)) && FindAddress(cs, 1) == Some(NextAddress(r, ids, leaver))
  {
    var cs := Conditions(r, e, ids, leaver);
    var one, two, three := cs[1..], cs[2..], cs[3..];
    assert one[1..] == two && two[1..] == three;
    assert one[0] == cs[1] && two[0] == cs[2] && three[0] == cs[3];
    assert FindValue(cs, 1, GTE) == FindValue(one, 1, GTE) == FindValue(two, 1, GTE) == FindValue(three, 1, GTE);
    assert FindAddress(cs, 0) == FindAddress(one, 0);
    assert FindAddress(cs, 1) == FindAddress(one, 1) == FindAddress(two, 1);
  }

  /** Output 1 of a spend that `leaver` made, as the next coordinated coin:
      the vault of the surviving pair, or the last participant's payout. */
  function NextCoin(ids: Round, leaver: Id, output: Output, txid: string): Coin {
    var script := if output.address.Some? then output.address.value else "";
    if ids == EVERYONE then Coin(VaultCoin, Some(ids - {leaver}), None, output.value, script, txid, 1)
    else Coin(FinalPayout, None, Some(Other(ids, leaver)), output.value, script, txid, 1)
  }

  /** deriveNextVaultCoin for a confirmed solo proposal. */
  function DeriveNext(v: Vault, coin: Coin, leaver: Id, txid: string): Option<Coin> {
    match ValidateCoin(v, coin)
    case Invalid(_) => None
    case Valid(ids) =>
      if !coin.kind.VaultCoin? then None
      else
        match BuildSolo(v, ids, leaver, coin.value)
        case Refused(_) => None
        case Proposal(tx, _) =>
          var next := NextCoin(ids, leaver, tx.outputs[1], txid);
          if ValidateCoin(v, next).Valid? then Some(next) else None
  }

  // ----- rounds -----

  lemma PairFacts(ids: Round, leaver: Id)
    requires IsRound(ids) && leaver in ids
    ensures ids == EVERYONE ==> |ids - {leaver}| == 2 && |ids| == 3
    ensures ids != EVERYONE ==> ids == {leaver, Other(ids, leaver)} && Other(ids, leaver) != leaver
  {
    if ids == EVERYONE {
      TrioWithout(leaver);
    } else {
      PairIs(ids, leaver);
    }
  }

  lemma TrioWithout(leaver: Id)
    ensures |EVERYONE| == 3 && |EVERYONE - {leaver}| == 2
  {
    assert EVERYONE == {leaver} + (EVERYONE - {leaver});
  }

  lemma PairIs(ids: Round, leaver: Id)
    requires |ids| == 2 && leaver in ids
    ensures Other(ids, leaver) != leaver && ids == {leaver, Other(ids, leaver)}
  {
    var rest := ids - {leaver};
    assert ids == rest + {leaver};
    var other := OneLeft(rest);
    forall x: Id ensures x in ids <==> x == leaver || x == other {
    }
  }

  lemma OneLeft<T>(s: set<T>) returns (x: T)
    requires |s| == 1
    ensures s == {x}
  {
    x :| x in s;
    var rest := s - {x};
    assert |rest| == 0;
    assert s == {x} + rest;
  }

  lemma PairIsNotAll(ids: Round)
    requires |ids| == 2
    ensures Alice !in ids || Bob !in ids || Carol !in ids
  {
    assert |EVERYONE| == 3;
    if EVERYONE <= ids {
      Sets.SubsetSize(EVERYONE, ids);
    }
  }

  // ----- adversarial spends -----

  function OutputTotal(outputs: seq<Output>): int {
    if outputs == [] then 0 else outputs[0].value + OutputTotal(outputs[1..])
  }

  /** A value-conserving transaction from the coin that the leaver's own policy
      accepts; the leaver chooses everything the policy leaves open. */
  predicate PolicySpend(v: Vault, ids: Round, value: int, leaver: Id, tx: Tx) {
    && leaver in ids
    && Evaluate(tx, SoloPolicy(v.roster, v.economics, ids, leaver)) == []
    && OutputTotal(tx.outputs) <= value
    && forall i | 0 <= i < |tx.outputs| :: tx.outputs[i].value >= 0
  }

  datatype Move = Move(leaver: Id, tx: Tx, txid: string)

  /** The coin after a move; none when the move is not allowed there. */
  function Play(v: Vault, coin: Coin, move: Move): Option<Coin> {
    if coin.kind.VaultCoin? && coin.round.Some? && PolicySpend(v, coin.round.value, coin.value, move.leaver, move.tx) then
      SoloPolicyMeans(v.roster, v.economics, coin.round.value, move.leaver, move.tx);
      Some(NextCoin(coin.round.value, move.leaver, move.tx.outputs[1], move.txid))
    else None
  }

  function PlayAll(v: Vault, coin: Coin, moves: seq<Move>): Option<Coin> {
    if moves == [] then Some(coin)
    else
      match PlayAll(v, coin, moves[..|moves| - 1])
      case None => None
      case Some(c) => Play(v, c, moves[|moves| - 1])
  }

  /** The coin funding hands over. */
  predicate IsFundingCoin(v: Vault, coin: Coin) {
    && coin.kind == VaultCoin && coin.round == Some(EVERYONE) && coin.owner == None
    && coin.value == FundingValue(v.economics) && coin.script == v.roster.vault(EVERYONE) && coin.vout <= 0xffff_ffff
  }

  /** It validates exactly when three deposits are a safe integer. */
  lemma FundingCoinValidates(v: Vault, coin: Coin)
    requires ValidEconomics(v.economics) && IsFundingCoin(v, coin)
    ensures ValidateCoin(v, coin).Valid? <==> FundingValue(v.economics) <= MAX_SAFE
  {
    PairFacts(EVERYONE, Alice);
  }

  lemma TwoOutputs(tx: Tx)
    requires |tx.outputs| == 2
    ensures OutputTotal(tx.outputs) == tx.outputs[0].value + tx.outputs[1].value
  {
    var rest := tx.outputs[1..];
    assert rest == [tx.outputs[1]] && rest[1..] == [];
    assert OutputTotal(rest) == rest[0].value + OutputTotal(rest[1..]);
  }

  /** One accepted spend of a validated coin leads to a validated coin. */
  lemma PolicySpendKeepsBounds(v: Vault, coin: Coin, move: Move)
    requires ValidEconomics(v.economics) && ValidateCoin(v, coin).Valid? && Play(v, coin, move).Some?
    ensures ValidateCoin(v, Play(v, coin, move).value).Valid?
  {
    var ids := coin.round.value;
    SoloPolicyMeans(v.roster, v.economics, ids, move.leaver, move.tx);
    TwoOutputs(move.tx);
    PairFacts(ids, move.leaver);
  }

  /** Safety over every adversarial run from the funding coin: each coin reached
      validates, and a run makes at most two moves. */
  lemma {:induction false} EveryRunStaysInBounds(v: Vault, start: Coin, moves: seq<Move>)
    requires ValidEconomics(v.economics) && FundingValue(v.economics) <= MAX_SAFE && IsFundingCoin(v, start)
    requires PlayAll(v, start, moves).Some?
    ensures ValidateCoin(v, PlayAll(v, start, moves).value).Valid?
    ensures |moves| <= 2
    ensures var c := PlayAll(v, start, moves).value;
            if |moves| == 2 then c.kind == FinalPayout
            else c.kind == VaultCoin && c.round.Some? && IsRound(c.round.value) && |c.round.value| == 3 - |moves|
    ensures var e, c := v.economics, PlayAll(v, start, moves).value;
            && (|moves| == 1 ==> 3 * e.deposit - e.firstWithdrawal - e.soloFeeBudget <= c.value <= 3 * e.deposit - e.firstWithdrawal)
            && (|moves| == 2 ==> e.secondWithdrawal - 2 * e.soloFeeBudget <= c.value <= e.secondWithdrawal)
  {
    PairFacts(EVERYONE, Alice);
    if moves == [] {
      FundingCoinValidates(v, start);
    } else {
      var last := |moves| - 1;
      EveryRunStaysInBounds(v, start, moves[..last]);
      var c := PlayAll(v, start, moves[..last]).value;
      PolicySpendKeepsBounds(v, c, moves[last]);
      PairFacts(c.round.value, moves[last].leaver);
    }
  }

  /** The spend that leaves exactly `leftover`. */
  function Spending(v: Vault, ids: Round, leaver: Id, leftover: int): Tx {
    Tx(Some(v.roster.leafKey(ids, leaver)), Some(1),
       [ Output(Some(v.roster.payout(leaver)), PayoutOf(v.economics, ids)),
         Output(Some(NextAddress(v.roster, ids, leaver)), leftover) ])
  }

  /** From a validated coin the leaver can leave exactly the values between the
      floor and what the payout leaves over. */
  lemma SpendingIsAllowed(v: Vault, ids: Round, leaver: Id, value: int, leftover: int)
    requires ValidEconomics(v.economics) && IsRound(ids) && leaver in ids && leftover >= 0
    ensures var e := v.economics;
            PolicySpend(v, ids, value, leaver, Spending(v, ids, leaver, leftover)) <==>
              if ids == EVERYONE then 3 * e.deposit - e.firstWithdrawal - e.soloFeeBudget <= leftover <= value - e.firstWithdrawal
              else e.secondWithdrawal - 2 * e.soloFeeBudget <= leftover <= value - e.secondWithdrawal
  {
    var tx := Spending(v, ids, leaver, leftover);
    SoloPolicyMeans(v.roster, v.economics, ids, leaver, tx);
    TwoOutputs(tx);
  }

  /** Tightness: every validated pair coin has its round and value reached. */
  lemma PairValuesReached(v: Vault, start: Coin, coin: Coin) returns (move: Move)
    requires ValidEconomics(v.economics) && IsFundingCoin(v, start)
    requires ValidateCoin(v, coin).Valid? && coin.kind == VaultCoin && coin.round != Some(EVERYONE) && coin.vout == 1
    ensures Play(v, start, move) == Some(coin)
  {
    var ids := coin.round.value;
    var leaver := if Alice !in ids then Alice else if Bob !in ids then Bob else Carol;
    PairComplement(ids, leaver);
    move := Move(leaver, Spending(v, EVERYONE, leaver, coin.value), coin.txid);
    SpendingIsAllowed(v, EVERYONE, leaver, start.value, coin.value);
  }

  lemma PairComplement(ids: Round, leaver: Id)
    requires |ids| == 2 && leaver == if Alice !in ids then Alice else if Bob !in ids then Bob else Carol
    ensures EVERYONE - {leaver} == ids
  {
    PairIsNotAll(ids);
    PairFacts(EVERYONE, leaver);
    var rest := (EVERYONE - {leaver}) - ids;
    forall x | x in ids ensures x in EVERYONE - {leaver} {
      assert x == Alice || x == Bob || x == Carol;
    }
    assert |EVERYONE - {leaver}| == |ids| + |rest|;
    assert EVERYONE - {leaver} == ids + rest;
  }

  /** Tightness: every validated final payout coin is reached, by two moves. */
  lemma FinalValuesReached(v: Vault, start: Coin, coin: Coin) returns (moves: seq<Move>)
    requires ValidEconomics(v.economics) && FundingValue(v.economics) <= MAX_SAFE && IsFundingCoin(v, start)
    requires ValidateCoin(v, coin).Valid? && coin.kind == FinalPayout && coin.vout == 1
    ensures |moves| == 2 && PlayAll(v, start, moves) == Some(coin)
  {
    var e, owner := v.economics, coin.owner.value;
    var first := if owner == Alice then Bob else Alice;
    var second := if owner == Carol then Bob else Carol;
    var ids := EVERYONE - {first};
    PairFacts(EVERYONE, first);
    PairFacts(ids, second);
    var mid := Coin(VaultCoin, Some(ids), None, MaximumPairValue(e), v.roster.vault(ids), "", 1);
    var one := Move(first, Spending(v, EVERYONE, first, mid.value), "");
    var two := Move(second, Spending(v, ids, second, coin.value), coin.txid);
    SpendingIsAllowed(v, EVERYONE, first, start.value, mid.value);
    SpendingIsAllowed(v, ids, second, mid.value, coin.value);
    assert Play(v, start, one) == Some(mid);
    assert Other(ids, second) == owner;
    assert Play(v, mid, two) == Some(coin);
    moves := [one, two];
    assert moves[..1] == [one] && [one][..0] == [];
    assert PlayAll(v, start, [one]) == Some(mid);
  }

  // ----- what a leaver can burn -----

  /** What spends of a coin can leave to fees. From the funding coin that is
      anything up to one fee budget; from a pair coin the floor still stands two
      budgets below what the schedule leaves, so a second leaver can also burn
      what the first one did not. */
  lemma BurnRange(v: Vault, ids: Round, leaver: Id, value: int, burnt: int)
    requires ValidEconomics(v.economics) && IsRound(ids) && leaver in ids
    ensures var e := v.economics;
            (exists tx :: PolicySpend(v, ids, value, leaver, tx) && value - OutputTotal(tx.outputs) == burnt) <==>
              0 <= burnt <= if ids == EVERYONE then value - (3 * e.deposit - e.soloFeeBudget)
                            else value - 2 * (e.secondWithdrawal - e.soloFeeBudget)
  {
    var e := v.economics;
    forall tx | PolicySpend(v, ids, value, leaver, tx)
      ensures value - OutputTotal(tx.outputs) <= if ids == EVERYONE then value - (3 * e.deposit - e.soloFeeBudget)
                                                 else value - 2 * (e.secondWithdrawal - e.soloFeeBudget)
    {
      SoloPolicyMeans(v.roster, e, ids, leaver, tx);
      TwoOutputs(tx);
    }
    var leftover := value - PayoutOf(e, ids) - burnt;
    if leftover >= 0 {
      SpendingIsAllowed(v, ids, leaver, value, leftover);
      TwoOutputs(Spending(v, ids, leaver, leftover));
    }
  }

  /** The first leaver burns at most one fee budget; a second one at most one
      exactly when the first has burnt a whole budget. */
  lemma SecondBurnsMore(v: Vault, first: Coin, ids: Round, leaver: Id)
    requires ValidEconomics(v.economics) && |ids| == 2 && leaver in ids
    requires ValidateCoin(v, first).Valid? && first.kind == VaultCoin && first.round == Some(ids)
    ensures (forall tx | PolicySpend(v, ids, first.value, leaver, tx) ::
               first.value - OutputTotal(tx.outputs) <= v.economics.soloFeeBudget) <==>
            first.value == 3 * v.economics.deposit - v.economics.firstWithdrawal - v.economics.soloFeeBudget
  {
    var e := v.economics;
    PairFacts(EVERYONE, Alice);
    var most := first.value - 2 * (e.secondWithdrawal - e.soloFeeBudget);
    BurnRange(v, ids, leaver, first.value, most);
    forall tx | PolicySpend(v, ids, first.value, leaver, tx) ensures first.value - OutputTotal(tx.outputs) <= most {
      BurnRange(v, ids, leaver, first.value, first.value - OutputTotal(tx.outputs));
    }
  }

  ghost predicate Reaches(v: Vault, start: Coin, moves: seq<Move>, value: int) {
    PlayAll(v, start, moves).Some? && PlayAll(v, start, moves).value.value == value
  }

  /** The values reachable by one and by two moves of any leavers. */
  lemma ReachableValues(v: Vault, start: Coin, n: nat, value: int)
    requires ValidEconomics(v.economics) && FundingValue(v.economics) <= MAX_SAFE && IsFundingCoin(v, start) && 1 <= n <= 2
    ensures var e := v.economics;
            (exists moves :: |moves| == n && Reaches(v, start, moves, value)) <==>
              if n == 1 then 3 * e.deposit - e.firstWithdrawal - e.soloFeeBudget <= value <= 3 * e.deposit - e.firstWithdrawal
              else e.secondWithdrawal - 2 * e.soloFeeBudget <= value <= e.secondWithdrawal
  {
    var e := v.economics;
    forall moves | |moves| == n && Reaches(v, start, moves, value)
      ensures if n == 1 then 3 * e.deposit - e.firstWithdrawal - e.soloFeeBudget <= value <= 3 * e.deposit - e.firstWithdrawal
              else e.secondWithdrawal - 2 * e.soloFeeBudget <= value <= e.secondWithdrawal
    {
      EveryRunStaysInBounds(v, start, moves);
    }
    if n == 1 && 3 * e.deposit - e.firstWithdrawal - e.soloFeeBudget <= value <= 3 * e.deposit - e.firstWithdrawal {
      var ids := EVERYONE - {Alice};
      PairFacts(EVERYONE, Alice);
      var move := PairValuesReached(v, start, Coin(VaultCoin, Some(ids), None, value, v.roster.vault(ids), "", 1));
      assert [move][..0] == [];
      assert Reaches(v, start, [move], value);
    }
    if n == 2 && e.secondWithdrawal - 2 * e.soloFeeBudget <= value <= e.secondWithdrawal {
      var moves := FinalValuesReached(v, start, Coin(FinalPayout, None, Some(Alice), value, v.roster.payout(Alice), "", 1));
      assert Reaches(v, start, moves, value);
    }
  }

  // ----- built solo exits -----

  /** Every current participant of every validated vault coin can leave: the
      proposal builds, pays the configured fee, passes its own policy, spends
      within the coin, and the derived coin validates. */
  lemma SoloExitAlwaysPossible(v: Vault, coin: Coin, leaver: Id, txid: string)
    requires ValidEconomics(v.economics) && ValidateCoin(v, coin).Valid? && coin.kind == VaultCoin
    requires leaver in coin.round.value
    ensures var ids := coin.round.value;
            var built := BuildSolo(v, ids, leaver, coin.value);
            && built.Proposal? && built.fee == SoloFee(v.economics, ids)
            && OutputTotal(built.tx.outputs) + built.fee == coin.value
            && PolicySpend(v, ids, coin.value, leaver, built.tx)
            && DeriveNext(v, coin, leaver, txid).Some?
            && DeriveNext(v, coin, leaver, txid) == Play(v, coin, Move(leaver, built.tx, txid))
            && DeriveNext(v, coin, leaver, txid).value.value == coin.value - PayoutOf(v.economics, ids) - SoloFee(v.economics, ids)
  {
    var ids, e := coin.round.value, v.economics;
    PolicyAmounts(v.roster, e, ids, leaver);
    PairFacts(ids, leaver);
    var built := BuildSolo(v, ids, leaver, coin.value);
    var leftover := coin.value - PayoutOf(e, ids) - SoloFee(e, ids);
    assert built == Proposal(Spending(v, ids, leaver, leftover), SoloFee(e, ids));
    SpendingIsAllowed(v, ids, leaver, coin.value, leftover);
    TwoOutputs(built.tx);
    PolicySpendKeepsBounds(v, coin, Move(leaver, built.tx, txid));
  }

  ghost predicate EveryExitBuilds(v: Vault) {
    forall coin, leaver | ValidateCoin(v, coin).Valid? && coin.kind == VaultCoin && leaver in coin.round.value ::
      BuildSolo(v, coin.round.value, leaver, coin.value).Proposal?
  }

  /** Twice the solo fee must fit the budget: among economics valid but for their
      fee, that is exactly when every exit builds. */
  lemma ExitsNeedTwiceTheFee(v: Vault)
    requires ValidEconomics(v.economics.(soloFee := 1)) && v.economics.soloFee > 0 && FundingValue(v.economics) <= MAX_SAFE
    ensures EveryExitBuilds(v) <==> 2 * v.economics.soloFee <= v.economics.soloFeeBudget
  {
    var e := v.economics;
    if 2 * e.soloFee <= e.soloFeeBudget {
      forall coin, leaver | ValidateCoin(v, coin).Valid? && coin.kind == VaultCoin && leaver in coin.round.value
        ensures BuildSolo(v, coin.round.value, leaver, coin.value).Proposal?
      {
        SoloExitAlwaysPossible(v, coin, leaver, "");
      }
    } else {
      var ids := EVERYONE - {Alice};
      PairFacts(EVERYONE, Alice);
      var worst := Coin(VaultCoin, Some(ids), None, RoundOneFloor(e), v.roster.vault(ids), "", 1);
      PolicyAmounts(v.roster, e, ids, Bob);
      assert ValidateCoin(v, worst).Valid? && Bob in ids;
    }
  }

  /** Two built exits from the funding coin leave the last participant exactly
      the second withdrawal less three solo fees, whoever leaves first. */
  lemma BuiltExitsLeave(v: Vault, start: Coin, first: Id, second: Id, txid1: string, txid2: string)
    requires ValidEconomics(v.economics) && FundingValue(v.economics) <= MAX_SAFE && IsFundingCoin(v, start) && first != second
    ensures var mid := DeriveNext(v, start, first, txid1);
            && mid.Some?
            && var final := DeriveNext(v, mid.value, second, txid2);
               && final.Some?
               && final.value.kind == FinalPayout
               && final.value.owner.Some? && final.value.owner.value !in {first, second}
               && final.value.value == v.economics.secondWithdrawal - 3 * v.economics.soloFee
               && DeriveNext(v, final.value, final.value.owner.value, "").None?
  {
    FundingCoinValidates(v, start);
    PairFacts(EVERYONE, first);
    FirstExit(v, start, first, txid1);
    var mid := DeriveNext(v, start, first, txid1).value;
    assert mid.round.value == EVERYONE - {first};
    PairFacts(mid.round.value, second);
    SecondExit(v, mid, second, txid2);
  }

  lemma FirstExit(v: Vault, start: Coin, first: Id, txid: string)
    requires ValidEconomics(v.economics) && ValidateCoin(v, start).Valid? && IsFundingCoin(v, start)
    ensures var mid := DeriveNext(v, start, first, txid);
            && mid.Some? && ValidateCoin(v, mid.value).Valid? && mid.value.kind == VaultCoin
            && mid.value.round == Some(EVERYONE - {first})
            && mid.value.value == FundingValue(v.economics) - v.economics.firstWithdrawal - v.economics.soloFee
  {
    hide ValidateCoin, BuildSolo, PolicySpend;
    SoloExitAlwaysPossible(v, start, first, txid);
  }

  lemma SecondExit(v: Vault, mid: Coin, second: Id, txid: string)
    requires ValidEconomics(v.economics) && ValidateCoin(v, mid).Valid? && mid.kind == VaultCoin
    requires mid.round.Some? && mid.round.value != EVERYONE && second in mid.round.value
    ensures var final := DeriveNext(v, mid, second, txid);
            && final.Some? && final.value.kind == FinalPayout
            && final.value.owner == Some(Other(mid.round.value, second))
            && final.value.value == mid.value - v.economics.secondWithdrawal - 2 * v.economics.soloFee
            && forall id :: DeriveNext(v, final.value, id, "").None?
  {
    hide ValidateCoin, BuildSolo, PolicySpend;
    SoloExitAlwaysPossible(v, mid, second, txid);
  }
}

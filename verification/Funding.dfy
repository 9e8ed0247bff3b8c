/** Funding: three approved inputs become the first vault coin
    (src/funding-ceremony.ts, src/psbt.ts, src/funding.ts). */
module Funding {
  import opened Wrappers
  import opened SoloPolicies
  import opened VaultGame

  const MIN_RELAY_FEE := 500

  const MIN_CHANGE := 330

  datatype Outpoint = Outpoint(txid: string, vout: int)

  /** An approved input. `bound` says that version, network, vault and roster
      digest are the artifact's; `observed` that an HTTPS source saw it unspent. */
  datatype Commitment = Commitment(
    participant: Id,
    outpoint: Outpoint,
    value: int,
    script: string,
    changeAddress: Option<string>,
    fee: int,
    confirmations: int,
    bound: bool,
    observed: bool)

  /** The facts about strings the checks turn on: a 64-digit lower-case id, and a
      native P2WPKH or P2TR script. Addresses and scripts are one opaque value. */
  datatype Forms = Forms(isTxid: string -> bool, isSupported: string -> bool)

  predicate IsOutpoint(f: Forms, o: Outpoint) { f.isTxid(o.txid) && 0 <= o.vout <= 0xffff_ffff }

  function Index(id: Id): nat { match id case Alice => 0 case Bob => 1 case Carol => 2 }

  /** The shared fee by thirds; the first participant pays the remainder. */
  function FeeShare(fee: int, index: nat): int { fee / 3 + if index == 0 then fee - fee / 3 * 3 else 0 }

  lemma SharesAddUp(fee: int)
    ensures FeeShare(fee, 0) + FeeShare(fee, 1) + FeeShare(fee, 2) == fee
    ensures fee >= 0 ==> FeeShare(fee, 0) >= FeeShare(fee, 1) == FeeShare(fee, 2) >= 0
    ensures FeeShare(fee, 0) - FeeShare(fee, 1) == fee % 3
  {
  }

  predicate FeeFits(e: Economics, fee: int) { MIN_RELAY_FEE <= fee <= MAX_SAFE && fee < e.deposit }

  function Change(e: Economics, c: Commitment): int { c.value - e.deposit - FeeShare(c.fee, Index(c.participant)) }

  /** validateFundingInputCommitment */
  predicate Approved(v: Vault, f: Forms, c: Commitment) {
    var e, change := v.economics, Change(v.economics, c);
    && c.bound && IsOutpoint(f, c.outpoint)
    && 0 < c.value <= MAX_SAFE && f.isSupported(c.script)
    && FeeFits(e, c.fee)
    && change >= 0 && (change == 0 || change >= MIN_CHANGE)
    && (change == 0 ==> c.changeAddress.None?)
    && (change > 0 ==>
          && c.changeAddress.Some? && c.changeAddress.value != ""
          && f.isSupported(c.changeAddress.value) && c.changeAddress.value != v.roster.vault(EVERYONE))
    && c.observed && 1 <= c.confirmations <= 2_000_000
  }

  // ----- the funding transaction -----

  datatype TxOut = TxOut(script: string, value: int)

  datatype TxIn = TxIn(outpoint: Outpoint, sequence: nat)

  /** A transaction without its witnesses. */
  datatype FundingTx = FundingTx(version: nat, locktime: nat, inputs: seq<TxIn>, outputs: seq<TxOut>)

  const FINAL_SEQUENCE := 0xffff_ffff

  datatype FundingError =
    | BadFee | WrongApprovalCount | WrongParticipants | RepeatedOutpoint | BadOutpoint | BadValue | UnsupportedScript
    | BelowDeposit | CannotCoverFee | DustChange | MissingChangeAddress | Unapproved | MixedFees

  datatype Result<+T> = Ok(value: T) | Err(error: FundingError)

  function Find(cs: seq<Commitment>, id: Id): Option<Commitment> {
    if cs == [] then None else if cs[|cs| - 1].participant == id then Some(cs[|cs| - 1]) else Find(cs[..|cs| - 1], id)
  }

  predicate DistinctParticipants(cs: seq<Commitment>) {
    forall i, j | 0 <= i < j < |cs| :: cs[i].participant != cs[j].participant
  }

  predicate DistinctOutpoints(cs: seq<Commitment>) {
    forall i, j | 0 <= i < j < |cs| :: cs[i].outpoint != cs[j].outpoint
  }

  /** The per-input checks of buildFundingPsbt. */
  function InputError(v: Vault, f: Forms, c: Commitment, fee: int): Option<FundingError> {
    var change := c.value - v.economics.deposit - FeeShare(fee, Index(c.participant));
    if !IsOutpoint(f, c.outpoint) then Some(BadOutpoint)
    else if !(0 < c.value <= MAX_SAFE) then Some(BadValue)
    else if !f.isSupported(c.script) then Some(UnsupportedScript)
    else if c.value < v.economics.deposit then Some(BelowDeposit)
    else if change < 0 then Some(CannotCoverFee)
    else if 0 < change < MIN_CHANGE then Some(DustChange)
    else if change > 0 && (c.changeAddress.None? || c.changeAddress.value == "") then Some(MissingChangeAddress)
    else None
  }

  function ChangeOutput(e: Economics, c: Commitment, fee: int): seq<TxOut> {
    var change := c.value - e.deposit - FeeShare(fee, Index(c.participant));
    if change > 0 && c.changeAddress.Some? then [TxOut(c.changeAddress.value, change)] else []
  }

  function VaultOutput(v: Vault): TxOut { TxOut(v.roster.vault(EVERYONE), FundingValue(v.economics)) }

  function Spends(cs: seq<Commitment>): seq<TxIn> {
    seq(|cs|, i requires 0 <= i < |cs| => TxIn(cs[i].outpoint, FINAL_SEQUENCE))
  }

  /** buildFundingPsbt on inputs in roster order. */
  function BuildFunding(v: Vault, f: Forms, cs: seq<Commitment>, fee: int): Result<FundingTx> {
    if !FeeFits(v.economics, fee) then Err(BadFee)
    else if |cs| != 3 then Err(WrongApprovalCount)
    else if cs[0].participant != Alice || cs[1].participant != Bob || cs[2].participant != Carol then Err(WrongParticipants)
    else if !DistinctOutpoints(cs) then Err(RepeatedOutpoint)
    else if InputError(v, f, cs[0], fee).Some? then Err(InputError(v, f, cs[0], fee).value)
    else if InputError(v, f, cs[1], fee).Some? then Err(InputError(v, f, cs[1], fee).value)
    else if InputError(v, f, cs[2], fee).Some? then Err(InputError(v, f, cs[2], fee).value)
    else
      Ok(FundingTx(2, 0, Spends(cs),
                   [VaultOutput(v)]
                   + ChangeOutput(v.economics, cs[0], fee) + ChangeOutput(v.economics, cs[1], fee)
                   + ChangeOutput(v.economics, cs[2], fee)))
  }

  /** buildFundingProposal: any order of approvals, put in roster order. */
  function BuildProposal(v: Vault, f: Forms, cs: seq<Commitment>, fee: int): Result<FundingTx> {
    if !FeeFits(v.economics, fee) then Err(BadFee)
    else if |cs| != 3 then Err(WrongApprovalCount)
    else if !(forall i | 0 <= i < |cs| :: Approved(v, f, cs[i])) then Err(Unapproved)
    else if !(forall i | 0 <= i < |cs| :: cs[i].fee == fee) then Err(MixedFees)
    else
      var a, b, c := Find(cs, Alice), Find(cs, Bob), Find(cs, Carol);
      if a.None? || b.None? || c.None? then Err(WrongParticipants)
      else
        var ordered := [a.value, b.value, c.value];
        if !DistinctOutpoints(ordered) then Err(RepeatedOutpoint)
        else BuildFunding(v, f, ordered, fee)
  }

  lemma {:induction false} FindIn(cs: seq<Commitment>, id: Id)
    ensures match Find(cs, id)
            case None => forall i | 0 <= i < |cs| :: cs[i].participant != id
            case Some(c) => c in cs && c.participant == id
  {
    if cs != [] {
      FindIn(cs[..|cs| - 1], id);
    }
  }

  /** Three commitments by distinct participants are one by each. */
  lemma OneOfEach(cs: seq<Commitment>)
    requires |cs| == 3 && DistinctParticipants(cs)
    ensures Find(cs, Alice).Some? && Find(cs, Bob).Some? && Find(cs, Carol).Some?
  {
    FindIn(cs, Alice);
    FindIn(cs, Bob);
    FindIn(cs, Carol);
    assert cs[0].participant != cs[1].participant && cs[0].participant != cs[2].participant && cs[1].participant != cs[2].participant;
  }

  // ----- the confirmation checks -----

  datatype Prevout = Prevout(outpoint: Outpoint, sequence: nat, coinbase: bool, value: int, script: string)

  datatype Confirmed = Confirmed(txid: string, version: nat, locktime: nat, vin: seq<Prevout>, vout: seq<TxOut>)

  function TotalIn(vin: seq<Prevout>): int { if vin == [] then 0 else TotalIn(vin[..|vin| - 1]) + vin[|vin| - 1].value }

  function TotalOut(vout: seq<TxOut>): int { if vout == [] then 0 else TotalOut(vout[..|vout| - 1]) + vout[|vout| - 1].value }

  /** The chain evidence authorizeConfirmedFundingTransaction asks for. */
  predicate FundsVault(tx: Confirmed, f: Forms, expectedTxid: string, expectedVout: nat, deposit: int, fundingValue: int, fundingScript: string) {
    && tx.txid == expectedTxid && |tx.vin| == 3
    && 0 < deposit <= MAX_SAFE && fundingValue == deposit * 3
    && (forall i | 0 <= i < |tx.vin| ::
          !tx.vin[i].coinbase && IsOutpoint(f, tx.vin[i].outpoint) && f.isSupported(tx.vin[i].script) && tx.vin[i].value >= deposit)
    && (forall i, j | 0 <= i < j < |tx.vin| :: tx.vin[i].outpoint != tx.vin[j].outpoint)
    && expectedVout < |tx.vout| <= 4
    && (forall i | 0 <= i < |tx.vout| :: tx.vout[i].script == fundingScript <==> i == expectedVout)
    && tx.vout[expectedVout].value == fundingValue
    && (forall i | 0 <= i < |tx.vout| && i != expectedVout :: tx.vout[i].value >= MIN_CHANGE)
    && MIN_RELAY_FEE <= TotalIn(tx.vin) - TotalOut(tx.vout) < deposit
  }

  /** authorizeConfirmedFundingTransaction; the result is the fee. Output indexes
      are positions, amounts are satoshis. */
  method AuthorizeConfirmed(tx: Confirmed, f: Forms, expectedTxid: string, expectedVout: nat, deposit: int,
                            fundingValue: int, fundingScript: string) returns (fee: Option<int>)
    ensures fee.Some? <==> FundsVault(tx, f, expectedTxid, expectedVout, deposit, fundingValue, fundingScript)
    ensures fee.Some? ==> fee.value == TotalIn(tx.vin) - TotalOut(tx.vout)
  {
    if tx.txid != expectedTxid || |tx.vin| != 3 || !(0 < deposit <= MAX_SAFE) || fundingValue != deposit * 3 {
      return None;
    }
    var inputs := CheckInputs(tx.vin, f, deposit);
    if inputs.None? {
      return None;
    }
    var only := OnlyMatch(tx.vout, fundingScript);
    if only != Some(expectedVout) {
      return None;
    }
    if tx.vout[expectedVout].value != fundingValue || |tx.vout| > 4 {
      return None;
    }
    var outputTotal := 0;
    for i := 0 to |tx.vout|
      invariant outputTotal == TotalOut(tx.vout[..i])
      invariant forall j | 0 <= j < i && j != expectedVout :: tx.vout[j].value >= MIN_CHANGE
    {
      if i != expectedVout && tx.vout[i].value < MIN_CHANGE {
        return None;
      }
      assert tx.vout[..i + 1][..i] == tx.vout[..i];
      outputTotal := outputTotal + tx.vout[i].value;
    }
    assert tx.vout[..|tx.vout|] == tx.vout;
    var feeSats := inputs.value - outputTotal;
    if feeSats < MIN_RELAY_FEE || feeSats >= deposit {
      return None;
    }
    fee := Some(feeSats);
  }

  method CheckInputs(vin: seq<Prevout>, f: Forms, deposit: int) returns (total: Option<int>)
    ensures total.Some? <==>
              && (forall i | 0 <= i < |vin| ::
                    !vin[i].coinbase && IsOutpoint(f, vin[i].outpoint) && f.isSupported(vin[i].script) && vin[i].value >= deposit)
              && (forall i, j | 0 <= i < j < |vin| :: vin[i].outpoint != vin[j].outpoint)
    ensures total.Some? ==> total.value == TotalIn(vin)
  {
    var seenOutpoints: set<Outpoint> := {};
    var sum := 0;
    for i := 0 to |vin|
      invariant forall j | 0 <= j < i ::
        !vin[j].coinbase && IsOutpoint(f, vin[j].outpoint) && f.isSupported(vin[j].script) && vin[j].value >= deposit
      invariant forall j, k | 0 <= j < k < i :: vin[j].outpoint != vin[k].outpoint
      invariant forall o :: o in seenOutpoints <==> exists j | 0 <= j < i :: vin[j].outpoint == o
      invariant sum == TotalIn(vin[..i])
    {
      if vin[i].coinbase || !IsOutpoint(f, vin[i].outpoint) || vin[i].outpoint in seenOutpoints {
        return None;
      }
      if !f.isSupported(vin[i].script) || vin[i].value < deposit {
        return None;
      }
      seenOutpoints := seenOutpoints + {vin[i].outpoint};
      assert vin[..i + 1][..i] == vin[..i];
      sum := sum + vin[i].value;
    }
    assert vin[..|vin|] == vin;
    total := Some(sum);
  }

  /** The position of the one output paying `script`; none if there is not exactly one. */
  method OnlyMatch(vout: seq<TxOut>, script: string) returns (only: Option<nat>)
    ensures match only
            case Some(k) => k < |vout| && forall i | 0 <= i < |vout| :: vout[i].script == script <==> i == k
            case None => !exists k | 0 <= k < |vout| :: (vout[k].script == script && forall i | 0 <= i < |vout| && i != k :: vout[i].script != script)
  {
    only := None;
    for i := 0 to |vout|
      invariant match only
                case Some(k) => k < i && forall j | 0 <= j < i :: vout[j].script == script <==> j == k
                case None => forall j | 0 <= j < i :: vout[j].script != script
    {
      if vout[i].script == script {
        if only.Some? {
          assert vout[only.value].script == vout[i].script == script && only.value != i;
          return None;
        }
        only := Some(i);
      }
    }
  }

  /** The confirmed transaction without witnesses and resolved prevouts. */
  function NonWitness(tx: Confirmed): FundingTx {
    FundingTx(tx.version, tx.locktime, seq(|tx.vin|, i requires 0 <= i < |tx.vin| => TxIn(tx.vin[i].outpoint, tx.vin[i].sequence)),
              tx.vout)
  }

  /** authorizeConfirmedFundingProposal: the approved transaction and no other. */
  method AuthorizeProposal(tx: Confirmed, expected: FundingTx, expectedTxid: string, approvedTxid: string) returns (ok: bool)
    ensures ok <==> approvedTxid == tx.txid == expectedTxid && NonWitness(tx) == expected
  {
    if approvedTxid != expectedTxid || tx.txid != expectedTxid || tx.version != expected.version
      || tx.locktime != expected.locktime || |tx.vin| != |expected.inputs| {
      return false;
    }
    for i := 0 to |expected.inputs|
      invariant forall j | 0 <= j < i :: TxIn(tx.vin[j].outpoint, tx.vin[j].sequence) == expected.inputs[j]
    {
      if tx.vin[i].outpoint != expected.inputs[i].outpoint || tx.vin[i].sequence != expected.inputs[i].sequence {
        assert NonWitness(tx).inputs[i] != expected.inputs[i];
        return false;
      }
    }
    assert NonWitness(tx).inputs == expected.inputs;
    if |tx.vout| != |expected.outputs| {
      return false;
    }
    for i := 0 to |expected.outputs|
      invariant tx.vout[..i] == expected.outputs[..i]
    {
      if tx.vout[i].script != expected.outputs[i].script || tx.vout[i].value != expected.outputs[i].value {
        return false;
      }
    }
    ok := true;
  }

  // ----- funding hands over the first coin -----

  /** The transaction as a backend resolves it. */
  function AsConfirmed(tx: FundingTx, txid: string, cs: seq<Commitment>): Confirmed
    requires |cs| == 3
  {
    Confirmed(txid, tx.version, tx.locktime,
              [ Prevout(cs[0].outpoint, FINAL_SEQUENCE, false, cs[0].value, cs[0].script),
                Prevout(cs[1].outpoint, FINAL_SEQUENCE, false, cs[1].value, cs[1].script),
                Prevout(cs[2].outpoint, FINAL_SEQUENCE, false, cs[2].value, cs[2].script) ],
              tx.outputs)
  }

  predicate InRosterOrder(v: Vault, f: Forms, cs: seq<Commitment>, fee: int) {
    && |cs| == 3
    && cs[0].participant == Alice && cs[1].participant == Bob && cs[2].participant == Carol
    && DistinctOutpoints(cs) && forall i | 0 <= i < 3 :: Approved(v, f, cs[i]) && cs[i].fee == fee
  }

  lemma ApprovedInputsBuild(v: Vault, f: Forms, cs: seq<Commitment>, fee: int)
    requires InRosterOrder(v, f, cs, fee)
    ensures BuildFunding(v, f, cs, fee)
            == Ok(FundingTx(2, 0, Spends(cs),
                            [VaultOutput(v)] + ChangeOutput(v.economics, cs[0], fee) + ChangeOutput(v.economics, cs[1], fee)
                            + ChangeOutput(v.economics, cs[2], fee)))
  {
    hide FeeShare;
    SharesAddUp(fee);
    assert Approved(v, f, cs[0]) && Approved(v, f, cs[1]) && Approved(v, f, cs[2]);
  }

  /** What an input returns to its owner once `due` is taken. */
  function Refund(c: Commitment, due: int): seq<TxOut> {
    if c.value > due && c.changeAddress.Some? then [TxOut(c.changeAddress.value, c.value - due)] else []
  }

  /** The built outputs, amount by amount: every participant pays the deposit and
      a third of the fee rounded down, and Alice the one or two satoshis left. */
  lemma FeeSplitsByThirds(v: Vault, f: Forms, cs: seq<Commitment>, fee: int)
    requires InRosterOrder(v, f, cs, fee)
    ensures var d, built := v.economics.deposit, BuildFunding(v, f, cs, fee);
            && built.Ok?
            && built.value.outputs == [TxOut(v.roster.vault({Alice, Bob, Carol}), 3 * d)]
                                      + Refund(cs[0], d + fee / 3 + fee % 3) + Refund(cs[1], d + fee / 3) + Refund(cs[2], d + fee / 3)
    ensures forall i, j | 0 <= i < 3 && 0 <= j < 3 ::
              (cs[i].value - v.economics.deposit - Change(v.economics, cs[i])) - (cs[j].value - v.economics.deposit - Change(v.economics, cs[j])) <= 2
  {
    ApprovedInputsBuild(v, f, cs, fee);
    SharesAddUp(fee);
    assert Approved(v, f, cs[0]) && Approved(v, f, cs[1]) && Approved(v, f, cs[2]);
    var d := v.economics.deposit;
    assert ChangeOutput(v.economics, cs[0], fee) == Refund(cs[0], d + fee / 3 + fee % 3);
    assert ChangeOutput(v.economics, cs[1], fee) == Refund(cs[1], d + fee / 3);
    assert ChangeOutput(v.economics, cs[2], fee) == Refund(cs[2], d + fee / 3);
  }

  lemma ConfirmsAsItself(tx: FundingTx, txid: string, cs: seq<Commitment>)
    requires |cs| == 3 && tx.inputs == Spends(cs)
    ensures NonWitness(AsConfirmed(tx, txid, cs)) == tx
  {
    assert NonWitness(AsConfirmed(tx, txid, cs)).inputs == tx.inputs;
  }

  /** What the later steps need of one approved input. */
  lemma ApprovedMeans(v: Vault, f: Forms, c: Commitment, fee: int)
    requires Approved(v, f, c) && c.fee == fee
    ensures IsOutpoint(f, c.outpoint) && f.isSupported(c.script)
    ensures 0 < v.economics.deposit <= MAX_SAFE && MIN_RELAY_FEE <= fee < v.economics.deposit <= c.value
    ensures Change(v.economics, c) == c.value - v.economics.deposit - FeeShare(fee, Index(c.participant)) >= 0
    ensures Change(v.economics, c) > 0 ==> c.changeAddress.Some?
    ensures Clean(v, ChangeOutput(v.economics, c, fee)) && |ChangeOutput(v.economics, c, fee)| <= 1
  {
    assert FeeShare(fee, Index(c.participant)) >= 0 by { SharesAddUp(fee); }
  }

  /** Outputs above the dust floor that do not pay the vault. */
  predicate Clean(v: Vault, outputs: seq<TxOut>) {
    forall i | 0 <= i < |outputs| :: outputs[i].script != v.roster.vault(EVERYONE) && outputs[i].value >= MIN_CHANGE
  }

  lemma CleanTail(v: Vault, outputs: seq<TxOut>, a: seq<TxOut>, b: seq<TxOut>, c: seq<TxOut>)
    requires outputs == [VaultOutput(v)] + a + b + c && Clean(v, a) && Clean(v, b) && Clean(v, c)
    ensures |outputs| == 1 + |a| + |b| + |c|
    ensures forall i | 0 <= i < |outputs| :: outputs[i].script == v.roster.vault(EVERYONE) <==> i == 0
    ensures forall i | 0 <= i < |outputs| && i != 0 :: outputs[i].value >= MIN_CHANGE
  {
    var tail := a + b + c;
    assert outputs == [VaultOutput(v)] + tail && Clean(v, tail);
  }

  /** Three approved commitments in roster order: the builder succeeds, value
      balances to the satoshi, and the chain check accepts the transaction. */
  lemma ApprovedInputsFund(v: Vault, f: Forms, cs: seq<Commitment>, fee: int, txid: string)
    requires InRosterOrder(v, f, cs, fee)
    ensures var built := BuildFunding(v, f, cs, fee);
            && built.Ok?
            && var e, tx := v.economics, AsConfirmed(built.value, txid, cs);
               && cs[0].value + cs[1].value + cs[2].value
                  == 3 * e.deposit + Change(e, cs[0]) + Change(e, cs[1]) + Change(e, cs[2]) + fee
               && TotalIn(tx.vin) - TotalOut(tx.vout) == fee
               && FundsVault(tx, f, txid, 0, e.deposit, FundingValue(e), v.roster.vault(EVERYONE))
               && NonWitness(tx) == built.value
               && built.value.outputs[0] == VaultOutput(v)
  {
    hide FeeShare, BuildFunding, Spends, NonWitness, ChangeOutput, Change, Approved, FeeFits, IsOutpoint;
    SharesAddUp(fee);
    ApprovedInputsBuild(v, f, cs, fee);
    ConfirmsAsItself(BuildFunding(v, f, cs, fee).value, txid, cs);
    ApprovedMeans(v, f, cs[0], fee);
    ApprovedMeans(v, f, cs[1], fee);
    ApprovedMeans(v, f, cs[2], fee);
    var tx := AsConfirmed(BuildFunding(v, f, cs, fee).value, txid, cs);
    OutputsAddUp(v, cs, fee);
    ThreeInputs(tx.vin);
    CleanTail(v, tx.vout, ChangeOutput(v.economics, cs[0], fee), ChangeOutput(v.economics, cs[1], fee), ChangeOutput(v.economics, cs[2], fee));
  }

  lemma OutputsAddUp(v: Vault, cs: seq<Commitment>, fee: int)
    requires |cs| == 3 && forall i | 0 <= i < 3 :: cs[i].fee == fee && Change(v.economics, cs[i]) >= 0
    requires forall i | 0 <= i < 3 :: Change(v.economics, cs[i]) > 0 ==> cs[i].changeAddress.Some?
    ensures TotalOut([VaultOutput(v)] + ChangeOutput(v.economics, cs[0], fee) + ChangeOutput(v.economics, cs[1], fee)
                     + ChangeOutput(v.economics, cs[2], fee))
            == FundingValue(v.economics) + Change(v.economics, cs[0]) + Change(v.economics, cs[1]) + Change(v.economics, cs[2])
  {
    hide FeeShare, ChangeOutput, Change;
    var e := v.economics;
    var head := [VaultOutput(v)];
    var a, b := ChangeOutput(e, cs[0], fee), ChangeOutput(e, cs[1], fee);
    ChangeTotal(head, e, cs[0], fee);
    ChangeTotal(head + a, e, cs[1], fee);
    ChangeTotal(head + a + b, e, cs[2], fee);
    assert TotalOut(head) == FundingValue(e) by { assert head[..0] == []; }
  }

  lemma ThreeInputs(vin: seq<Prevout>)
    requires |vin| == 3
    ensures TotalIn(vin) == vin[0].value + vin[1].value + vin[2].value
  {
    var two, one := vin[..2], vin[..1];
    assert two[..1] == one && one[..0] == [];
    assert TotalIn(two) == TotalIn(one) + two[1].value && TotalIn(one) == vin[0].value;
  }

  lemma ChangeTotal(outputs: seq<TxOut>, e: Economics, c: Commitment, fee: int)
    requires c.fee == fee && (Change(e, c) > 0 ==> c.changeAddress.Some?) && Change(e, c) >= 0
    ensures TotalOut(outputs + ChangeOutput(e, c, fee)) == TotalOut(outputs) + Change(e, c)
  {
    if Change(e, c) > 0 {
      assert (outputs + ChangeOutput(e, c, fee))[..|outputs|] == outputs;
    } else {
      assert outputs + [] == outputs;
    }
  }

  /** Approvals in any order: the proposal builds, the confirmed transaction is
      authorized, and its output 0 is the coin the withdrawal game starts from,
      valid exactly when three deposits are a safe integer. */
  lemma {:induction false} FundingStartsTheGame(v: Vault, f: Forms, cs: seq<Commitment>, fee: int, txid: string)
    requires ValidEconomics(v.economics) && |cs| == 3 && DistinctParticipants(cs) && DistinctOutpoints(cs)
    requires forall i | 0 <= i < 3 :: Approved(v, f, cs[i]) && cs[i].fee == fee
    ensures var built := BuildProposal(v, f, cs, fee);
            && built.Ok?
            && Find(cs, Alice).Some? && Find(cs, Bob).Some? && Find(cs, Carol).Some?
            && var ordered := [Find(cs, Alice).value, Find(cs, Bob).value, Find(cs, Carol).value];
               && FundsVault(AsConfirmed(built.value, txid, ordered), f, txid, 0, v.economics.deposit,
                             FundingValue(v.economics), v.roster.vault(EVERYONE))
               && NonWitness(AsConfirmed(built.value, txid, ordered)) == built.value
               && var out := built.value.outputs[0];
                  var coin := Coin(VaultCoin, Some(EVERYONE), None, out.value, out.script, txid, 0);
                  && IsFundingCoin(v, coin)
                  && (ValidateCoin(v, coin).Valid? <==> FundingValue(v.economics) <= MAX_SAFE)
  {
    hide FeeShare;
    OneOfEach(cs);
    FindIn(cs, Alice);
    FindIn(cs, Bob);
    FindIn(cs, Carol);
    var ordered := [Find(cs, Alice).value, Find(cs, Bob).value, Find(cs, Carol).value];
    forall i | 0 <= i < 3 ensures Approved(v, f, ordered[i]) && ordered[i].fee == fee && ordered[i] in cs {
    }
    OutpointsStayDistinct(cs, ordered);
    ApprovedInputsFund(v, f, ordered, fee, txid);
    var out := BuildProposal(v, f, cs, fee).value.outputs[0];
    FundingCoinValidates(v, Coin(VaultCoin, Some(EVERYONE), None, out.value, out.script, txid, 0));
  }

  lemma OutpointsStayDistinct(cs: seq<Commitment>, ordered: seq<Commitment>)
    requires DistinctOutpoints(cs)
    requires forall i | 0 <= i < |ordered| :: ordered[i] in cs
    requires DistinctParticipants(ordered)
    ensures DistinctOutpoints(ordered)
  {
    forall i, j | 0 <= i < j < |ordered| ensures ordered[i].outpoint != ordered[j].outpoint {
      var x :| 0 <= x < |cs| && cs[x] == ordered[i];
      var y :| 0 <= y < |cs| && cs[y] == ordered[j];
    }
  }

  /** Exactly the approvals that build: the fee in range, three of them, each
      approved at that fee, by distinct participants from distinct outpoints. */
  lemma ProposalBuildsExactly(v: Vault, f: Forms, cs: seq<Commitment>, fee: int)
    ensures BuildProposal(v, f, cs, fee).Ok?
            <==> && FeeFits(v.economics, fee) && |cs| == 3
                 && (forall i | 0 <= i < |cs| :: Approved(v, f, cs[i]) && cs[i].fee == fee)
                 && DistinctParticipants(cs) && DistinctOutpoints(cs)
  {
    hide FeeShare, FeeFits, Approved, BuildFunding, Find;
    FindIn(cs, Alice);
    FindIn(cs, Bob);
    FindIn(cs, Carol);
    if BuildProposal(v, f, cs, fee).Ok? {
      var ordered := [Find(cs, Alice).value, Find(cs, Bob).value, Find(cs, Carol).value];
      ThreeFound(cs, ordered);
      OutpointsStayDistinct(ordered, cs);
    } else if |cs| == 3 && DistinctParticipants(cs) && DistinctOutpoints(cs) {
      OneOfEach(cs);
      var ordered := [Find(cs, Alice).value, Find(cs, Bob).value, Find(cs, Carol).value];
      OutpointsStayDistinct(cs, ordered);
      if forall i | 0 <= i < |cs| :: Approved(v, f, cs[i]) && cs[i].fee == fee {
        ApprovedInputsBuild(v, f, ordered, fee);
      }
    }
  }

  /** Three found participants account for the whole list. */
  lemma ThreeFound(cs: seq<Commitment>, ordered: seq<Commitment>)
    requires |cs| == 3 && |ordered| == 3 && forall i | 0 <= i < 3 :: ordered[i] in cs
    requires ordered[0].participant == Alice && ordered[1].participant == Bob && ordered[2].participant == Carol
    ensures DistinctParticipants(cs) && forall i | 0 <= i < |cs| :: cs[i] in ordered
  {
    var a :| 0 <= a < 3 && cs[a] == ordered[0];
    var b :| 0 <= b < 3 && cs[b] == ordered[1];
    var c :| 0 <= c < 3 && cs[c] == ordered[2];
    assert a != b && a != c && b != c;
    forall i | 0 <= i < |cs| ensures cs[i] in ordered {
      assert i == a || i == b || i == c;
    }
  }

  /** The proposal does not depend on the order in which approvals arrive. */
  lemma OrderDoesNotMatter(v: Vault, f: Forms, cs: seq<Commitment>, ds: seq<Commitment>, fee: int)
    requires |cs| == 3 && DistinctParticipants(cs) && |ds| == 3 && DistinctParticipants(ds)
    requires forall c :: c in cs <==> c in ds
    ensures BuildProposal(v, f, cs, fee) == BuildProposal(v, f, ds, fee)
  {
    hide Approved, BuildFunding, Find, DistinctOutpoints, FeeFits;
    OneOfEach(cs);
    OneOfEach(ds);
    SameFind(cs, ds, Alice);
    SameFind(cs, ds, Bob);
    SameFind(cs, ds, Carol);
    SameFor(cs, ds, (c: Commitment) => Approved(v, f, c));
    SameFor(cs, ds, (c: Commitment) => c.fee == fee);
  }

  lemma SameFor(cs: seq<Commitment>, ds: seq<Commitment>, p: Commitment -> bool)
    requires forall c :: c in cs <==> c in ds
    ensures (forall i | 0 <= i < |cs| :: p(cs[i])) == (forall i | 0 <= i < |ds| :: p(ds[i]))
  {
    assert forall i | 0 <= i < |cs| :: cs[i] in ds;
    assert forall i | 0 <= i < |ds| :: ds[i] in cs;
  }

  lemma SameFind(cs: seq<Commitment>, ds: seq<Commitment>, id: Id)
    requires DistinctParticipants(cs) && forall c :: c in cs <==> c in ds
    requires Find(cs, id).Some? && Find(ds, id).Some?
    ensures Find(cs, id) == Find(ds, id)
  {
    FindIn(cs, id);
    FindIn(ds, id);
    assert Find(ds, id).value in cs;
  }
}

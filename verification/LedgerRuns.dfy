/** Whole runs of the ledger (src/vault.ts): exactly when value is conserved and
    exactly when no coin can be spent twice, and two runs that fail. */
module LedgerRuns {
  import opened Wrappers
  import opened VaultLedger

  // ----- runs -----

  datatype Action =
    | Fund(address: string, value: nat, tag: string)
    | Spend(outpoint: Outpoint, tx: Tx)
    | Consolidate(address: string)

  /** What a run leaves: the ledger, the value put in from outside, the fees
      paid, and the outpoints spent by successful calls of `spend`. */
  datatype Books = Books(utxos: seq<Utxo>, deposited: nat, fees: nat, spends: seq<Outpoint>)

  function Do(b: Books, action: Action): Books {
    match action
    case Fund(address, value, tag) => b.(utxos := AfterFund(b.utxos, address, value, tag), deposited := b.deposited + value)
    case Spend(outpoint, tx) =>
      if Spendable(b.utxos, outpoint, tx)
      then b.(utxos := AfterSpend(b.utxos, outpoint, tx), fees := b.fees + Fee(b.utxos, outpoint, tx), spends := b.spends + [outpoint])
      else b
    case Consolidate(address) => b.(utxos := AfterConsolidate(b.utxos, address))
  }

  function Run(actions: seq<Action>): Books {
    if actions == [] then Books([], 0, 0, []) else Do(Run(actions[..|actions| - 1]), actions[|actions| - 1])
  }

  /** Ids are distinct, and no funding id names a later size: true of every run. */
  ghost predicate Keyed(utxos: seq<Utxo>) {
    && Distinct(utxos)
    && forall j | 0 <= j < |utxos| :: utxos[j].outpoint.txid.FundId? ==> utxos[j].outpoint.txid.size < |utxos|
  }

  lemma FundKeyed(utxos: seq<Utxo>, address: string, value: nat, tag: string)
    requires Keyed(utxos)
    ensures AfterFund(utxos, address, value, tag) == utxos + [Funded(utxos, address, value, tag)]
    ensures Keyed(AfterFund(utxos, address, value, tag))
  {
    PutAppends(utxos, Funded(utxos, address, value, tag));
  }

  function SpentIndex(utxos: seq<Utxo>, outpoint: Outpoint, tx: Tx): (i: nat)
    requires Spendable(utxos, outpoint, tx)
    ensures i < |utxos| && utxos[i].outpoint == outpoint
  {
    IndexOfFinds(utxos, outpoint);
    IndexOf(utxos, outpoint).value
  }

  predicate Spends(b: Books, action: Action) { action.Spend? && Spendable(b.utxos, action.outpoint, action.tx) }

  /** A successful spend that replaces another coin's unspent value. */
  predicate LosesValue(b: Books, action: Action) {
    Spends(b, action) && Replaces(b.utxos, SpentIndex(b.utxos, action.outpoint, action.tx), action.tx)
  }

  /** A successful spend one of whose outputs is stored under an outpoint that
      this or an earlier call of `spend` has spent. */
  predicate ReopensSpent(b: Books, action: Action) {
    && Spends(b, action)
    && exists k | 0 <= k < |action.tx.outputs| :: Outpoint(SpendId(action.tx), k) in b.spends + [action.outpoint]
  }

  /** The k-th call of a run, made on what the calls before it left. */
  predicate LosesAt(actions: seq<Action>, k: nat)
    requires k < |actions|
  {
    LosesValue(Run(actions[..k]), actions[k])
  }

  predicate ReopensAt(actions: seq<Action>, k: nat)
    requires k < |actions|
  {
    ReopensSpent(Run(actions[..k]), actions[k])
  }

  lemma AtPrefix(actions: seq<Action>)
    requires actions != []
    ensures var last := |actions| - 1;
            var before := actions[..last];
            && Run(actions) == Do(Run(before), actions[last])
            && (LosesAt(actions, last) <==> LosesValue(Run(before), actions[last]))
            && (ReopensAt(actions, last) <==> ReopensSpent(Run(before), actions[last]))
            && forall k | 0 <= k < last ::
                 (LosesAt(actions, k) <==> LosesAt(before, k)) && (ReopensAt(actions, k) <==> ReopensAt(before, k))
  {
    var last := |actions| - 1;
    hide LosesValue, ReopensSpent, Do;
    assert Run(actions) == Do(Run(actions[..last]), actions[last]);
    hide Run;
    assert forall k | 0 <= k < last :: actions[..last][..k] == actions[..k] && actions[..last][k] == actions[k];
  }

  function Loss(b: Books, action: Action): nat {
    if Spends(b, action)
    then Lost(Marked(b.utxos, SpentIndex(b.utxos, action.outpoint, action.tx)), action.tx, |action.tx.outputs|)
    else 0
  }

  /** The value replaced in the course of a run. */
  function TotalLoss(actions: seq<Action>): nat {
    if actions == [] then 0
    else TotalLoss(actions[..|actions| - 1]) + Loss(Run(actions[..|actions| - 1]), actions[|actions| - 1])
  }

  lemma SpendAccounts(b: Books, outpoint: Outpoint, tx: Tx)
    requires Keyed(b.utxos) && Spendable(b.utxos, outpoint, tx)
    ensures var i, later := SpentIndex(b.utxos, outpoint, tx), AfterSpend(b.utxos, outpoint, tx);
            && Keyed(later)
            && Placed(Marked(b.utxos, i), tx, |tx.outputs|, later)
            && Unspent(later) + Fee(b.utxos, outpoint, tx) + Lost(Marked(b.utxos, i), tx, |tx.outputs|) == Unspent(b.utxos)
            && (Lost(Marked(b.utxos, i), tx, |tx.outputs|) == 0 <==> !Replaces(b.utxos, i, tx))
  {
    var i, later := SpentIndex(b.utxos, outpoint, tx), AfterSpend(b.utxos, outpoint, tx);
    SpendExactly(b.utxos, i, tx);
    forall j | 0 <= j < |later| && later[j].outpoint.txid.FundId? ensures later[j].outpoint.txid.size < |later| {
      assert j < |b.utxos| && later[j].outpoint == b.utxos[j].outpoint;
    }
  }

  lemma StepAccounts(b: Books, action: Action)
    requires Keyed(b.utxos)
    ensures var after := Do(b, action);
            && Keyed(after.utxos)
            && Unspent(after.utxos) + after.fees + Loss(b, action) + b.deposited == Unspent(b.utxos) + b.fees + after.deposited
            && (Loss(b, action) == 0 <==> !LosesValue(b, action))
  {
    hide Unspent, Lost, AfterSpend, Fee, Keyed, Replaces, AfterFund, DepositTotal;
    match action
    case Fund(address, value, tag) =>
      FundKeyed(b.utxos, address, value, tag);
      UnspentAppend(b.utxos, Funded(b.utxos, address, value, tag));
    case Spend(outpoint, tx) =>
      if Spendable(b.utxos, outpoint, tx) {
        SpendAccounts(b, outpoint, tx);
      }
    case Consolidate(address) =>
      ConsolidationKeeps(b.utxos, address);
  }

  lemma ConsolidationKeeps(utxos: seq<Utxo>, address: string)
    requires Keyed(utxos)
    ensures Keyed(AfterConsolidate(utxos, address)) && Unspent(AfterConsolidate(utxos, address)) == Unspent(utxos)
    ensures AfterConsolidate(utxos, address)
            == MarkDeposits(utxos, address) + [Funded(utxos, address, DepositTotal(utxos, address), CONSOLIDATED)]
  {
    var marked, total := MarkDeposits(utxos, address), DepositTotal(utxos, address);
    assert forall j | 0 <= j < |utxos| :: marked[j].outpoint == utxos[j].outpoint;
    UnspentMarked(utxos, address);
    FundKeyed(marked, address, total, CONSOLIDATED);
    UnspentAppend(marked, Funded(marked, address, total, CONSOLIDATED));
  }

  /** Over every run, whatever is presented: unspent value plus fees plus the
      value replaced on the way equals the value deposited from outside. */
  lemma {:induction false} RunAccounts(actions: seq<Action>)
    ensures Keyed(Run(actions).utxos)
    ensures Unspent(Run(actions).utxos) + Run(actions).fees + TotalLoss(actions) == Run(actions).deposited
    ensures TotalLoss(actions) == 0 <==> forall k | 0 <= k < |actions| :: !LosesAt(actions, k)
  {
    hide Keyed, LosesValue, LosesAt, Unspent, Loss, Do;
    if actions == [] {
      EmptyLedger();
    } else {
      var last := |actions| - 1;
      var before := actions[..last];
      RunAccounts(before);
      StepAccounts(Run(before), actions[last]);
      AtPrefix(actions);
      assert TotalLoss(actions) == TotalLoss(before) + Loss(Run(before), actions[last]);
    }
  }

  lemma EmptyLedger()
    ensures Keyed([]) && Unspent([]) == 0
  {
  }

  /** A run conserves value exactly when none of its successful spends replaces
      another coin's unspent value. */
  lemma RunConservesExactly(actions: seq<Action>)
    ensures Unspent(Run(actions).utxos) + Run(actions).fees == Run(actions).deposited
            <==> forall k | 0 <= k < |actions| :: !LosesAt(actions, k)
  {
    RunAccounts(actions);
  }

  ghost predicate Has(utxos: seq<Utxo>, outpoint: Outpoint) { exists j | 0 <= j < |utxos| :: utxos[j].outpoint == outpoint }

  ghost predicate Logged(b: Books) { forall k | 0 <= k < |b.spends| :: Has(b.utxos, b.spends[k]) }

  ghost predicate AllSpent(b: Books) { forall k | 0 <= k < |b.spends| :: IsSpent(b.utxos, b.spends[k]) }

  predicate DistinctSpends(b: Books) { forall j, k | 0 <= j < k < |b.spends| :: b.spends[j] != b.spends[k] }

  /** No next call of `spend` can take an outpoint that an earlier one took. */
  ghost predicate SpendsOnce(b: Books) { forall outpoint, tx :: Spendable(b.utxos, outpoint, tx) ==> outpoint !in b.spends }

  function Bare(): Tx { Tx("", Outpoint(FundId("", 0, "", 0), 0), [], "", None) }

  lemma OnceMeansAllSpent(b: Books)
    requires Distinct(b.utxos) && Logged(b)
    ensures SpendsOnce(b) <==> AllSpent(b)
  {
    if AllSpent(b) {
      forall outpoint, tx | Spendable(b.utxos, outpoint, tx) ensures outpoint !in b.spends {
        var i := SpentIndex(b.utxos, outpoint, tx);
        assert !IsSpent(b.utxos, outpoint);
      }
    }
    if SpendsOnce(b) {
      forall k | 0 <= k < |b.spends| ensures IsSpent(b.utxos, b.spends[k]) {
        assert Has(b.utxos, b.spends[k]);
        var j :| 0 <= j < |b.utxos| && b.utxos[j].outpoint == b.spends[k];
        IndexOfAt(b.utxos, j);
        assert !Spendable(b.utxos, b.spends[k], Bare());
      }
    }
  }

  lemma SpendReopens(b: Books, outpoint: Outpoint, tx: Tx)
    requires Keyed(b.utxos) && Logged(b) && AllSpent(b) && Spendable(b.utxos, outpoint, tx)
    ensures var after := Do(b, Spend(outpoint, tx));
            AllSpent(after) <==> !ReopensSpent(b, Spend(outpoint, tx))
  {
    hide Keyed, AfterSpend;
    SpendAccounts(b, outpoint, tx);
    var i, later := SpentIndex(b.utxos, outpoint, tx), AfterSpend(b.utxos, outpoint, tx);
    var spends := b.spends + [outpoint];
    forall k | 0 <= k < |spends|
      ensures IsSpent(later, spends[k]) <==> !Overwritten(tx, |tx.outputs|, spends[k])
    {
      var j :| 0 <= j < |b.utxos| && b.utxos[j].outpoint == spends[k] && (j == i || b.utxos[j].spent);
      EntryAfter(b.utxos, i, tx, later, j);
    }
    assert ReopensSpent(b, Spend(outpoint, tx)) <==> exists k | 0 <= k < |spends| :: Overwritten(tx, |tx.outputs|, spends[k]) by {
      forall k | 0 <= k < |spends| && Overwritten(tx, |tx.outputs|, spends[k])
        ensures Outpoint(SpendId(tx), spends[k].index) in spends {
      }
    }
  }

  lemma EntryAfter(utxos: seq<Utxo>, i: nat, tx: Tx, later: seq<Utxo>, j: nat)
    requires i < |utxos| && j < |utxos| && Placed(Marked(utxos, i), tx, |tx.outputs|, later) && (j == i || utxos[j].spent)
    ensures IsSpent(later, utxos[j].outpoint) <==> !Overwritten(tx, |tx.outputs|, utxos[j].outpoint)
  {
    assert Marked(utxos, i)[j].outpoint == utxos[j].outpoint && Marked(utxos, i)[j].spent;
    assert later[j].outpoint == utxos[j].outpoint;
    if IsSpent(later, utxos[j].outpoint) {
      var k :| 0 <= k < |later| && later[k].outpoint == utxos[j].outpoint && later[k].spent;
      assert k == j;
    }
  }

  lemma StepSpends(b: Books, action: Action)
    requires Keyed(b.utxos) && Logged(b)
    ensures Logged(Do(b, action))
    ensures AllSpent(b) ==> (AllSpent(Do(b, action)) <==> !ReopensSpent(b, action))
    ensures AllSpent(b) && DistinctSpends(b) ==> DistinctSpends(Do(b, action))
  {
    var after := Do(b, action);
    match action
    case Fund(address, value, tag) =>
      FundKeyed(b.utxos, address, value, tag);
      KeepsPlaces(b, after.utxos);
    case Spend(outpoint, tx) =>
      if Spendable(b.utxos, outpoint, tx) {
        SpendAccounts(b, outpoint, tx);
        SpendLogs(b, outpoint, tx);
        OnceMeansAllSpent(b);
        if AllSpent(b) {
          SpendReopens(b, outpoint, tx);
        }
      }
    case Consolidate(address) =>
      ConsolidationKeeps(b.utxos, address);
      KeepsPlaces(b, after.utxos);
  }

  lemma KeepsPlaces(b: Books, later: seq<Utxo>)
    requires Logged(b) && |b.utxos| <= |later|
    requires forall j | 0 <= j < |b.utxos| :: later[j].outpoint == b.utxos[j].outpoint && (b.utxos[j].spent ==> later[j].spent)
    ensures Logged(b.(utxos := later)) && (AllSpent(b) ==> AllSpent(b.(utxos := later)))
  {
    forall k | 0 <= k < |b.spends| ensures Has(later, b.spends[k]) && (AllSpent(b) ==> IsSpent(later, b.spends[k])) {
      assert Has(b.utxos, b.spends[k]);
      if AllSpent(b) {
        SpentStays(b.utxos, later, b.spends[k]);
      }
    }
  }

  lemma SpendLogs(b: Books, outpoint: Outpoint, tx: Tx)
    requires Logged(b) && Spendable(b.utxos, outpoint, tx)
    requires Placed(Marked(b.utxos, SpentIndex(b.utxos, outpoint, tx)), tx, |tx.outputs|, AfterSpend(b.utxos, outpoint, tx))
    ensures Logged(Do(b, Spend(outpoint, tx)))
  {
    var i, after := SpentIndex(b.utxos, outpoint, tx), Do(b, Spend(outpoint, tx));
    forall k | 0 <= k < |after.spends| ensures Has(after.utxos, after.spends[k]) {
      assert Has(b.utxos, after.spends[k]);
      var j :| 0 <= j < |b.utxos| && b.utxos[j].outpoint == after.spends[k];
      assert Marked(b.utxos, i)[j].outpoint == b.utxos[j].outpoint;
      assert after.utxos[j].outpoint == after.spends[k];
    }
  }

  ghost predicate OnceAt(actions: seq<Action>, k: nat)
    requires k <= |actions|
  {
    SpendsOnce(Run(actions[..k]))
  }

  lemma OncePrefix(actions: seq<Action>)
    requires actions != []
    ensures var last := |actions| - 1;
            forall k | 0 <= k <= last :: OnceAt(actions, k) <==> OnceAt(actions[..last], k)
    ensures OnceAt(actions, |actions|) <==> SpendsOnce(Run(actions))
  {
    hide SpendsOnce, Run;
    var last := |actions| - 1;
    assert forall k | 0 <= k <= last :: actions[..last][..k] == actions[..k];
    assert actions[..|actions|] == actions;
  }

  predicate NeverReopens(actions: seq<Action>) { forall k | 0 <= k < |actions| :: !ReopensAt(actions, k) }

  /** At every point of a run the next spend finds no outpoint to take a second
      time, exactly when none of its spends reopens one; the successful spends
      of such a run name distinct coins. */
  lemma {:induction false} RunSpendsOnceExactly(actions: seq<Action>)
    ensures Logged(Run(actions))
    ensures (forall k | 0 <= k <= |actions| :: OnceAt(actions, k)) <==> NeverReopens(actions)
    ensures NeverReopens(actions) ==> AllSpent(Run(actions)) && DistinctSpends(Run(actions))
  {
    hide Keyed, Logged, AllSpent, SpendsOnce, DistinctSpends, LosesAt, ReopensSpent, ReopensAt, OnceAt, Do;
    RunKeyed(actions);
    if actions == [] {
      NothingSpent();
      OnceMeansAllSpent(Run(actions));
      assert OnceAt(actions, 0) by { OnceAtStart(); }
    } else {
      var last := |actions| - 1;
      var before := actions[..last];
      RunSpendsOnceExactly(before);
      RunKeyed(before);
      AtPrefix(actions);
      OncePrefix(actions);
      hide Run;
      StepSpends(Run(before), actions[last]);
      OnceMeansAllSpent(Run(before));
      OnceMeansAllSpent(Run(actions));
      OnceNow(before);
    }
  }

  lemma OnceNow(actions: seq<Action>)
    ensures OnceAt(actions, |actions|) <==> SpendsOnce(Run(actions))
  {
    assert actions[..|actions|] == actions;
  }

  lemma OnceAtStart()
    ensures OnceAt([], 0)
  {
  }

  lemma RunKeyed(actions: seq<Action>)
    ensures Keyed(Run(actions).utxos) && Distinct(Run(actions).utxos)
  {
    RunAccounts(actions);
  }

  lemma NothingSpent()
    ensures Logged(Run([])) && AllSpent(Run([])) && DistinctSpends(Run([]))
  {
  }

  // ----- transactions that name their coin -----

  /** Every builder names the coin it spends; the id then depends on that coin. */
  predicate NamesItsInput(action: Action) { action.Spend? ==> action.tx.input == action.outpoint }

  /** The books of a run balance, and its successful spends name distinct coins. */
  ghost predicate Balanced(b: Books) {
    && Sound(b.utxos)
    && Unspent(b.utxos) + b.fees == b.deposited
    && AllSpent(b) && DistinctSpends(b)
  }

  lemma NamedIdIsNew(utxos: seq<Utxo>, outpoint: Outpoint, tx: Tx)
    requires Sound(utxos) && Spendable(utxos, outpoint, tx) && tx.input == outpoint
    ensures Unused(utxos, tx)
  {
    var i := SpentIndex(utxos, outpoint, tx);
    forall j | 0 <= j < |utxos| ensures utxos[j].outpoint.txid != SpendId(tx) {
      assert Explained(utxos, |utxos|, utxos[j].outpoint);
    }
  }

  lemma NamedStep(b: Books, action: Action)
    requires Sound(b.utxos) && Logged(b) && NamesItsInput(action)
    ensures Sound(Do(b, action).utxos) && !LosesValue(b, action) && !ReopensSpent(b, action)
  {
    match action
    case Fund(address, value, tag) =>
      FundSound(b.utxos, address, value, tag);
    case Spend(outpoint, tx) =>
      if Spendable(b.utxos, outpoint, tx) {
        SpendSound(b.utxos, outpoint, tx);
        NamedIdIsNew(b.utxos, outpoint, tx);
        assert b.utxos[SpentIndex(b.utxos, outpoint, tx)].outpoint == outpoint;
        forall k | 0 <= k < |b.spends| + 1 ensures (b.spends + [outpoint])[k].txid != SpendId(tx) {
          assert Has(b.utxos, (b.spends + [outpoint])[k]);
        }
      }
    case Consolidate(address) =>
      ConsolidateSound(b.utxos, address);
  }

  lemma {:induction false} NamedInputsNeverCollide(actions: seq<Action>)
    requires forall i | 0 <= i < |actions| :: NamesItsInput(actions[i])
    ensures Sound(Run(actions).utxos)
    ensures forall k | 0 <= k < |actions| :: !LosesAt(actions, k) && !ReopensAt(actions, k)
  {
    hide Sound, LosesValue, LosesAt, ReopensSpent, ReopensAt, NamesItsInput, Do, Logged;
    if actions == [] {
      NothingUnexplained();
    } else {
      var last := |actions| - 1;
      NamedInputsNeverCollide(actions[..last]);
      RunLogs(actions[..last]);
      NamedStep(Run(actions[..last]), actions[last]);
      AtPrefix(actions);
    }
  }

  lemma RunLogs(actions: seq<Action>)
    ensures Logged(Run(actions))
  {
    RunSpendsOnceExactly(actions);
  }

  lemma NothingUnexplained()
    ensures Sound([])
  {
  }

  /** With transactions that name the coin they spend, as all the builders'
      do, every run conserves value and spends no coin twice. */
  lemma RunBalances(actions: seq<Action>)
    requires forall i | 0 <= i < |actions| :: NamesItsInput(actions[i])
    ensures Balanced(Run(actions))
  {
    hide Run, Sound, Unspent, LosesAt, ReopensAt, AllSpent, DistinctSpends, OnceAt, Logged, NamesItsInput;
    NamedInputsNeverCollide(actions);
    RunConservesExactly(actions);
    RunSpendsOnceExactly(actions);
  }

  // ----- two runs that fail -----

  const COIN_A := Outpoint(FundId("vault", 5, "a", 0), 0)

  const COIN_B := Outpoint(FundId("vault", 5, "b", 1), 0)

  const PAYS := Tx("", COIN_A, [Output("x", 5, "")], "", None)

  const PAID := Outpoint(SpendId(PAYS), 0)

  const EMPTIES := Tx("", PAID, [], "", None)

  function EntryA(spent: bool): Utxo { Utxo(COIN_A, "vault", 5, "a", spent) }

  function EntryB(spent: bool): Utxo { Utxo(COIN_B, "vault", 5, "b", spent) }

  function EntryPaid(spent: bool): Utxo { Utxo(PAID, "x", 5, "", spent) }

  const FUND_A := Action.Fund("vault", 5, "a")

  const FUND_B := Action.Fund("vault", 5, "b")

  const SPEND_A := Action.Spend(COIN_A, PAYS)

  const SPEND_B := Action.Spend(COIN_B, PAYS)

  const EMPTY_PAID := Action.Spend(PAID, EMPTIES)

  lemma NextCall(actions: seq<Action>, action: Action)
    ensures Run(actions + [action]) == Do(Run(actions), action)
  {
    assert (actions + [action])[..|actions|] == actions;
  }

  lemma TwoDeposits()
    ensures Run([] + [FUND_A] + [FUND_B]) == Books([EntryA(false), EntryB(false)], 10, 0, [])
  {
    NextCall([], FUND_A);
    NextCall([] + [FUND_A], FUND_B);
    FundKeyed([], "vault", 5, "a");
    assert [] + [EntryA(false)] == [EntryA(false)];
    assert Run([] + [FUND_A]) == Books([EntryA(false)], 5, 0, []);
    FundKeyed([EntryA(false)], "vault", 5, "b");
  }

  /** PAYS takes coin A or B and stores its output at PAID, new or not. */
  lemma PaysFrom(utxos: seq<Utxo>, i: nat)
    requires 2 <= |utxos| <= 3 && utxos[0].outpoint == COIN_A && utxos[1].outpoint == COIN_B
    requires |utxos| == 3 ==> utxos[2].outpoint == PAID
    requires i < 2 && !utxos[i].spent && utxos[i].value == 5
    ensures Spendable(utxos, utxos[i].outpoint, PAYS) && Fee(utxos, utxos[i].outpoint, PAYS) == 0
    ensures AfterSpend(utxos, utxos[i].outpoint, PAYS) == Marked(utxos, i)[..2] + [EntryPaid(false)]
  {
    assert PAYS.outputs[..0] == [];
    assert OutputTotal(PAYS.outputs) == 5;
    IndexOfAt(utxos, i);
    var marked := Marked(utxos, i);
    StorePaid(marked);
    assert PutOutputs(marked, PAYS, 1) == Put(PutOutputs(marked, PAYS, 0), Created(PAYS, 0));
    assert AfterSpend(utxos, utxos[i].outpoint, PAYS) == PutOutputs(marked, PAYS, 1);
  }

  lemma StorePaid(utxos: seq<Utxo>)
    requires 2 <= |utxos| <= 3 && utxos[0].outpoint == COIN_A && utxos[1].outpoint == COIN_B
    requires |utxos| == 3 ==> utxos[2].outpoint == PAID
    ensures Put(utxos, Created(PAYS, 0)) == utxos[..2] + [EntryPaid(false)]
  {
    IndexOfFinds(utxos, PAID);
    assert Created(PAYS, 0) == EntryPaid(false);
    if |utxos| == 3 {
      IndexOfAt(utxos, 2);
    }
  }

  lemma Empties(b: bool)
    ensures var utxos := [EntryA(true), EntryB(b), EntryPaid(false)];
            && Spendable(utxos, PAID, EMPTIES) && Fee(utxos, PAID, EMPTIES) == 5
            && AfterSpend(utxos, PAID, EMPTIES) == [EntryA(true), EntryB(b), EntryPaid(true)]
  {
    var utxos := [EntryA(true), EntryB(b), EntryPaid(false)];
    IndexOfAt(utxos, 2);
    assert Marked(utxos, 2) == [EntryA(true), EntryB(b), EntryPaid(true)];
    assert AfterSpend(utxos, PAID, EMPTIES) == PutOutputs(Marked(utxos, 2), EMPTIES, 0);
  }

  lemma DoSpends(b: Books, outpoint: Outpoint, tx: Tx)
    requires Spendable(b.utxos, outpoint, tx)
    ensures Do(b, Action.Spend(outpoint, tx))
            == Books(AfterSpend(b.utxos, outpoint, tx), b.deposited, b.fees + Fee(b.utxos, outpoint, tx), b.spends + [outpoint])
  {
  }

  lemma AfterFirst()
    ensures Run([] + [FUND_A] + [FUND_B] + [SPEND_A]) == Books([EntryA(true), EntryB(false), EntryPaid(false)], 10, 0, [COIN_A])
  {
    hide Do, Run, AfterSpend, Spendable, Fee;
    TwoDeposits();
    NextCall([] + [FUND_A] + [FUND_B], SPEND_A);
    var utxos := [EntryA(false), EntryB(false)];
    PaysFrom(utxos, 0);
    assert Marked(utxos, 0)[..2] + [EntryPaid(false)] == [EntryA(true), EntryB(false), EntryPaid(false)];
    DoSpends(Books(utxos, 10, 0, []), COIN_A, PAYS);
    assert [] + [COIN_A] == [COIN_A];
  }

  /** Ten in, one record for both coins: five are left and no fee was paid. */
  lemma LosingRun()
    ensures var b := Run([] + [FUND_A] + [FUND_B] + [SPEND_A] + [SPEND_B]);
            b.deposited == 10 && b.fees == 0 && Unspent(b.utxos) == 5
  {
    hide Do, Run, AfterSpend, Spendable, Fee, Unspent;
    AfterFirst();
    NextCall([] + [FUND_A] + [FUND_B] + [SPEND_A], SPEND_B);
    var utxos := [EntryA(true), EntryB(false), EntryPaid(false)];
    PaysFrom(utxos, 1);
    assert Marked(utxos, 1)[..2] + [EntryPaid(false)] == [EntryA(true), EntryB(true), EntryPaid(false)];
    DoSpends(Books(utxos, 10, 0, [COIN_A]), COIN_B, PAYS);
    FiveLeft();
  }

  lemma FiveLeft()
    ensures Unspent([EntryA(true), EntryB(true), EntryPaid(false)]) == 5
  {
    UnspentAppend([], EntryA(true));
    UnspentAppend([EntryA(true)], EntryB(true));
    UnspentAppend([EntryA(true), EntryB(true)], EntryPaid(false));
    assert [] + [EntryA(true)] == [EntryA(true)];
    assert [EntryA(true)] + [EntryB(true)] == [EntryA(true), EntryB(true)];
    assert [EntryA(true), EntryB(true)] + [EntryPaid(false)] == [EntryA(true), EntryB(true), EntryPaid(false)];
  }

  /** One outpoint is taken twice by successful spends, and the books still balance. */
  lemma TwiceSpentRun()
    ensures var b := Run([] + [FUND_A] + [FUND_B] + [SPEND_A] + [EMPTY_PAID] + [SPEND_B] + [EMPTY_PAID]);
            b.spends == [COIN_A, PAID, COIN_B, PAID] && b.deposited == 10 == b.fees
  {
    hide Do, Run, AfterSpend, Spendable, Fee;
    AfterFirst();
    var third := [] + [FUND_A] + [FUND_B] + [SPEND_A];
    NextCall(third, EMPTY_PAID);
    NextCall(third + [EMPTY_PAID], SPEND_B);
    NextCall(third + [EMPTY_PAID] + [SPEND_B], EMPTY_PAID);
    Empties(false);
    DoSpends(Run(third), PAID, EMPTIES);
    var utxos := [EntryA(true), EntryB(false), EntryPaid(true)];
    PaysFrom(utxos, 1);
    assert Marked(utxos, 1)[..2] + [EntryPaid(false)] == [EntryA(true), EntryB(true), EntryPaid(false)];
    DoSpends(Run(third + [EMPTY_PAID]), COIN_B, PAYS);
    Empties(true);
    DoSpends(Run(third + [EMPTY_PAID] + [SPEND_B]), PAID, EMPTIES);
    assert [COIN_A] + [PAID] + [COIN_B] + [PAID] == [COIN_A, PAID, COIN_B, PAID];
  }
}

/** The ledger entry by entry (src/vault.ts): what a spend stores, and which
    coins a consolidation takes and what it leaves at every address. */
module LedgerEntries {
  import opened Wrappers
  import opened VaultLedger

  /** A spend of the coin its transaction names marks that coin and no other, and
      appends the outputs in order, each with its own address, value and tag. */
  lemma SpendStores(utxos: seq<Utxo>, outpoint: Outpoint, tx: Tx)
    requires Sound(utxos) && Spendable(utxos, outpoint, tx) && tx.input == outpoint
    ensures var later := AfterSpend(utxos, outpoint, tx);
            && |later| == |utxos| + |tx.outputs|
            && (forall i | 0 <= i < |utxos| :: later[i] == utxos[i].(spent := utxos[i].spent || utxos[i].outpoint == outpoint))
            && (forall k | 0 <= k < |tx.outputs| ::
                  later[|utxos| + k]
                  == Utxo(Outpoint(SpendId(tx), k), tx.outputs[k].address, tx.outputs[k].value, tx.outputs[k].tag, false))
  {
    IndexOfFinds(utxos, outpoint);
    var i := IndexOf(utxos, outpoint).value;
    var marked := utxos[i := utxos[i].(spent := true)];
    forall j | 0 <= j < |marked| ensures marked[j].outpoint.txid != SpendId(tx) {
      assert Explained(utxos, |utxos|, utxos[j].outpoint);
    }
    OutputsAppend(marked, tx, |tx.outputs|);
  }

  /** The unspent value at an address. */
  function Balance(utxos: seq<Utxo>, address: string): nat {
    if utxos == [] then 0
    else
      var last := utxos[|utxos| - 1];
      Balance(utxos[..|utxos| - 1], address) + if last.address == address && !last.spent then last.value else 0
  }

  lemma {:induction false} MarkedBalance(utxos: seq<Utxo>, address: string, other: string)
    ensures DepositTotal(utxos, address) == Balance(utxos, address)
    ensures Balance(MarkDeposits(utxos, address), other) == if other == address then 0 else Balance(utxos, other)
  {
    if utxos != [] {
      var last := |utxos| - 1;
      MarkedBalance(utxos[..last], address, other);
      assert MarkDeposits(utxos, address)[..last] == MarkDeposits(utxos[..last], address);
    }
  }

  /** Consolidation spends the unspent coins of positive value at the address and
      no others, appends one coin there worth what the address held, and so
      leaves the balance of every address as it was. */
  lemma ConsolidationIs(utxos: seq<Utxo>, address: string)
    requires Sound(utxos)
    ensures var later := AfterConsolidate(utxos, address);
            && |later| == |utxos| + 1
            && (forall i | 0 <= i < |utxos| ::
                  later[i] == utxos[i].(spent := utxos[i].spent || (utxos[i].address == address && utxos[i].value > 0)))
            && later[|utxos|].address == address && !later[|utxos|].spent
            && later[|utxos|].value == Balance(utxos, address) && later[|utxos|].tag == "round-1 vault UTXO"
            && forall other: string :: Balance(later, other) == Balance(utxos, other)
  {
    var marked := MarkDeposits(utxos, address);
    MarkSound(utxos, marked);
    FundSound(marked, address, DepositTotal(utxos, address), CONSOLIDATED);
    var later := AfterConsolidate(utxos, address);
    forall other: string ensures Balance(later, other) == Balance(utxos, other) {
      MarkedBalance(utxos, address, other);
      assert later[..|utxos|] == marked;
    }
    MarkedBalance(utxos, address, address);
  }
}

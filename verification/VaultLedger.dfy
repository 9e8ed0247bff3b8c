/** The in-memory ledger (src/vault.ts): value is conserved and nothing is spent
    twice, given collision-free transaction ids. */
module VaultLedger {
  import opened Wrappers

  /** A transaction id is the hash of what names it: the funding fields and the
      map size, or the whole record as it was presented, stamp included. Taking
      the preimage for the hash makes ids collision-free. */
  datatype Txid = FundId(address: string, value: nat, tag: string, size: nat) | SpendId(tx: Tx)

  datatype Outpoint = Outpoint(txid: Txid, index: nat)

  datatype Output = Output(address: string, value: nat, tag: string)

  /** What a successful spend writes into the record it was given. */
  datatype Stamp = Stamp(txid: Txid, fee: nat)

  /** `details` stands for the fields the ledger only hashes. */
  datatype Tx = Tx(kind: string, input: Outpoint, outputs: seq<Output>, details: string, stamp: Option<Stamp>)

  datatype Utxo = Utxo(outpoint: Outpoint, address: string, value: nat, tag: string, spent: bool)

  // ----- the map of outpoints, in insertion order -----

  function IndexOf(utxos: seq<Utxo>, outpoint: Outpoint): Option<nat> {
    if utxos == [] then None
    else if utxos[|utxos| - 1].outpoint == outpoint then Some(|utxos| - 1)
    else IndexOf(utxos[..|utxos| - 1], outpoint)
  }

  lemma {:induction false} IndexOfFinds(utxos: seq<Utxo>, outpoint: Outpoint)
    ensures match IndexOf(utxos, outpoint)
            case None => forall i | 0 <= i < |utxos| :: utxos[i].outpoint != outpoint
            case Some(i) => i < |utxos| && utxos[i].outpoint == outpoint
  {
    if utxos != [] {
      var rest := utxos[..|utxos| - 1];
      IndexOfFinds(rest, outpoint);
      assert utxos == rest + [utxos[|utxos| - 1]];
    }
  }

  /** Map.set: overwrite in place, or append. */
  function Put(utxos: seq<Utxo>, utxo: Utxo): seq<Utxo> {
    IndexOfFinds(utxos, utxo.outpoint);
    var i := IndexOf(utxos, utxo.outpoint);
    if i.Some? then utxos[i.value := utxo] else utxos + [utxo]
  }

  // ----- specification of the three operations -----

  function Funded(utxos: seq<Utxo>, address: string, value: nat, tag: string): Utxo {
    Utxo(Outpoint(FundId(address, value, tag, |utxos|), 0), address, value, tag, false)
  }

  function AfterFund(utxos: seq<Utxo>, address: string, value: nat, tag: string): seq<Utxo> {
    Put(utxos, Funded(utxos, address, value, tag))
  }

  function OutputTotal(outputs: seq<Output>): nat {
    if outputs == [] then 0 else OutputTotal(outputs[..|outputs| - 1]) + outputs[|outputs| - 1].value
  }

  function Created(tx: Tx, k: nat): Utxo
    requires k < |tx.outputs|
  {
    Utxo(Outpoint(SpendId(tx), k), tx.outputs[k].address, tx.outputs[k].value, tx.outputs[k].tag, false)
  }

  function PutOutputs(utxos: seq<Utxo>, tx: Tx, k: nat): seq<Utxo>
    requires k <= |tx.outputs|
  {
    if k == 0 then utxos else Put(PutOutputs(utxos, tx, k - 1), Created(tx, k - 1))
  }

  predicate Spendable(utxos: seq<Utxo>, outpoint: Outpoint, tx: Tx) {
    IndexOfFinds(utxos, outpoint);
    var i := IndexOf(utxos, outpoint);
    i.Some? && !utxos[i.value].spent && OutputTotal(tx.outputs) <= utxos[i.value].value
  }

  function AfterSpend(utxos: seq<Utxo>, outpoint: Outpoint, tx: Tx): seq<Utxo>
    requires Spendable(utxos, outpoint, tx)
  {
    IndexOfFinds(utxos, outpoint);
    var i := IndexOf(utxos, outpoint).value;
    PutOutputs(utxos[i := utxos[i].(spent := true)], tx, |tx.outputs|)
  }

  function Fee(utxos: seq<Utxo>, outpoint: Outpoint, tx: Tx): nat
    requires Spendable(utxos, outpoint, tx)
  {
    IndexOfFinds(utxos, outpoint);
    utxos[IndexOf(utxos, outpoint).value].value - OutputTotal(tx.outputs)
  }

  /** The record after a successful spend. */
  function Stamped(utxos: seq<Utxo>, outpoint: Outpoint, tx: Tx): Tx
    requires Spendable(utxos, outpoint, tx)
  {
    tx.(stamp := Some(Stamp(SpendId(tx), Fee(utxos, outpoint, tx))))
  }

  predicate IsDeposit(utxo: Utxo, address: string) { utxo.address == address && !utxo.spent && utxo.value > 0 }

  function MarkDeposits(utxos: seq<Utxo>, address: string): seq<Utxo> {
    seq(|utxos|, i requires 0 <= i < |utxos| => if IsDeposit(utxos[i], address) then utxos[i].(spent := true) else utxos[i])
  }

  function DepositTotal(utxos: seq<Utxo>, address: string): nat {
    if utxos == [] then 0
    else DepositTotal(utxos[..|utxos| - 1], address)
         + if IsDeposit(utxos[|utxos| - 1], address) then utxos[|utxos| - 1].value else 0
  }

  const CONSOLIDATED := "round-1 vault UTXO"

  function AfterConsolidate(utxos: seq<Utxo>, address: string): seq<Utxo> {
    AfterFund(MarkDeposits(utxos, address), address, DepositTotal(utxos, address), CONSOLIDATED)
  }

  // ----- the classes -----

  /** The caller's record; `spend` writes into it. */
  class TxRecord {
    var tx: Tx

    constructor (tx: Tx)
      ensures this.tx == tx
    {
      this.tx := tx;
    }
  }

  class Ledger {
    var utxos: seq<Utxo>
    var height: int

    constructor ()
      ensures utxos == [] && height == 100
    {
      utxos, height := [], 100;
    }

    method Fund(address: string, value: nat, tag: string) returns (utxo: Utxo)
      modifies this
      ensures utxos == AfterFund(old(utxos), address, value, tag) && height == old(height)
      ensures utxo == Funded(old(utxos), address, value, tag)
    {
      var txid := FundId(address, value, tag, |utxos|);
      utxo := Utxo(Outpoint(txid, 0), address, value, tag, false);
      utxos := Put(utxos, utxo);
    }

    /** False is the thrown rejection, which changes nothing. */
    method Spend(outpoint: Outpoint, record: TxRecord) returns (ok: bool)
      modifies this, record
      ensures height == old(height)
      ensures ok <==> Spendable(old(utxos), outpoint, old(record.tx))
      ensures ok ==>
                && utxos == AfterSpend(old(utxos), outpoint, old(record.tx))
                && record.tx == Stamped(old(utxos), outpoint, old(record.tx))
      ensures !ok ==> utxos == old(utxos) && record.tx == old(record.tx)
    {
      IndexOfFinds(utxos, outpoint);
      var found := IndexOf(utxos, outpoint);
      if found.None? || utxos[found.value].spent {
        return false;
      }
      var utxo, tx := utxos[found.value], record.tx;
      var outputTotal := SumOutputs(tx.outputs);
      if outputTotal > utxo.value {
        return false;
      }
      utxos := utxos[found.value := utxo.(spent := true)];
      record.tx := tx.(stamp := Some(Stamp(SpendId(tx), utxo.value - outputTotal)));
      ghost var marked, signed := utxos, record.tx;
      for index := 0 to |tx.outputs|
        invariant utxos == PutOutputs(marked, tx, index) && height == old(height) && record.tx == signed
      {
        utxos := Put(utxos, Created(tx, index));
      }
      ok := true;
    }

    static method SumOutputs(outputs: seq<Output>) returns (total: nat)
      ensures total == OutputTotal(outputs)
    {
      total := 0;
      for k := 0 to |outputs|
        invariant total == OutputTotal(outputs[..k])
      {
        assert outputs[..k + 1][..k] == outputs[..k];
        total := total + outputs[k].value;
      }
      assert outputs[..|outputs|] == outputs;
    }

    /** The filter, the marking loop and the sum. */
    method MarkAllDeposits(address: string) returns (value: nat)
      modifies this`utxos
      ensures utxos == MarkDeposits(old(utxos), address) && value == DepositTotal(old(utxos), address)
    {
      value := 0;
      ghost var before, marked := utxos, MarkDeposits(utxos, address);
      for i := 0 to |utxos|
        invariant |utxos| == |before|
        invariant forall j | 0 <= j < |before| :: utxos[j] == if j < i then marked[j] else before[j]
        invariant value == DepositTotal(before[..i], address)
      {
        assert before[..i + 1][..i] == before[..i];
        if IsDeposit(utxos[i], address) {
          value := value + utxos[i].value;
          utxos := utxos[i := utxos[i].(spent := true)];
        }
      }
      assert before[..|before|] == before;
    }

    method ConsolidateDeposits(address: string) returns (utxo: Utxo)
      modifies this
      ensures utxos == AfterConsolidate(old(utxos), address) && height == old(height)
      ensures utxo.value == DepositTotal(old(utxos), address) && utxo.address == address && !utxo.spent
    {
      var value := MarkAllDeposits(address);
      utxo := Fund(address, value, CONSOLIDATED);
    }

    method Mine(blocks: int) returns (h: int)
      modifies this
      ensures height == old(height) + blocks == h && utxos == old(utxos)
    {
      height := height + blocks;
      h := height;
    }
  }

  // ----- the value in a ledger -----

  function Unspent(utxos: seq<Utxo>): nat {
    if utxos == [] then 0
    else Unspent(utxos[..|utxos| - 1]) + if utxos[|utxos| - 1].spent then 0 else utxos[|utxos| - 1].value
  }

  // ----- freshness of ids -----

  ghost predicate IsSpent(utxos: seq<Utxo>, outpoint: Outpoint) {
    exists i | 0 <= i < |utxos| :: utxos[i].outpoint == outpoint && utxos[i].spent
  }

  predicate Distinct(utxos: seq<Utxo>) {
    forall i, j | 0 <= i < j < |utxos| :: utxos[i].outpoint != utxos[j].outpoint
  }

  /** Where an outpoint can come from, in a ledger of this size. */
  ghost predicate Explained(utxos: seq<Utxo>, size: nat, outpoint: Outpoint) {
    match outpoint.txid
    case FundId(_, _, _, n) => n < size
    case SpendId(tx) => IsSpent(utxos, tx.input)
  }

  ghost predicate Sound(utxos: seq<Utxo>) {
    Distinct(utxos) && forall i | 0 <= i < |utxos| :: Explained(utxos, |utxos|, utxos[i].outpoint)
  }

  predicate Absent(utxos: seq<Utxo>, outpoint: Outpoint) { forall i | 0 <= i < |utxos| :: utxos[i].outpoint != outpoint }

  lemma PutAppends(utxos: seq<Utxo>, utxo: Utxo)
    requires Absent(utxos, utxo.outpoint)
    ensures Put(utxos, utxo) == utxos + [utxo]
  {
    IndexOfFinds(utxos, utxo.outpoint);
  }

  /** Entries are never removed and never become unspent. */
  ghost predicate Extends(utxos: seq<Utxo>, later: seq<Utxo>) {
    && |utxos| <= |later|
    && forall i | 0 <= i < |utxos| :: later[i].outpoint == utxos[i].outpoint && (utxos[i].spent ==> later[i].spent)
  }

  lemma SpentStays(utxos: seq<Utxo>, later: seq<Utxo>, outpoint: Outpoint)
    requires Extends(utxos, later) && IsSpent(utxos, outpoint)
    ensures IsSpent(later, outpoint)
  {
    var i :| 0 <= i < |utxos| && utxos[i].outpoint == outpoint && utxos[i].spent;
    assert later[i].outpoint == outpoint && later[i].spent;
  }

  lemma AppendSound(utxos: seq<Utxo>, utxo: Utxo)
    requires Sound(utxos) && Absent(utxos, utxo.outpoint) && Explained(utxos, |utxos| + 1, utxo.outpoint)
    ensures Sound(utxos + [utxo]) && Extends(utxos, utxos + [utxo])
  {
    var later := utxos + [utxo];
    forall i | 0 <= i < |later| ensures Explained(later, |later|, later[i].outpoint) {
      var o := later[i].outpoint;
      assert Explained(utxos, |utxos| + 1, o);
      if o.txid.SpendId? {
        SpentStays(utxos, later, o.txid.tx.input);
      }
    }
  }

  lemma FundSound(utxos: seq<Utxo>, address: string, value: nat, tag: string)
    requires Sound(utxos)
    ensures AfterFund(utxos, address, value, tag) == utxos + [Funded(utxos, address, value, tag)]
    ensures Sound(AfterFund(utxos, address, value, tag)) && Extends(utxos, AfterFund(utxos, address, value, tag))
  {
    var utxo := Funded(utxos, address, value, tag);
    forall i | 0 <= i < |utxos| ensures utxos[i].outpoint != utxo.outpoint {
      assert Explained(utxos, |utxos|, utxos[i].outpoint);
    }
    PutAppends(utxos, utxo);
    AppendSound(utxos, utxo);
  }

  /** Changing spent flags from false to true keeps a ledger sound. */
  lemma MarkSound(utxos: seq<Utxo>, later: seq<Utxo>)
    requires Sound(utxos) && Extends(utxos, later) && |later| == |utxos|
    ensures Sound(later)
  {
    forall i | 0 <= i < |later| ensures Explained(later, |later|, later[i].outpoint) {
      var o := later[i].outpoint;
      assert Explained(utxos, |utxos|, utxos[i].outpoint);
      if o.txid.SpendId? {
        SpentStays(utxos, later, o.txid.tx.input);
      }
    }
  }

  // ----- sums -----

  function Counts(utxo: Utxo): nat { if utxo.spent then 0 else utxo.value }

  lemma UnspentAppend(utxos: seq<Utxo>, utxo: Utxo)
    ensures Unspent(utxos + [utxo]) == Unspent(utxos) + Counts(utxo)
  {
    assert (utxos + [utxo])[..|utxos|] == utxos;
  }

  lemma {:induction false} UnspentUpdate(utxos: seq<Utxo>, i: nat, utxo: Utxo)
    requires i < |utxos|
    ensures Unspent(utxos[i := utxo]) + Counts(utxos[i]) == Unspent(utxos) + Counts(utxo)
  {
    var last := |utxos| - 1;
    if i == last {
      assert utxos[i := utxo][..last] == utxos[..last];
    } else {
      UnspentUpdate(utxos[..last], i, utxo);
      assert utxos[i := utxo][..last] == utxos[..last][i := utxo];
    }
  }

  lemma {:induction false} UnspentMarked(utxos: seq<Utxo>, address: string)
    ensures Unspent(MarkDeposits(utxos, address)) + DepositTotal(utxos, address) == Unspent(utxos)
  {
    if utxos != [] {
      var last := |utxos| - 1;
      UnspentMarked(utxos[..last], address);
      assert MarkDeposits(utxos, address)[..last] == MarkDeposits(utxos[..last], address);
    }
  }

  // ----- the operations -----

  lemma ExplainedBySpend(utxos: seq<Utxo>, tx: Tx, index: nat)
    requires IsSpent(utxos, tx.input)
    ensures Explained(utxos, |utxos| + 1, Outpoint(SpendId(tx), index))
  {
  }

  function NewOutputs(tx: Tx, k: nat): seq<Utxo>
    requires k <= |tx.outputs|
  {
    seq(k, i requires 0 <= i < k => Created(tx, i))
  }

  predicate Unused(utxos: seq<Utxo>, tx: Tx) { forall i | 0 <= i < |utxos| :: utxos[i].outpoint.txid != SpendId(tx) }

  /** Outputs of a transaction whose id is new are all appended. */
  lemma {:induction false} OutputsAppend(utxos: seq<Utxo>, tx: Tx, k: nat)
    requires Unused(utxos, tx) && k <= |tx.outputs|
    ensures PutOutputs(utxos, tx, k) == utxos + NewOutputs(tx, k)
  {
    if k == 0 {
      assert utxos + NewOutputs(tx, 0) == utxos;
    } else {
      OutputsAppend(utxos, tx, k - 1);
      PutAppends(utxos + NewOutputs(tx, k - 1), Created(tx, k - 1));
      assert utxos + NewOutputs(tx, k) == utxos + NewOutputs(tx, k - 1) + [Created(tx, k - 1)];
    }
  }

  lemma {:induction false} OutputsSound(utxos: seq<Utxo>, tx: Tx, k: nat)
    requires Sound(utxos) && IsSpent(utxos, tx.input) && Unused(utxos, tx) && k <= |tx.outputs|
    ensures var later := utxos + NewOutputs(tx, k);
            && Sound(later) && Extends(utxos, later)
            && Unspent(later) == Unspent(utxos) + OutputTotal(tx.outputs[..k])
  {
    if k == 0 {
      assert utxos + NewOutputs(tx, 0) == utxos;
    } else {
      OutputsSound(utxos, tx, k - 1);
      hide Sound, Explained, IsSpent, Unspent, Put, Extends, NewOutputs, OutputTotal, Unused;
      var before, utxo := utxos + NewOutputs(tx, k - 1), Created(tx, k - 1);
      NewOutputIsNew(utxos, tx, k - 1);
      SpentStays(utxos, before, tx.input);
      ExplainedBySpend(before, tx, k - 1);
      AppendSound(before, utxo);
      ExtendsTransitive(utxos, before, before + [utxo]);
      UnspentAppend(before, utxo);
      TotalSnoc(tx.outputs, k - 1);
    }
  }

  lemma TotalSnoc(outputs: seq<Output>, k: nat)
    requires k < |outputs|
    ensures OutputTotal(outputs[..k + 1]) == OutputTotal(outputs[..k]) + outputs[k].value
  {
    assert outputs[..k + 1][..k] == outputs[..k];
  }

  lemma NewOutputIsNew(utxos: seq<Utxo>, tx: Tx, k: nat)
    requires Unused(utxos, tx) && k < |tx.outputs|
    ensures Absent(utxos + NewOutputs(tx, k), Created(tx, k).outpoint)
    ensures utxos + NewOutputs(tx, k + 1) == utxos + NewOutputs(tx, k) + [Created(tx, k)]
  {
  }

  lemma ExtendsTransitive(a: seq<Utxo>, b: seq<Utxo>, c: seq<Utxo>)
    requires Extends(a, b) && Extends(b, c)
    ensures Extends(a, c)
  {
  }

  lemma SpendSound(utxos: seq<Utxo>, outpoint: Outpoint, tx: Tx)
    requires Sound(utxos) && Spendable(utxos, outpoint, tx) && tx.input == outpoint
    ensures var later := AfterSpend(utxos, outpoint, tx);
            && Sound(later) && Extends(utxos, later)
            && Unspent(later) + Fee(utxos, outpoint, tx) == Unspent(utxos)
            && IsSpent(later, outpoint) && !IsSpent(utxos, outpoint)
  {
    IndexOfFinds(utxos, outpoint);
    var i := IndexOf(utxos, outpoint).value;
    var marked := utxos[i := utxos[i].(spent := true)];
    assert marked[i].outpoint == outpoint && marked[i].spent;
    MarkSound(utxos, marked);
    UnspentUpdate(utxos, i, utxos[i].(spent := true));
    forall j | 0 <= j < |marked| ensures marked[j].outpoint.txid != SpendId(tx) {
      assert Explained(utxos, |utxos|, utxos[j].outpoint);
    }
    OutputsAppend(marked, tx, |tx.outputs|);
    OutputsSound(marked, tx, |tx.outputs|);
    assert tx.outputs[..|tx.outputs|] == tx.outputs;
    SpentStays(marked, AfterSpend(utxos, outpoint, tx), outpoint);
  }

  lemma ConsolidateSound(utxos: seq<Utxo>, address: string)
    requires Sound(utxos)
    ensures var later := AfterConsolidate(utxos, address);
            Sound(later) && Extends(utxos, later) && Unspent(later) == Unspent(utxos)
  {
    var marked := MarkDeposits(utxos, address);
    MarkSound(utxos, marked);
    UnspentMarked(utxos, address);
    FundSound(marked, address, DepositTotal(utxos, address), CONSOLIDATED);
    UnspentAppend(marked, Funded(marked, address, DepositTotal(utxos, address), CONSOLIDATED));
  }

  // ----- one spend, exactly -----

  /** The outpoints the first k outputs of `tx` are stored under. */
  predicate Overwritten(tx: Tx, k: nat, outpoint: Outpoint) { outpoint.txid == SpendId(tx) && outpoint.index < k }

  /** Value of the unspent entries those outputs replace. */
  function Lost(utxos: seq<Utxo>, tx: Tx, k: nat): nat {
    if utxos == [] then 0
    else
      var last := |utxos| - 1;
      Lost(utxos[..last], tx, k) + if Overwritten(tx, k, utxos[last].outpoint) then Counts(utxos[last]) else 0
  }

  function LossAt(utxos: seq<Utxo>, outpoint: Outpoint): nat {
    IndexOfFinds(utxos, outpoint);
    var i := IndexOf(utxos, outpoint);
    if i.Some? then Counts(utxos[i.value]) else 0
  }

  lemma {:induction false} LostStep(utxos: seq<Utxo>, tx: Tx, k: nat)
    requires Distinct(utxos)
    ensures Lost(utxos, tx, k + 1) == Lost(utxos, tx, k) + LossAt(utxos, Outpoint(SpendId(tx), k))
  {
    if utxos != [] {
      var last := |utxos| - 1;
      LostStep(utxos[..last], tx, k);
      IndexOfFinds(utxos[..last], Outpoint(SpendId(tx), k));
    }
  }

  lemma {:induction false} NothingLost(utxos: seq<Utxo>, tx: Tx, k: nat)
    ensures Lost(utxos, tx, k) == 0 <==> forall j | 0 <= j < |utxos| && Overwritten(tx, k, utxos[j].outpoint) :: Counts(utxos[j]) == 0
  {
    if utxos != [] {
      var last := |utxos| - 1;
      NothingLost(utxos[..last], tx, k);
      assert utxos == utxos[..last] + [utxos[last]];
    }
  }

  /** The map after the first k outputs: entries at their outpoints replaced in
      place, the other outputs appended. */
  ghost predicate Placed(utxos: seq<Utxo>, tx: Tx, k: nat, later: seq<Utxo>)
    requires k <= |tx.outputs|
  {
    && |utxos| <= |later| && Distinct(later)
    && (forall j | 0 <= j < |utxos| ::
          later[j] == if Overwritten(tx, k, utxos[j].outpoint) then Created(tx, utxos[j].outpoint.index) else utxos[j])
    && (forall j | |utxos| <= j < |later| :: Overwritten(tx, k, later[j].outpoint) && !later[j].spent)
  }

  lemma PlaceOne(utxos: seq<Utxo>, tx: Tx, k: nat, later: seq<Utxo>)
    requires Distinct(utxos) && k < |tx.outputs| && Placed(utxos, tx, k, later)
    ensures Placed(utxos, tx, k + 1, Put(later, Created(tx, k)))
    ensures Unspent(Put(later, Created(tx, k))) + LossAt(utxos, Outpoint(SpendId(tx), k)) == Unspent(later) + tx.outputs[k].value
  {
    hide Unspent;
    var o := Outpoint(SpendId(tx), k);
    IndexOfFinds(later, o);
    IndexOfFinds(utxos, o);
    var found := IndexOf(later, o);
    if found.Some? {
      var i := found.value;
      assert i < |utxos| && later[i] == utxos[i];
      IndexOfAt(utxos, i);
      UnspentUpdate(later, i, Created(tx, k));
    } else {
      assert forall j | 0 <= j < |utxos| :: utxos[j].outpoint == later[j].outpoint;
      UnspentAppend(later, Created(tx, k));
    }
  }

  lemma IndexOfAt(utxos: seq<Utxo>, i: nat)
    requires Distinct(utxos) && i < |utxos|
    ensures IndexOf(utxos, utxos[i].outpoint) == Some(i)
  {
    IndexOfFinds(utxos, utxos[i].outpoint);
  }

  lemma {:induction false} OutputsPlaced(utxos: seq<Utxo>, tx: Tx, k: nat)
    requires Distinct(utxos) && k <= |tx.outputs|
    ensures Placed(utxos, tx, k, PutOutputs(utxos, tx, k))
    ensures Unspent(PutOutputs(utxos, tx, k)) + Lost(utxos, tx, k) == Unspent(utxos) + OutputTotal(tx.outputs[..k])
  {
    if k == 0 {
      NothingLost(utxos, tx, 0);
    } else {
      OutputsPlaced(utxos, tx, k - 1);
      assert tx.outputs[..k][..k - 1] == tx.outputs[..k - 1];
      assert OutputTotal(tx.outputs[..k]) == OutputTotal(tx.outputs[..k - 1]) + tx.outputs[k - 1].value;
      assert PutOutputs(utxos, tx, k) == Put(PutOutputs(utxos, tx, k - 1), Created(tx, k - 1));
      hide Placed, Put, PutOutputs, OutputTotal, Unspent, Lost, LossAt;
      PlaceOne(utxos, tx, k - 1, PutOutputs(utxos, tx, k - 1));
      LostStep(utxos, tx, k - 1);
    }
  }

  function Marked(utxos: seq<Utxo>, i: nat): seq<Utxo>
    requires i < |utxos|
  {
    utxos[i := utxos[i].(spent := true)]
  }

  /** Another entry with value is at an outpoint of the transaction's outputs. */
  predicate Replaces(utxos: seq<Utxo>, i: nat, tx: Tx)
    requires i < |utxos|
  {
    exists j | 0 <= j < |utxos| ::
      j != i && Overwritten(tx, |tx.outputs|, utxos[j].outpoint) && !utxos[j].spent && utxos[j].value > 0
  }

  /** The spent coin itself, or one spent before, is at such an outpoint. */
  predicate Reopens(utxos: seq<Utxo>, i: nat, tx: Tx)
    requires i < |utxos|
  {
    exists j | 0 <= j < |utxos| :: Overwritten(tx, |tx.outputs|, utxos[j].outpoint) && (j == i || utxos[j].spent)
  }

  /** Spending coin i of any ledger: what it needs, its fee, and the exact
      accounting of what it leaves. Value is conserved exactly when no other
      unspent value is replaced, and spent entries stay spent exactly when none
      of them, the spent coin included, is replaced. */
  lemma SpendExactly(utxos: seq<Utxo>, i: nat, tx: Tx)
    requires Distinct(utxos) && i < |utxos|
    ensures Spendable(utxos, utxos[i].outpoint, tx) <==> !utxos[i].spent && OutputTotal(tx.outputs) <= utxos[i].value
    ensures Spendable(utxos, utxos[i].outpoint, tx) ==>
              var later := AfterSpend(utxos, utxos[i].outpoint, tx);
              var fee := Fee(utxos, utxos[i].outpoint, tx);
              && Placed(Marked(utxos, i), tx, |tx.outputs|, later)
              && fee == utxos[i].value - OutputTotal(tx.outputs)
              && Unspent(later) + fee + Lost(Marked(utxos, i), tx, |tx.outputs|) == Unspent(utxos)
              && (Unspent(later) + fee == Unspent(utxos) <==> !Replaces(utxos, i, tx))
              && ((forall j | 0 <= j < |utxos| && Marked(utxos, i)[j].spent :: later[j].spent) <==> !Reopens(utxos, i, tx))
  {
    hide Unspent, PutOutputs, Lost, OutputTotal;
    IndexOfAt(utxos, i);
    if Spendable(utxos, utxos[i].outpoint, tx) {
      var marked := Marked(utxos, i);
      OutputsPlaced(marked, tx, |tx.outputs|);
      assert tx.outputs[..|tx.outputs|] == tx.outputs;
      UnspentUpdate(utxos, i, utxos[i].(spent := true));
      NothingLost(marked, tx, |tx.outputs|);
      LossMeans(utxos, i, tx);
      ReopeningMeans(utxos, i, tx, AfterSpend(utxos, utxos[i].outpoint, tx));
    }
  }

  lemma LossMeans(utxos: seq<Utxo>, i: nat, tx: Tx)
    requires i < |utxos|
    ensures Replaces(utxos, i, tx)
            <==> exists j | 0 <= j < |utxos| ::
                   Overwritten(tx, |tx.outputs|, Marked(utxos, i)[j].outpoint) && Counts(Marked(utxos, i)[j]) != 0
  {
    var marked := Marked(utxos, i);
    forall j | 0 <= j < |utxos| ensures marked[j].outpoint == utxos[j].outpoint && Counts(marked[j]) == if j == i then 0 else Counts(utxos[j]) {
    }
  }

  lemma ReopeningMeans(utxos: seq<Utxo>, i: nat, tx: Tx, later: seq<Utxo>)
    requires i < |utxos| && Placed(Marked(utxos, i), tx, |tx.outputs|, later)
    ensures (forall j | 0 <= j < |utxos| && Marked(utxos, i)[j].spent :: later[j].spent) <==> !Reopens(utxos, i, tx)
  {
    var marked := Marked(utxos, i);
    forall j | 0 <= j < |utxos|
      ensures marked[j].outpoint == utxos[j].outpoint && (marked[j].spent <==> j == i || utxos[j].spent)
      ensures later[j].spent <==> marked[j].spent && !Overwritten(tx, |tx.outputs|, utxos[j].outpoint)
    {
    }
  }

  // ----- records presented again -----

  /** A stamped record hashes to another id than the one in its stamp. */
  lemma StampChangesId(utxos: seq<Utxo>, outpoint: Outpoint, tx: Tx)
    requires Spendable(utxos, outpoint, tx)
    ensures SpendId(Stamped(utxos, outpoint, tx)) != SpendId(tx)
  {
  }

  /** The record of a successful spend, presented again as it then stands,
      replaces and reopens nothing. */
  lemma ReusedRecordIsSafe(utxos: seq<Utxo>, i: nat, j: nat, tx: Tx)
    requires Distinct(utxos) && i < |utxos| && j < |utxos| && Spendable(utxos, utxos[i].outpoint, tx)
    requires Unused(utxos, Stamped(utxos, utxos[i].outpoint, tx))
    ensures var first, again := AfterSpend(utxos, utxos[i].outpoint, tx), Stamped(utxos, utxos[i].outpoint, tx);
            && j < |first|
            && !Replaces(first, j, again) && !Reopens(first, j, again)
  {
    var first, again := AfterSpend(utxos, utxos[i].outpoint, tx), Stamped(utxos, utxos[i].outpoint, tx);
    SpendExactly(utxos, i, tx);
    StampChangesId(utxos, utxos[i].outpoint, tx);
    forall k | 0 <= k < |first| ensures first[k].outpoint.txid != SpendId(again) {
      if k < |utxos| {
        assert first[k].outpoint == Marked(utxos, i)[k].outpoint == utxos[k].outpoint;
      }
    }
  }

  lemma {:induction false} LostOfNew(utxos: seq<Utxo>, tx: Tx, k: nat)
    requires Unused(utxos, tx) && k <= |tx.outputs|
    ensures Lost(utxos + NewOutputs(tx, k), tx, |tx.outputs|) == OutputTotal(tx.outputs[..k])
  {
    var all := utxos + NewOutputs(tx, k);
    if k == 0 {
      assert all == utxos;
      NothingLost(utxos, tx, |tx.outputs|);
    } else {
      LostOfNew(utxos, tx, k - 1);
      assert all[..|all| - 1] == utxos + NewOutputs(tx, k - 1);
      assert tx.outputs[..k][..k - 1] == tx.outputs[..k - 1];
    }
  }

  /** An equal fresh record presented for a second coin, while the first outputs
      are unspent, loses exactly their total. */
  lemma SharedTransactionLosesValue(utxos: seq<Utxo>, i: nat, j: nat, tx: Tx)
    requires Sound(utxos) && Unused(utxos, tx) && i < |utxos| && j < |utxos| && i != j
    requires Spendable(utxos, utxos[i].outpoint, tx) && Spendable(utxos, utxos[j].outpoint, tx)
    requires tx.input == utxos[i].outpoint
    ensures var first := AfterSpend(utxos, utxos[i].outpoint, tx);
            && Spendable(first, utxos[j].outpoint, tx)
            && Unspent(AfterSpend(first, utxos[j].outpoint, tx))
               + Fee(utxos, utxos[i].outpoint, tx) + Fee(first, utxos[j].outpoint, tx)
               == Unspent(utxos) - OutputTotal(tx.outputs)
  {
    FirstUse(utxos, i, tx);
    hide Unspent, PutOutputs, OutputTotal, NewOutputs, AfterSpend, Fee, Spendable, Sound;
    MarkedUnused(utxos, i, tx);
    assert Marked(utxos, i)[j] == utxos[j];
    SecondUse(Marked(utxos, i), AfterSpend(utxos, utxos[i].outpoint, tx), j, tx);
  }

  lemma FirstUse(utxos: seq<Utxo>, i: nat, tx: Tx)
    requires Distinct(utxos) && Unused(utxos, tx) && i < |utxos| && Spendable(utxos, utxos[i].outpoint, tx)
    ensures var first := AfterSpend(utxos, utxos[i].outpoint, tx);
            && first == Marked(utxos, i) + NewOutputs(tx, |tx.outputs|) && Distinct(first)
            && Unspent(first) + Fee(utxos, utxos[i].outpoint, tx) == Unspent(utxos)
    ensures forall j | 0 <= j < |utxos| && j != i && Spendable(utxos, utxos[j].outpoint, tx) ::
              !utxos[j].spent && OutputTotal(tx.outputs) <= utxos[j].value
  {
    IndexOfAt(utxos, i);
    MarkedUnused(utxos, i, tx);
    OutputsAppend(Marked(utxos, i), tx, |tx.outputs|);
    hide Unspent, PutOutputs, OutputTotal, NewOutputs, Placed, Lost;
    SpendExactly(utxos, i, tx);
    assert Distinct(AfterSpend(utxos, utxos[i].outpoint, tx)) by { PlacedDistinct(Marked(utxos, i), tx, |tx.outputs|, AfterSpend(utxos, utxos[i].outpoint, tx)); }
    UnusedLosesNothing(Marked(utxos, i), tx);
    forall j | 0 <= j < |utxos| && j != i && Spendable(utxos, utxos[j].outpoint, tx)
      ensures !utxos[j].spent && OutputTotal(tx.outputs) <= utxos[j].value
    {
      IndexOfAt(utxos, j);
    }
  }

  lemma PlacedDistinct(utxos: seq<Utxo>, tx: Tx, k: nat, later: seq<Utxo>)
    requires k <= |tx.outputs| && Placed(utxos, tx, k, later)
    ensures Distinct(later)
  {
  }

  lemma MarkedUnused(utxos: seq<Utxo>, i: nat, tx: Tx)
    requires Unused(utxos, tx) && i < |utxos|
    ensures Unused(Marked(utxos, i), tx)
  {
  }

  lemma UnusedLosesNothing(utxos: seq<Utxo>, tx: Tx)
    requires Unused(utxos, tx)
    ensures Lost(utxos, tx, |tx.outputs|) == 0
  {
    NothingLost(utxos, tx, |tx.outputs|);
  }

  lemma SecondUse(marked: seq<Utxo>, first: seq<Utxo>, j: nat, tx: Tx)
    requires Unused(marked, tx) && Distinct(first) && first == marked + NewOutputs(tx, |tx.outputs|)
    requires j < |marked| && !marked[j].spent && OutputTotal(tx.outputs) <= marked[j].value
    ensures Spendable(first, marked[j].outpoint, tx)
    ensures Unspent(AfterSpend(first, marked[j].outpoint, tx)) + Fee(first, marked[j].outpoint, tx) + OutputTotal(tx.outputs) == Unspent(first)
  {
    hide Unspent, PutOutputs, Lost, OutputTotal, Distinct, Unused, NewOutputs, AfterSpend, Fee, Spendable, Replaces, Reopens, Placed;
    var n := |tx.outputs|;
    assert first[j] == marked[j];
    SpendExactly(first, j, tx);
    assert Marked(first, j) == Marked(marked, j) + NewOutputs(tx, n);
    MarkedUnused(marked, j, tx);
    LostOfNew(Marked(marked, j), tx, n);
    assert tx.outputs[..n] == tx.outputs;
  }
}

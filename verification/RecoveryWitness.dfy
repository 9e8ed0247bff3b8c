/** Building the timelocked recovery leaf and the witnesses that spend it
    (src/crypto.ts, src/psbt.ts, src/custody.ts). */
module RecoveryWitness {
  import opened Wrappers
  import opened Tapscript
  import opened RecoveryLeaf
  import opened LeafRefinement

  // ----- the leaf -----

  /** recoveryThresholdScript: multi_a over keys in script order. */
  method ThresholdScript(keys: seq<Bytes>, threshold: int) returns (script: seq<Chunk>)
    ensures |script| == 2 * |keys| + 2
    ensures forall i | 0 <= i < |keys| :: script[2 * i] == Push(keys[i]) && script[2 * i + 1] == KeyOp(i)
    ensures script[2 * |keys|] == NumChunk(threshold) && script[2 * |keys| + 1] == Op(OP_NUMEQUAL)
  {
    script := [];
    for i := 0 to |keys|
      invariant |script| == 2 * i
      invariant forall j | 0 <= j < i :: script[2 * j] == Push(keys[j]) && script[2 * j + 1] == KeyOp(j)
    {
      script := script + [Push(keys[i])];
      script := script + [KeyOp(i)];
    }
    script := script + [NumChunk(threshold)];
    script := script + [Op(OP_NUMEQUAL)];
  }

  /** `script` is the recovery leaf of these keys, delay and threshold. */
  predicate IsRecoveryScript(script: seq<Chunk>, delay: int, keys: seq<Bytes>, threshold: int) {
    && |script| == 2 * |keys| + 5
    && script[0] == NumChunk(delay)
    && script[1] == Op(OP_CHECKSEQUENCEVERIFY) && script[2] == Op(OP_DROP)
    && (forall i | 0 <= i < |keys| :: script[3 + 2 * i] == Push(keys[i]) && script[4 + 2 * i] == KeyOp(i))
    && script[|script| - 2] == NumChunk(threshold) && script[|script| - 1] == Op(OP_NUMEQUAL)
  }

  /** The recovery part of buildVaultTaproot, on keys already sorted. */
  method RecoveryScript(delay: int, keys: seq<Bytes>) returns (script: seq<Chunk>, threshold: int)
    ensures threshold == if |keys| <= 1 then 1 else |keys| - 1
    ensures IsRecoveryScript(script, delay, keys, threshold)
  {
    threshold := if |keys| - 1 > 1 then |keys| - 1 else 1;
    var tail := ThresholdScript(keys, threshold);
    script := [NumChunk(delay), Op(OP_CHECKSEQUENCEVERIFY), Op(OP_DROP)] + tail;
    forall i | 0 <= i < |keys| ensures script[3 + 2 * i] == Push(keys[i]) && script[4 + 2 * i] == KeyOp(i) {
      assert script[3 + 2 * i] == tail[2 * i] && script[4 + 2 * i] == tail[2 * i + 1];
    }
  }

  /** A number the verifier can read: at most four bytes. */
  function Readable(v: nat): Option<int> { if v < 0x8000_0000 then Some(v) else None }

  /** The verifier's parser reads back the keys, and every number of up to four bytes. */
  lemma ParsesBack(script: seq<Chunk>, delay: nat, keys: seq<Bytes>, threshold: nat)
    requires IsRecoveryScript(script, delay, keys, threshold)
    requires forall i | 0 <= i < |keys| :: |keys[i]| == 32
    ensures IsLeaf(script) && KeyCount(script) == |keys| && Keys(script) == keys
    ensures ScriptNum(script[0]) == Readable(delay) && ScriptNum(script[|script| - 2]) == Readable(threshold)
  {
    hide ScriptNum, NumChunk;
    NumberReadsBack(delay);
    NumberReadsBack(threshold);
    forall i | 0 <= i < KeyCount(script) ensures HasKey(script, i) {
      assert script[3 + 2 * i] == Push(keys[i]);
    }
    assert KeyCount(script) == |keys|;
  }

  lemma NumberReadsBack(v: nat)
    ensures ScriptNum(NumChunk(v)) == Readable(v)
  {
    NumRoundTrip(v);
    FourBytes(v);
  }

  // ----- the length of the leaf -----

  lemma {:induction false} KeysSize(script: seq<Chunk>, delay: int, keys: seq<Bytes>, threshold: int, k: nat)
    requires IsRecoveryScript(script, delay, keys, threshold) && k <= |keys|
    requires forall i | 0 <= i < |keys| :: |keys[i]| == 32
    ensures ScriptSize(script, 3 + 2 * k) == ChunkSize(NumChunk(delay)) + 2 + 34 * k
  {
    hide NumChunk;
    if k == 0 {
      assert ScriptSize(script, 1) == ChunkSize(script[0]);
      assert ScriptSize(script, 2) == ScriptSize(script, 1) + 1;
    } else {
      KeysSize(script, delay, keys, threshold, k - 1);
      assert script[1 + 2 * k] == Push(keys[k - 1]);
      assert script[2 + 2 * k] == KeyOp(k - 1);
      assert ScriptSize(script, 2 + 2 * k) == ScriptSize(script, 1 + 2 * k) + ChunkSize(script[1 + 2 * k]);
      assert ScriptSize(script, 3 + 2 * k) == ScriptSize(script, 2 + 2 * k) + ChunkSize(script[2 + 2 * k]);
    }
  }

  lemma NumSize(v: int)
    requires 1 <= v <= 65535
    ensures 1 <= ChunkSize(NumChunk(v)) <= 4
    ensures v <= 16 ==> ChunkSize(NumChunk(v)) == 1
  {
    ShortNum(v);
  }

  /** The recovery leaf of a vault keeps within the 252 bytes of a one-byte
      length exactly when it has at most seven keys. */
  lemma LeafFitsSevenKeys(script: seq<Chunk>, delay: int, keys: seq<Bytes>)
    requires IsRecoveryScript(script, delay, keys, if |keys| <= 1 then 1 else |keys| - 1)
    requires 1 <= delay <= 65535 && forall i | 0 <= i < |keys| :: |keys[i]| == 32
    ensures FitsCompactSize(script) <==> |keys| <= 7
  {
    var n := |keys|;
    var threshold := if n <= 1 then 1 else n - 1;
    KeysSize(script, delay, keys, threshold, n);
    NumSize(delay);
    assert ScriptSize(script, 4 + 2 * n) == ScriptSize(script, 3 + 2 * n) + ChunkSize(NumChunk(threshold));
    assert ScriptSize(script, 5 + 2 * n) == ScriptSize(script, 4 + 2 * n) + 1;
    if n <= 8 {
      NumSize(threshold);
    }
  }

  // ----- the witness -----

  /** Positions whose key has a signature, among the first k. */
  function Available(keys: seq<Bytes>, signatures: map<Bytes, Bytes>, k: nat): nat
    requires k <= |keys|
  {
    if k == 0 then 0 else Available(keys, signatures, k - 1) + if keys[k - 1] in signatures then 1 else 0
  }

  function Min(a: nat, b: nat): nat { if a <= b then a else b }

  /** Slot k holds a signature while fewer than `threshold` were placed before it. */
  function Slot(keys: seq<Bytes>, signatures: map<Bytes, Bytes>, threshold: nat, k: nat): Bytes
    requires k < |keys|
  {
    if keys[k] in signatures && Available(keys, signatures, k) < threshold then signatures[keys[k]] else []
  }

  function Reversed(items: seq<Bytes>): seq<Bytes> {
    seq(|items|, i requires 0 <= i < |items| => items[|items| - 1 - i])
  }

  /** The slot loop of signRecoveryPsbt, then the reversal. With
      `threshold >= |keys|` it is the assembly of aggregateRecoveryShares. */
  method AssembleWitness(keys: seq<Bytes>, signatures: map<Bytes, Bytes>, threshold: nat) returns (items: seq<Bytes>)
    ensures FromSlots(items, keys, signatures, threshold)
  {
    var remainingSlots := threshold;
    var inKeyOrder: seq<Bytes> := [];
    for k := 0 to |keys|
      invariant |inKeyOrder| == k
      invariant remainingSlots == threshold - Min(threshold, Available(keys, signatures, k))
      invariant forall j | 0 <= j < k :: inKeyOrder[j] == Slot(keys, signatures, threshold, j)
    {
      if keys[k] in signatures && remainingSlots > 0 {
        remainingSlots := remainingSlots - 1;
        inKeyOrder := inKeyOrder + [signatures[keys[k]]];
      } else {
        inKeyOrder := inKeyOrder + [[]];
      }
    }
    items := Reversed(inKeyOrder);
  }

  /** Every signature on hand is a 64-byte signature by its key. */
  predicate Genuine(spend: Spend, signatures: map<Bytes, Bytes>) {
    forall key | key in signatures :: |signatures[key]| == 64 && spend.valid(key, signatures[key], 0)
  }

  predicate FromSlots(items: seq<Bytes>, keys: seq<Bytes>, signatures: map<Bytes, Bytes>, threshold: nat) {
    && |items| == |keys|
    && forall k | 0 <= k < |keys| :: items[|keys| - 1 - k] == Slot(keys, signatures, threshold, k)
  }

  lemma {:induction false} SlotsCount(spend: Spend, items: seq<Bytes>, keys: seq<Bytes>, signatures: map<Bytes, Bytes>, threshold: nat, k: nat)
    requires FromSlots(items, keys, signatures, threshold) && Genuine(spend, signatures) && k <= |keys|
    ensures CountValid(spend, keys, items, k) == Some(Min(threshold, Available(keys, signatures, k)))
    ensures NonEmpty(items, k) == Min(threshold, Available(keys, signatures, k))
  {
    if k > 0 {
      SlotsCount(spend, items, keys, signatures, threshold, k - 1);
      assert items[|keys| - 1 - (k - 1)] == Slot(keys, signatures, threshold, k - 1);
    }
  }

  lemma SlotsHaveDefaultType(items: seq<Bytes>, keys: seq<Bytes>, signatures: map<Bytes, Bytes>, threshold: nat, spend: Spend)
    requires FromSlots(items, keys, signatures, threshold) && Genuine(spend, signatures)
    ensures TypesDefined(items, |items|)
  {
    forall i | 0 <= i < |items| ensures |items[i]| != 65 {
      assert items[|keys| - 1 - (|keys| - 1 - i)] == Slot(keys, signatures, threshold, |keys| - 1 - i);
    }
  }

  /** The witness built from at least `threshold` genuine signatures spends the
      leaf with exactly `threshold` of them: the vault's verifier and the
      tapscript machine both accept it. */
  lemma WitnessSpendsLeaf(script: seq<Chunk>, delay: nat, keys: seq<Bytes>, threshold: nat, signatures: map<Bytes, Bytes>,
                          items: seq<Bytes>, extra: nat, spend: Spend)
    requires IsRecoveryScript(script, delay, keys, threshold)
    requires delay < 0x10000 && |keys| >= 1 && forall i | 0 <= i < |keys| :: |keys[i]| == 32
    requires FromSlots(items, keys, signatures, threshold) && Genuine(spend, signatures)
    requires threshold <= Available(keys, signatures, |keys|)
    requires spend.sequence < 0x1_0000_0000 && DelayPasses(spend, delay)
    ensures RecoveryAccepts(script, items, spend) <==> threshold < 0x8000_0000
    ensures ConsensusAccepts(script, items, extra, spend) <==> |keys| < MAX_STACK
    ensures NonEmpty(items, |items|) == threshold
  {
    AvailableBound(keys, signatures, |keys|);
    SlotsCount(spend, items, keys, signatures, threshold, |keys|);
    ParsesBack(script, delay, keys, threshold);
    SlotsHaveDefaultType(items, keys, signatures, threshold, spend);
    RecoveryIffConsensus(script, items, extra, spend, delay, threshold);
  }

  lemma AvailableBound(keys: seq<Bytes>, signatures: map<Bytes, Bytes>, k: nat)
    requires k <= |keys|
    ensures Available(keys, signatures, k) <= k
  {
  }

  // ----- shares -----

  /** What the coordinator expects every share to name: round, vanished
      participant, leaf and transaction, as one value. */
  datatype Share<C> = Share(context: C, participantId: string, key: Bytes, signature: Bytes)

  datatype ShareError =
    | WrongCount | WrongContext(index: nat) | UnknownKey(index: nat) | VanishedKey(index: nat) | DuplicateKey(index: nat)
    | MalformedSignature(index: nat) | InvalidSignature(index: nat) | WrongOwner(index: nat)

  datatype Aggregated = Witness(items: seq<Bytes>) | Rejected(error: ShareError)

  /** One share passes on its own. */
  predicate ShareFits<C(==)>(share: Share<C>, context: C, keys: seq<Bytes>, vanishedKey: Bytes, owners: map<Bytes, string>, spend: Spend) {
    && share.context == context
    && share.key in keys && share.key != vanishedKey
    && |share.signature| == 64 && spend.valid(share.key, share.signature, 0)
    && share.key in owners && owners[share.key] == share.participantId
  }

  /** The first k shares fit, and no two of them share a key. */
  ghost predicate SharesFit<C>(shares: seq<Share<C>>, k: nat, context: C, keys: seq<Bytes>, vanishedKey: Bytes, owners: map<Bytes, string>, spend: Spend)
    requires k <= |shares|
  {
    && (forall i | 0 <= i < k :: ShareFits(shares[i], context, keys, vanishedKey, owners, spend))
    && (forall i, j | 0 <= i < j < k :: shares[i].key != shares[j].key)
  }

  method CheckShare<C(==)>(share: Share<C>, i: nat, context: C, keys: seq<Bytes>, vanishedKey: Bytes,
                           owners: map<Bytes, string>, spend: Spend, seen: map<Bytes, Bytes>) returns (problem: Option<ShareError>)
    ensures problem == None <==> ShareFits(share, context, keys, vanishedKey, owners, spend) && share.key !in seen
  {
    problem :=
      if share.context != context then Some(WrongContext(i))
      else if share.key !in keys then Some(UnknownKey(i))
      else if share.key == vanishedKey then Some(VanishedKey(i))
      else if share.key in seen then Some(DuplicateKey(i))
      else if |share.signature| != 64 then Some(MalformedSignature(i))
      else if !spend.valid(share.key, share.signature, 0) then Some(InvalidSignature(i))
      else if share.key !in owners || owners[share.key] != share.participantId then Some(WrongOwner(i))
      else None;
  }

  ghost function KeysOf<C>(shares: seq<Share<C>>, i: nat): set<Bytes>
    requires i <= |shares|
  {
    if i == 0 then {} else KeysOf(shares, i - 1) + {shares[i - 1].key}
  }

  lemma {:induction false} KeyHasShare<C>(shares: seq<Share<C>>, i: nat, key: Bytes) returns (j: nat)
    requires i <= |shares| && key in KeysOf(shares, i)
    ensures j < i && shares[j].key == key
  {
    if shares[i - 1].key == key {
      j := i - 1;
    } else {
      j := KeyHasShare(shares, i - 1, key);
    }
  }

  /** The signatures of the first i shares, by key: as many as shares, all
      genuine, none by a stranger or by the vanished participant. */
  ghost predicate Collected<C>(signatures: map<Bytes, Bytes>, shares: seq<Share<C>>, i: nat, keys: seq<Bytes>, vanishedKey: Bytes, spend: Spend)
    requires i <= |shares|
  {
    && signatures.Keys == KeysOf(shares, i)
    && (forall key | key in signatures :: key in keys && key != vanishedKey)
    && Genuine(spend, signatures)
    && |signatures| == i
  }

  lemma NothingCollected<C>(shares: seq<Share<C>>, context: C, keys: seq<Bytes>, vanishedKey: Bytes, owners: map<Bytes, string>, spend: Spend)
    ensures Collected(map[], shares, 0, keys, vanishedKey, spend)
    ensures SharesFit(shares, 0, context, keys, vanishedKey, owners, spend)
  {
  }

  lemma CollectedKeys<C>(signatures: map<Bytes, Bytes>, shares: seq<Share<C>>, i: nat, keys: seq<Bytes>, vanishedKey: Bytes, spend: Spend)
    requires i <= |shares| && Collected(signatures, shares, i, keys, vanishedKey, spend)
    ensures signatures.Keys == KeysOf(shares, i)
  {
  }

  lemma CollectOne<C>(signatures: map<Bytes, Bytes>, shares: seq<Share<C>>, i: nat, context: C, keys: seq<Bytes>,
                      vanishedKey: Bytes, owners: map<Bytes, string>, spend: Spend)
    requires i < |shares| && Collected(signatures, shares, i, keys, vanishedKey, spend)
    requires ShareFits(shares[i], context, keys, vanishedKey, owners, spend) && shares[i].key !in signatures
    ensures Collected(signatures[shares[i].key := shares[i].signature], shares, i + 1, keys, vanishedKey, spend)
  {
    var next := signatures[shares[i].key := shares[i].signature];
    assert next.Keys == signatures.Keys + {shares[i].key};
    assert KeysOf(shares, i + 1) == KeysOf(shares, i) + {shares[i].key};
  }

  lemma {:induction false} ShareInKeys<C>(shares: seq<Share<C>>, i: nat, j: nat)
    requires j < i <= |shares|
    ensures shares[j].key in KeysOf(shares, i)
  {
    if j < i - 1 {
      ShareInKeys(shares, i - 1, j);
    }
  }

  lemma FitOne<C>(shares: seq<Share<C>>, i: nat, context: C, keys: seq<Bytes>,
                  vanishedKey: Bytes, owners: map<Bytes, string>, spend: Spend)
    requires i < |shares| && SharesFit(shares, i, context, keys, vanishedKey, owners, spend)
    ensures if ShareFits(shares[i], context, keys, vanishedKey, owners, spend) && shares[i].key !in KeysOf(shares, i)
            then SharesFit(shares, i + 1, context, keys, vanishedKey, owners, spend)
            else !SharesFit(shares, |shares|, context, keys, vanishedKey, owners, spend)
  {
    if shares[i].key in KeysOf(shares, i) {
      var j := KeyHasShare(shares, i, shares[i].key);
    } else {
      forall j | 0 <= j < i ensures shares[j].key != shares[i].key {
        ShareInKeys(shares, i, j);
      }
    }
  }

  /** aggregateRecoveryShares: accepts exactly `threshold` fitting shares by
      distinct keys, and nothing else. */
  method AggregateShares<C(==)>(shares: seq<Share<C>>, context: C, keys: seq<Bytes>, threshold: nat, vanishedKey: Bytes,
                                owners: map<Bytes, string>, spend: Spend)
    returns (r: Aggregated, signatures: map<Bytes, Bytes>)
    requires threshold >= 1
    ensures r.Witness? <==> |shares| == threshold && SharesFit(shares, |shares|, context, keys, vanishedKey, owners, spend)
    ensures r.Witness? ==>
              && Collected(signatures, shares, |shares|, keys, vanishedKey, spend)
              && FromSlots(r.items, keys, signatures, |keys|)
  {
    hide SharesFit, Collected, FromSlots;
    signatures := map[];
    NothingCollected(shares, context, keys, vanishedKey, owners, spend);
    if |shares| != threshold {
      return Rejected(WrongCount), signatures;
    }
    for i := 0 to |shares|
      invariant SharesFit(shares, i, context, keys, vanishedKey, owners, spend)
      invariant Collected(signatures, shares, i, keys, vanishedKey, spend)
    {
      hide ShareFits;
      CollectedKeys(signatures, shares, i, keys, vanishedKey, spend);
      var problem := CheckShare(shares[i], i, context, keys, vanishedKey, owners, spend, signatures);
      FitOne(shares, i, context, keys, vanishedKey, owners, spend);
      if problem.Some? {
        return Rejected(problem.value), signatures;
      }
      CollectOne(signatures, shares, i, context, keys, vanishedKey, owners, spend);
      signatures := signatures[shares[i].key := shares[i].signature];
    }
    var items := AssembleWitness(keys, signatures, |keys|);
    r := Witness(items);
  }

  /** The keys among the first k that have a signature. */
  function PlacedKeys(keys: seq<Bytes>, signatures: map<Bytes, Bytes>, k: nat): set<Bytes>
    requires k <= |keys|
  {
    set key | key in signatures && key in keys[..k]
  }

  lemma PlaceOne(keys: seq<Bytes>, signatures: map<Bytes, Bytes>, k: nat)
    requires k < |keys|
    ensures PlacedKeys(keys, signatures, k + 1)
            == if keys[k] in signatures then PlacedKeys(keys, signatures, k) + {keys[k]} else PlacedKeys(keys, signatures, k)
  {
    assert keys[..k + 1] == keys[..k] + [keys[k]];
  }

  lemma NewKeyNotPlaced(keys: seq<Bytes>, signatures: map<Bytes, Bytes>, k: nat)
    requires k < |keys| && forall i, j | 0 <= i < j < |keys| :: keys[i] != keys[j]
    ensures keys[k] !in PlacedKeys(keys, signatures, k)
  {
    assert forall i | 0 <= i < k :: keys[..k][i] == keys[i] != keys[k];
  }

  /** With distinct script keys every signature of the map finds its slot, so an
      aggregate of `threshold` shares carries exactly `threshold` signatures. */
  lemma {:induction false} DistinctKeysPlaceAll(keys: seq<Bytes>, signatures: map<Bytes, Bytes>, k: nat)
    requires k <= |keys|
    requires forall i, j | 0 <= i < j < |keys| :: keys[i] != keys[j]
    ensures Available(keys, signatures, k) == |PlacedKeys(keys, signatures, k)|
  {
    hide PlacedKeys;
    if k > 0 {
      DistinctKeysPlaceAll(keys, signatures, k - 1);
      PlaceOne(keys, signatures, k - 1);
      NewKeyNotPlaced(keys, signatures, k - 1);
    } else {
      assert PlacedKeys(keys, signatures, 0) == {} by { NothingPlaced(keys, signatures); }
    }
  }

  lemma NothingPlaced(keys: seq<Bytes>, signatures: map<Bytes, Bytes>)
    ensures PlacedKeys(keys, signatures, 0) == {}
  {
  }

  lemma SlotsUnlimited(keys: seq<Bytes>, signatures: map<Bytes, Bytes>, threshold: nat, items: seq<Bytes>)
    requires Available(keys, signatures, |keys|) <= threshold && FromSlots(items, keys, signatures, |keys|)
    ensures FromSlots(items, keys, signatures, threshold)
  {
    forall k | 0 <= k < |keys| ensures items[|keys| - 1 - k] == Slot(keys, signatures, threshold, k) {
      AvailableBound(keys, signatures, k);
      AvailableGrows(keys, signatures, k + 1, |keys|);
      assert Slot(keys, signatures, |keys|, k) == Slot(keys, signatures, threshold, k);
    }
  }

  /** The aggregate of `threshold` fitting shares spends the leaf with exactly
      `threshold` signatures, for the vault's verifier and for consensus. */
  lemma AggregateSpendsLeaf(script: seq<Chunk>, delay: nat, keys: seq<Bytes>, threshold: nat, signatures: map<Bytes, Bytes>,
                            items: seq<Bytes>, extra: nat, spend: Spend)
    requires IsRecoveryScript(script, delay, keys, threshold)
    requires delay < 0x10000 && |keys| >= 1 && forall i | 0 <= i < |keys| :: |keys[i]| == 32
    requires forall i, j | 0 <= i < j < |keys| :: keys[i] != keys[j]
    requires Genuine(spend, signatures) && |signatures| == threshold && forall key | key in signatures :: key in keys
    requires FromSlots(items, keys, signatures, |keys|)
    requires spend.sequence < 0x1_0000_0000 && DelayPasses(spend, delay)
    ensures RecoveryAccepts(script, items, spend) <==> threshold < 0x8000_0000
    ensures ConsensusAccepts(script, items, extra, spend) <==> |keys| < MAX_STACK
    ensures NonEmpty(items, |items|) == threshold
  {
    hide RecoveryAccepts, ConsensusAccepts, IsRecoveryScript, FromSlots, Genuine, DelayPasses, NonEmpty, Available;
    AllPlaced(keys, signatures);
    AvailableBound(keys, signatures, |keys|);
    SlotsUnlimited(keys, signatures, threshold, items);
    WitnessSpendsLeaf(script, delay, keys, threshold, signatures, items, extra, spend);
  }

  lemma AllPlaced(keys: seq<Bytes>, signatures: map<Bytes, Bytes>)
    requires forall i, j | 0 <= i < j < |keys| :: keys[i] != keys[j]
    requires forall key | key in signatures :: key in keys
    ensures Available(keys, signatures, |keys|) == |signatures|
  {
    DistinctKeysPlaceAll(keys, signatures, |keys|);
    assert keys[..|keys|] == keys;
    assert PlacedKeys(keys, signatures, |keys|) == signatures.Keys;
  }

  lemma {:induction false} AvailableGrows(keys: seq<Bytes>, signatures: map<Bytes, Bytes>, j: nat, k: nat)
    requires j <= k <= |keys|
    ensures Available(keys, signatures, j) <= Available(keys, signatures, k)
  {
    if j < k {
      AvailableGrows(keys, signatures, j, k - 1);
    }
  }
}

/** Spending a vault output by script path, end to end: the leaves of
    buildVaultTaproot, the commitment check and the leaf verifier
    (src/crypto.ts, src/consensus.ts) against BIP-341 and BIP-342. */
module ScriptPath {
  import opened Wrappers
  import opened Tapscript
  import opened RecoveryLeaf
  import opened LeafRefinement
  import opened RecoveryWitness
  import opened TapTree

  type Script = seq<Chunk>

  /** What a leaf hash commits to: version and script. */
  type Versioned = (nat, Script)

  const LEAF_VERSION: nat := 0xc0

  /** A control block: leaf version, parity bit, internal key, sibling hashes. */
  datatype Control = Control(version: nat, parity: nat, internal: int, path: seq<int>)

  /** xOnlyPointAddTweak with the TapTweak hash: output key and parity, or none at infinity. */
  type Tweaker = (int, int) -> Option<(int, nat)>

  /** No two (internal key, Merkle root) pairs reach the same x-only output key. */
  ghost predicate Binding(tweak: Tweaker) {
    forall k, m, k', m' ::
      tweak(k, m).Some? && tweak(k', m').Some? && tweak(k, m).value.0 == tweak(k', m').value.0 ==> k == k' && m == m'
  }

  predicate Commits(H: Hasher<Versioned>, tweak: Tweaker, outputKey: int, control: Control, script: Script) {
    tweak(control.internal, Fold(H, H.leaf((control.version, script)), control.path)) == Some((outputKey, control.parity))
  }

  /** verifyScriptPathSpend on a well-sized control block. */
  predicate VerifierSpends(H: Hasher<Versioned>, tweak: Tweaker, outputKey: int, control: Control, script: Script,
                           items: seq<Bytes>, spend: Spend)
  {
    && control.version == LEAF_VERSION
    && FitsCompactSize(script)
    && Commits(H, tweak, outputKey, control, script)
    && LeafAccepts(script, items, spend)
  }

  /** BIP-341 "Script validation rules": paths of at most 128 hashes; a leaf
      version with no meaning yet accepts anything. */
  predicate ConsensusSpends(H: Hasher<Versioned>, tweak: Tweaker, outputKey: int, control: Control, script: Script,
                            items: seq<Bytes>, extra: nat, spend: Spend)
  {
    && |control.path| <= 128
    && Commits(H, tweak, outputKey, control, script)
    && (control.version == LEAF_VERSION ==> ConsensusAccepts(script, items, extra, spend))
  }

  // ----- the vault's leaves -----

  datatype SoloKeys = SoloKeys(policy: Bytes, identification: Bytes)

  function PkScript(key: Bytes): Script { [Push(key), Op(OP_CHECKSIG)] }

  function Threshold(keys: seq<Bytes>): nat { if |keys| <= 1 then 1 else |keys| - 1 }

  /** Two single-key leaves per participant, then the recovery leaf. */
  predicate IsVaultLeaves(leaves: seq<Script>, solo: seq<SoloKeys>, delay: int, keys: seq<Bytes>) {
    && |leaves| == 2 * |solo| + 1
    && (forall i | 0 <= i < |solo| ::
          leaves[2 * i] == PkScript(solo[i].policy) && leaves[2 * i + 1] == PkScript(solo[i].identification))
    && IsRecoveryScript(leaves[2 * |solo|], delay, keys, Threshold(keys))
  }

  /** The leaf list of buildVaultTaproot; `None` when a participant's two keys agree. */
  method VaultLeaves(solo: seq<SoloKeys>, delay: int, keys: seq<Bytes>) returns (leaves: Option<seq<Script>>)
    ensures leaves.None? <==> exists i | 0 <= i < |solo| :: solo[i].policy == solo[i].identification
    ensures leaves.Some? ==> IsVaultLeaves(leaves.value, solo, delay, keys)
  {
    var soloLeaves: seq<Script> := [];
    for i := 0 to |solo|
      invariant |soloLeaves| == 2 * i
      invariant forall j | 0 <= j < i ::
        && solo[j].policy != solo[j].identification
        && soloLeaves[2 * j] == PkScript(solo[j].policy) && soloLeaves[2 * j + 1] == PkScript(solo[j].identification)
    {
      if solo[i].policy == solo[i].identification {
        return None;
      }
      soloLeaves := soloLeaves + [PkScript(solo[i].policy), PkScript(solo[i].identification)];
    }
    var recovery, threshold := RecoveryScript(delay, keys);
    leaves := Some(soloLeaves + [recovery]);
  }

  function Tagged(leaves: seq<Script>): seq<Versioned> {
    seq(|leaves|, i requires 0 <= i < |leaves| => (LEAF_VERSION, leaves[i]))
  }

  /** A vault output: its tree, internal key, output key and parity. */
  datatype Vault = Vault(leaves: seq<Script>, solo: seq<SoloKeys>, delay: nat, keys: seq<Bytes>,
                         internal: int, outputKey: int, parity: nat)

  ghost predicate IsVault(H: Hasher<Versioned>, tweak: Tweaker, v: Vault) {
    && CollisionFree(H) && Binding(tweak)
    && IsVaultLeaves(v.leaves, v.solo, v.delay, v.keys)
    && |v.leaves| <= Pow2(128)
    && (forall i | 0 <= i < |v.solo| :: |v.solo[i].policy| == 32 && |v.solo[i].identification| == 32)
    && 1 <= |v.keys| <= 7 && (forall i | 0 <= i < |v.keys| :: |v.keys[i]| == 32)
    && 1 <= v.delay <= 65535
    && tweak(v.internal, Root(H, Build(Tagged(v.leaves)))) == Some((v.outputKey, v.parity))
  }

  /** The control block of leaf number i. */
  function ControlOf(H: Hasher<Versioned>, v: Vault, i: nat): Control
    requires i < |v.leaves|
  {
    BuildKeepsLeaves(Tagged(v.leaves));
    Control(LEAF_VERSION, v.parity, v.internal, Path(H, Build(Tagged(v.leaves)), i))
  }

  /** Only the tree's own leaves, under their own control blocks, are committed. */
  lemma OnlyOwnLeavesCommit(H: Hasher<Versioned>, tweak: Tweaker, v: Vault, control: Control, script: Script)
    requires IsVault(H, tweak, v)
    ensures Commits(H, tweak, v.outputKey, control, script)
            <==> control.version == LEAF_VERSION
                 && exists i | 0 <= i < |v.leaves| :: v.leaves[i] == script && control == ControlOf(H, v, i)
  {
    var tagged := Tagged(v.leaves);
    var t := Build(tagged);
    BuildKeepsLeaves(tagged);
    if Commits(H, tweak, v.outputKey, control, script) {
      var i := FoldCommits(H, t, (control.version, script), control.path);
      assert tagged[i] == (LEAF_VERSION, v.leaves[i]);
      assert control == ControlOf(H, v, i);
    }
    forall i | 0 <= i < |v.leaves| ensures Commits(H, tweak, v.outputKey, ControlOf(H, v, i), v.leaves[i]) {
      PathFoldsToRoot(H, t, i);
    }
  }

  /** What the verifier asks of the witness for leaf number i. */
  predicate LeafSatisfied(v: Vault, i: nat, items: seq<Bytes>, spend: Spend)
    requires IsVaultLeaves(v.leaves, v.solo, v.delay, v.keys) && i < |v.leaves|
  {
    if i < 2 * |v.solo| then
      var solo := v.solo[i / 2];
      |items| == 1 && SignaturePasses(spend, if i % 2 == 0 then solo.policy else solo.identification, items[0])
    else
      && DelayPasses(spend, v.delay)
      && |items| == |v.keys|
      && CountValid(spend, v.keys, items, |items|) == Some(Threshold(v.keys))
  }

  lemma PkLeafMeans(key: Bytes, items: seq<Bytes>, spend: Spend)
    requires |key| == 32
    ensures IsSingleKeyLeaf(PkScript(key)) && FitsCompactSize(PkScript(key))
    ensures LeafAccepts(PkScript(key), items, spend) <==> |items| == 1 && SignaturePasses(spend, key, items[0])
  {
    var script := PkScript(key);
    assert ScriptSize(script, 1) == ScriptSize(script, 0) + ChunkSize(script[0]) == 33;
    assert ScriptSize(script, 2) == ScriptSize(script, 1) + ChunkSize(script[1]) == 34;
  }

  lemma RecoveryLeafMeans(v: Vault, items: seq<Bytes>, spend: Spend)
    requires IsVaultLeaves(v.leaves, v.solo, v.delay, v.keys)
    requires 1 <= v.delay <= 65535 && 1 <= |v.keys| <= 7 && forall i | 0 <= i < |v.keys| :: |v.keys[i]| == 32
    ensures FitsCompactSize(v.leaves[2 * |v.solo|])
    ensures LeafAccepts(v.leaves[2 * |v.solo|], items, spend) <==> LeafSatisfied(v, 2 * |v.solo|, items, spend)
  {
    hide FitsCompactSize, CountValid, ScriptNum, SignaturePasses, DelayPasses, NumChunk;
    var script := v.leaves[2 * |v.solo|];
    ParsesBack(script, v.delay, v.keys, Threshold(v.keys));
    LeafFitsSevenKeys(script, v.delay, v.keys);
  }

  /** The verifier accepts a script-path spend of a vault exactly when it reveals
      one of the vault's leaves under that leaf's control block, with one valid
      signature of a solo leaf's key, or after the delay with exactly the
      threshold of valid recovery signatures. */
  lemma VaultSpendMeans(H: Hasher<Versioned>, tweak: Tweaker, v: Vault, control: Control, script: Script,
                        items: seq<Bytes>, spend: Spend)
    requires IsVault(H, tweak, v)
    ensures VerifierSpends(H, tweak, v.outputKey, control, script, items, spend)
            <==> exists i | 0 <= i < |v.leaves| ::
                   v.leaves[i] == script && control == ControlOf(H, v, i) && LeafSatisfied(v, i, items, spend)
  {
    hide Commits, ControlOf, LeafAccepts, LeafSatisfied;
    OnlyOwnLeavesCommit(H, tweak, v, control, script);
    forall i | 0 <= i < |v.leaves|
      ensures FitsCompactSize(v.leaves[i])
      ensures LeafAccepts(v.leaves[i], items, spend) <==> LeafSatisfied(v, i, items, spend)
      ensures ControlOf(H, v, i).version == LEAF_VERSION
    {
      LeafIs(H, tweak, v, i, items, spend);
    }
  }

  lemma LeafIs(H: Hasher<Versioned>, tweak: Tweaker, v: Vault, i: nat, items: seq<Bytes>, spend: Spend)
    requires IsVault(H, tweak, v) && i < |v.leaves|
    ensures FitsCompactSize(v.leaves[i]) && ControlOf(H, v, i).version == LEAF_VERSION
    ensures LeafAccepts(v.leaves[i], items, spend) <==> LeafSatisfied(v, i, items, spend)
  {
    hide FitsCompactSize, LeafAccepts, LeafSatisfied, Binding, CollisionFree, Pow2, ControlOf, IsRecoveryScript;
    ControlVersion(H, v, i);
    if i < 2 * |v.solo| {
      SoloLeafIs(v, i, items, spend);
    } else {
      RecoveryLeafMeans(v, items, spend);
    }
  }

  lemma ControlVersion(H: Hasher<Versioned>, v: Vault, i: nat)
    requires i < |v.leaves|
    ensures ControlOf(H, v, i).version == LEAF_VERSION
  {
  }

  lemma SoloLeafIs(v: Vault, i: nat, items: seq<Bytes>, spend: Spend)
    requires IsVaultLeaves(v.leaves, v.solo, v.delay, v.keys) && i < 2 * |v.solo|
    requires forall j | 0 <= j < |v.solo| :: |v.solo[j].policy| == 32 && |v.solo[j].identification| == 32
    ensures FitsCompactSize(v.leaves[i])
    ensures LeafAccepts(v.leaves[i], items, spend) <==> LeafSatisfied(v, i, items, spend)
  {
    hide FitsCompactSize, LeafAccepts, IsRecoveryScript, SignaturePasses;
    var j := i / 2;
    assert i == 2 * j || i == 2 * j + 1;
    PkLeafMeans(if i % 2 == 0 then v.solo[j].policy else v.solo[j].identification, items, spend);
  }

  /** On vault outputs the verifier agrees with consensus on every spend whose
      signatures have defined hash types, and accepts nothing consensus rejects
      among them. */
  lemma VaultSpendIffConsensus(H: Hasher<Versioned>, tweak: Tweaker, v: Vault, control: Control, script: Script,
                               items: seq<Bytes>, extra: nat, spend: Spend)
    requires IsVault(H, tweak, v) && spend.sequence < 0x1_0000_0000
    ensures ConsensusSpends(H, tweak, v.outputKey, control, script, items, extra, spend)
            <==> VerifierSpends(H, tweak, v.outputKey, control, script, items, spend) && TypesDefined(items, |items|)
  {
    hide Commits, ControlOf, LeafAccepts, ConsensusAccepts, TypesDefined, FitsCompactSize;
    OnlyOwnLeavesCommit(H, tweak, v, control, script);
    if Commits(H, tweak, v.outputKey, control, script) {
      var i :| 0 <= i < |v.leaves| && v.leaves[i] == script && control == ControlOf(H, v, i);
      LeafIs(H, tweak, v, i, items, spend);
      LeafIffConsensus(H, tweak, v, i, items, extra, spend);
      PathIsShort(H, tweak, v, i);
    }
  }

  lemma PathIsShort(H: Hasher<Versioned>, tweak: Tweaker, v: Vault, i: nat)
    requires IsVault(H, tweak, v) && i < |v.leaves|
    ensures |ControlOf(H, v, i).path| <= 128
  {
    hide Pow2;
    BuildKeepsLeaves(Tagged(v.leaves));
    BuildIsShallow(Tagged(v.leaves), 128);
    PathFoldsToRoot(H, Build(Tagged(v.leaves)), i);
  }

  lemma OneItemPerKey(script: seq<Chunk>, items: seq<Bytes>, spend: Spend)
    ensures RecoveryAccepts(script, items, spend) ==> |items| == KeyCount(script)
  {
  }

  lemma LeafIffConsensus(H: Hasher<Versioned>, tweak: Tweaker, v: Vault, i: nat, items: seq<Bytes>, extra: nat, spend: Spend)
    requires IsVault(H, tweak, v) && i < |v.leaves| && spend.sequence < 0x1_0000_0000
    ensures ConsensusAccepts(v.leaves[i], items, extra, spend)
            <==> LeafAccepts(v.leaves[i], items, spend) && TypesDefined(items, |items|)
  {
    hide FitsCompactSize, ConsensusAccepts, TypesDefined, RecoveryAccepts, NumChunk;
    var script := v.leaves[i];
    if i < 2 * |v.solo| {
      var j := i / 2;
      assert i == 2 * j || i == 2 * j + 1;
      PkLeafMeans(if i % 2 == 0 then v.solo[j].policy else v.solo[j].identification, items, spend);
      SingleKeyIffConsensus(script, items, extra, spend);
    } else {
      ParsesBack(script, v.delay, v.keys, Threshold(v.keys));
      OneItemPerKey(script, items, spend);
      RecoveryIffConsensus(script, items, extra, spend, v.delay, Threshold(v.keys));
    }
  }
}

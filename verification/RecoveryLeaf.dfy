/** The vault's pattern-matching verifier of its own leaves (src/consensus.ts)
    and its relation to the tapscript machine. */
module RecoveryLeaf {
  import opened Wrappers
  import opened Tapscript

  // ----- the verifier's reading of numbers and signatures -----

  /** decodeScriptNum: small-number opcodes, or a minimal number of 1 to 4 bytes. */
  function ScriptNum(chunk: Chunk): Option<int> {
    match chunk
    case Op(code) =>
      if OP_1 <= code <= OP_16 then Some(code - OP_1 + 1)
      else if code == OP_0 then Some(0)
      else None
    case Push(data) =>
      if 1 <= |data| <= 4 && Minimal(data) then Some(DecodeNum(data)) else None
  }

  /** parseSchnorrSignature followed by verification: any non-zero hash type byte goes. */
  predicate SignaturePasses(spend: Spend, key: Bytes, item: Bytes) {
    || (|item| == 64 && spend.valid(key, item, 0))
    || (|item| == 65 && item[64] != 0 && spend.valid(key, item[..64], item[64] as nat))
  }

  /** Valid signatures among the first k keys, key j's being item |items|-1-j;
      none when one of them fails. */
  function CountValid(spend: Spend, keys: seq<Bytes>, items: seq<Bytes>, k: nat): Option<nat>
    requires k <= |keys| && k <= |items|
  {
    if k == 0 then Some(0)
    else
      var before := CountValid(spend, keys, items, k - 1);
      var item := items[|items| - k];
      if before.None? || item == [] then before
      else if SignaturePasses(spend, keys[k - 1], item) then Some(before.value + 1)
      else None
  }

  // ----- the leaf -----

  predicate IsKey(chunk: Chunk) { chunk.Push? && |chunk.data| == 32 }

  function KeyOp(i: nat): Chunk { Op(if i == 0 then OP_CHECKSIG else OP_CHECKSIGADD) }

  function KeyCount(script: seq<Chunk>): nat { if |script| < 5 then 0 else (|script| - 5) / 2 }

  predicate HasKey(script: seq<Chunk>, i: nat) {
    4 + 2 * i < |script| && IsKey(script[3 + 2 * i]) && script[4 + 2 * i] == KeyOp(i)
  }

  /** <delay> CSV DROP (<key> CHECKSIG | CHECKSIGADD)* <threshold> NUMEQUAL */
  predicate IsLeaf(script: seq<Chunk>) {
    && |script| >= 5 && |script| % 2 == 1
    && script[1] == Op(OP_CHECKSEQUENCEVERIFY) && script[2] == Op(OP_DROP)
    && (forall i | 0 <= i < KeyCount(script) :: HasKey(script, i))
    && script[|script| - 1] == Op(OP_NUMEQUAL)
  }

  function KeysUpTo(script: seq<Chunk>, k: nat): seq<Bytes>
    requires forall i | 0 <= i < k :: HasKey(script, i)
  {
    seq(k, i requires 0 <= i < k => assert HasKey(script, i); script[3 + 2 * i].data)
  }

  function Keys(script: seq<Chunk>): seq<Bytes>
    requires IsLeaf(script)
  {
    KeysUpTo(script, KeyCount(script))
  }

  /** The BIP-68 checks the verifier makes for a decoded delay. */
  predicate DelayPasses(spend: Spend, delay: int) {
    && spend.version >= 2
    && spend.sequence < 0x80000000
    && spend.sequence / 0x400000 % 2 == 0
    && spend.sequence % 0x10000 >= delay
  }

  /** What the recovery verifier accepts. */
  predicate RecoveryAccepts(script: seq<Chunk>, items: seq<Bytes>, spend: Spend) {
    && IsLeaf(script)
    && (KeyCount(script) == 0 ==> script[3].Op?)
    && var delay, threshold := ScriptNum(script[0]), ScriptNum(script[|script| - 2]);
       && delay.Some? && DelayPasses(spend, delay.value)
       && threshold.Some?
       && |items| == KeyCount(script)
       && var count := CountValid(spend, Keys(script), items, |items|);
          count.Some? && count.value == threshold.value
  }

  predicate IsSingleKeyLeaf(script: seq<Chunk>) {
    |script| == 2 && IsKey(script[0]) && script[1] == Op(OP_CHECKSIG)
  }

  /** Which leaves verifyScriptPathSpend accepts once the commitment checks out. */
  predicate LeafAccepts(script: seq<Chunk>, items: seq<Bytes>, spend: Spend) {
    if IsSingleKeyLeaf(script) then
      |items| == 1 && SignaturePasses(spend, script[0].data, items[0])
    else RecoveryAccepts(script, items, spend)
  }

  /** Serialized size of a chunk: an opcode, or a push with its length prefix. */
  function ChunkSize(chunk: Chunk): nat {
    match chunk
    case Op(_) => 1
    case Push(data) => |data| + if |data| <= 75 then 1 else if |data| <= 255 then 2 else 3
  }

  function ScriptSize(script: seq<Chunk>, k: nat): nat
    requires k <= |script|
  {
    if k == 0 then 0 else ScriptSize(script, k - 1) + ChunkSize(script[k - 1])
  }

  /** The verifier refuses a leaf script that needs more than a one-byte length. */
  predicate FitsCompactSize(script: seq<Chunk>) { ScriptSize(script, |script|) <= 0xfc }

  // ----- the verifier as written -----

  lemma LeafStartsWithKey(script: seq<Chunk>)
    ensures IsLeaf(script) && KeyCount(script) > 0 ==> |script| > 3 && IsKey(script[3])
  {
    if IsLeaf(script) && KeyCount(script) > 0 {
      assert HasKey(script, 0);
    }
  }

  /** An accepted leaf has its key opcode after every key the loop can meet. */
  lemma NoKeyBeyond(script: seq<Chunk>, items: seq<Bytes>, spend: Spend, k: nat)
    requires 3 + 2 * k < |script| && IsKey(script[3 + 2 * k])
    requires forall i | 0 <= i < k :: HasKey(script, i)
    ensures RecoveryAccepts(script, items, spend) ==> HasKey(script, k)
  {
    if RecoveryAccepts(script, items, spend) {
      assert k < KeyCount(script) ==> HasKey(script, k);
      assert k > KeyCount(script) ==> HasKey(script, KeyCount(script));
    }
  }

  /** The validCount loop; `None` is its consensus failure. */
  method CountSignatures(keys: seq<Bytes>, items: seq<Bytes>, spend: Spend) returns (count: Option<nat>)
    requires |items| == |keys|
    ensures count == CountValid(spend, keys, items, |keys|)
  {
    var validCount := 0;
    for j := 0 to |keys|
      invariant CountValid(spend, keys, items, j) == Some(validCount)
    {
      var item := items[|keys| - 1 - j];
      if item != [] {
        if !SignaturePasses(spend, keys[j], item) {
          CountStops(spend, keys, items, j + 1, |keys|);
          return None;
        }
        validCount := validCount + 1;
      }
    }
    count := Some(validCount);
  }

  method ExecuteRecoveryLeaf(script: seq<Chunk>, items: seq<Bytes>, spend: Spend) returns (accepted: bool)
    ensures accepted <==> RecoveryAccepts(script, items, spend)
  {
    hide ScriptNum, CountValid;
    var cursor := 0;
    if |script| == 0 {
      return false;
    }
    var delay := ScriptNum(script[cursor]);
    if delay.None? {
      return false;
    }
    cursor := cursor + 1;
    if cursor >= |script| || script[cursor] != Op(OP_CHECKSEQUENCEVERIFY) {
      return false;
    }
    cursor := cursor + 1;
    if cursor >= |script| || script[cursor] != Op(OP_DROP) {
      return false;
    }
    cursor := cursor + 1;
    if spend.version < 2 || spend.sequence >= 0x80000000 || spend.sequence / 0x400000 % 2 == 1
       || spend.sequence % 0x10000 < delay.value {
      return false;
    }
    var keys: seq<Bytes> := [];
    while cursor < |script| && script[cursor].Push?
      invariant cursor == 3 + 2 * |keys| && cursor <= |script| + 1
      invariant forall i | 0 <= i < |keys| :: HasKey(script, i)
      invariant keys == KeysUpTo(script, |keys|)
      decreases |script| - cursor
    {
      var key := script[cursor].data;
      if |key| != 32 {
        if |keys| > 0 {
          break;
        }
        LeafStartsWithKey(script);
        return false;
      }
      if cursor + 1 >= |script| || script[cursor + 1] != KeyOp(|keys|) {
        NoKeyBeyond(script, items, spend, |keys|);
        return false;
      }
      assert HasKey(script, |keys|);
      keys := keys + [key];
      cursor := cursor + 2;
    }
    ghost var k := |keys|;
    if IsLeaf(script) && ScriptNum(script[|script| - 2]).Some? {
      LoopStopsAtThreshold(script, k);
    }
    if cursor >= |script| {
      return false;
    }
    var threshold := ScriptNum(script[cursor]);
    if threshold.None? {
      return false;
    }
    cursor := cursor + 1;
    if cursor >= |script| || script[cursor] != Op(OP_NUMEQUAL) || cursor + 1 != |script| {
      return false;
    }
    assert IsLeaf(script) && KeyCount(script) == |keys|;
    if |items| != |keys| {
      return false;
    }
    var validCount := CountSignatures(keys, items, spend);
    accepted := validCount == Some(threshold.value);
  }

  lemma LoopStopsAtThreshold(script: seq<Chunk>, k: nat)
    requires IsLeaf(script) && ScriptNum(script[|script| - 2]).Some?
    requires forall i | 0 <= i < k :: HasKey(script, i)
    requires 3 + 2 * k < |script| ==> !IsKey(script[3 + 2 * k])
    ensures k == KeyCount(script)
  {
    assert k < KeyCount(script) ==> HasKey(script, k);
    assert k > KeyCount(script) ==> HasKey(script, KeyCount(script));
  }

  lemma {:induction false} CountStops(spend: Spend, keys: seq<Bytes>, items: seq<Bytes>, j: nat, k: nat)
    requires j <= k <= |keys| == |items| && CountValid(spend, keys, items, j).None?
    ensures CountValid(spend, keys, items, k).None?
  {
    if j < k {
      CountStops(spend, keys, items, j, k - 1);
    }
  }
}

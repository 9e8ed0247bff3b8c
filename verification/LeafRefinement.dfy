/** The pattern-matching verifier against the tapscript machine: where the two
    agree, and exactly where they do not. */
module LeafRefinement {
  import opened Wrappers
  import opened Tapscript
  import opened RecoveryLeaf

  /** Every signature of the last k items carries a hash type BIP-341 defines. */
  predicate TypesDefined(items: seq<Bytes>, k: nat)
    requires k <= |items|
  {
    forall i | |items| - k <= i < |items| :: |items[i]| == 65 ==> DefinedHashType(items[i][64] as nat)
  }

  function NonEmpty(items: seq<Bytes>, k: nat): nat
    requires k <= |items|
  {
    if k == 0 then 0 else NonEmpty(items, k - 1) + if items[|items| - k] == [] then 0 else 1
  }

  function Budget(items: seq<Bytes>, extra: nat): int { 50 + ItemsSize(items) + extra }

  // ----- numbers and locks -----

  /** The item a number chunk leaves on the stack. */
  function NumberItem(chunk: Chunk): Bytes {
    match chunk
    case Push(data) => data
    case Op(code) => if OP_1 <= code <= OP_16 then [(code - OP_1 + 1) as byte] else if code == OP_0 then [] else [0x81]
  }

  lemma OneByte(x: byte)
    ensures DecodeNum([x]) == if x < 128 then x as int else 128 - x as int
  {
    var y := if x < 128 then x else x - 128;
    assert [x][0 := y] == [y] && [y][1..] == [];
    assert LittleEndian([y]) == y as nat + 256 * LittleEndian([]);
  }

  lemma ScriptNumItem(spend: Spend, chunk: Chunk, st: State)
    requires ScriptNum(chunk).Some? && st.Running?
    ensures Execute(spend, chunk, st) == PushItem(st, NumberItem(chunk))
    ensures |NumberItem(chunk)| <= 4 && DecodeNum(NumberItem(chunk)) == ScriptNum(chunk).value
    ensures !OpSuccess(chunk)
  {
    if chunk.Op? && chunk.code != OP_0 {
      OneByte((chunk.code - OP_1 + 1) as byte);
    }
  }

  lemma NumChunkItem(spend: Spend, v: int, st: State)
    requires st.Running?
    ensures var next := Execute(spend, NumChunk(v), st);
            next.Running? ==> next == PushItem(st, NumberItem(NumChunk(v)))
    ensures DecodeNum(NumberItem(NumChunk(v))) == v
    ensures 0 <= v < 0x10000 ==> ScriptNum(NumChunk(v)) == Some(v)
    ensures !OpSuccess(NumChunk(v))
  {
    NumRoundTrip(v);
    OneByte(0x81);
    if 1 <= v <= 16 {
      OneByte(v as byte);
    }
    if 0 <= v < 0x10000 {
      ShortNum(v);
    }
  }

  /** BIP-68 masking is invisible below 2^16. */
  lemma LockAgrees(spend: Spend, item: Bytes)
    requires spend.sequence < 0x1_0000_0000
    requires |item| <= 4 && DecodeNum(item) < 0x10000
    ensures SequencePasses(spend, item) <==> DecodeNum(item) >= 0 && DelayPasses(spend, DecodeNum(item))
  {
  }

  // ----- the prefix <delay> CSV DROP -----

  lemma PrefixRuns(spend: Spend, script: seq<Chunk>, items: seq<Bytes>, budget: int, item: Bytes)
    requires IsLeaf(script)
    requires Execute(spend, script[0], Running(items, budget)) == Running(items + [item], budget)
    ensures Run(spend, script, 3, Running(items, budget))
            == if |items| < MAX_STACK && SequencePasses(spend, item) then Running(items, budget) else Failed
  {
    var st := Running(items, budget);
    assert Run(spend, script, 1, st) == Step(spend, script[0], st);
    assert Run(spend, script, 2, st) == Step(spend, script[1], Run(spend, script, 1, st));
    assert Run(spend, script, 3, st) == Step(spend, script[2], Run(spend, script, 2, st));
    assert (items + [item])[..|items|] == items;
  }

  // ----- one key -----

  /** The stack after k keys: the unread items under the running count. */
  function KeyState(items: seq<Bytes>, budget: int, k: nat, count: nat): State
    requires 1 <= k <= |items|
  {
    Running(items[..|items| - k] + [EncodeNum(count)], budget - 50 * NonEmpty(items, k))
  }

  lemma CountItems()
    ensures EncodeNum(0) == [] && EncodeNum(1) == [1]
  {
    assert Magnitude(1) == [1] + Magnitude(0);
  }

  lemma CountBound(spend: Spend, keys: seq<Bytes>, items: seq<Bytes>, k: nat)
    requires k <= |keys| && k <= |items|
    ensures CountValid(spend, keys, items, k).Some? ==> CountValid(spend, keys, items, k).value <= k
  {
  }

  /** From items, <key> CHECKSIG. */
  lemma FirstKey(spend: Spend, key: Bytes, items: seq<Bytes>, budget: int)
    requires |key| == 32 && |items| < MAX_STACK
    ensures var next := Step(spend, Op(OP_CHECKSIG), Step(spend, Push(key), Running(items, budget)));
            next == if items == [] then Failed
                    else
                      var item := items[|items| - 1];
                      if item == [] then Running(items[..|items| - 1] + [[]], budget)
                      else if budget >= 50 && ValidSignature(spend, key, item)
                      then Running(items[..|items| - 1] + [[1]], budget - 50)
                      else Failed
  {
    var s := items + [key];
    assert Step(spend, Push(key), Running(items, budget)) == Running(s, budget);
    if items != [] {
      assert s[|s| - 2] == items[|items| - 1] && s[..|s| - 2] == items[..|items| - 1];
    }
  }

  /** From rest ++ [count], <key> CHECKSIGADD. */
  lemma LaterKey(spend: Spend, key: Bytes, rest: seq<Bytes>, count: nat, budget: int)
    requires |key| == 32 && |rest| + 2 <= MAX_STACK
    ensures var next := Step(spend, Op(OP_CHECKSIGADD), Step(spend, Push(key), Running(rest + [EncodeNum(count)], budget)));
            next == if rest == [] || |EncodeNum(count)| > 4 then Failed
                    else
                      var item := rest[|rest| - 1];
                      if item == [] then Running(rest[..|rest| - 1] + [EncodeNum(count)], budget)
                      else if budget >= 50 && ValidSignature(spend, key, item)
                      then Running(rest[..|rest| - 1] + [EncodeNum(count + 1)], budget - 50)
                      else Failed
  {
    NumRoundTrip(count);
    var s := rest + [EncodeNum(count)] + [key];
    assert Step(spend, Push(key), Running(rest + [EncodeNum(count)], budget)) == Running(s, budget);
    assert s[|s| - 1] == key && s[|s| - 2] == EncodeNum(count);
    if rest != [] {
      assert s[|s| - 3] == rest[|rest| - 1] && s[..|s| - 3] == rest[..|rest| - 1];
    }
  }

  lemma TwoSteps(spend: Spend, script: seq<Chunk>, k: nat, st: State)
    requires IsLeaf(script) && k < KeyCount(script)
    ensures var key := Keys(script)[k];
            && |key| == 32
            && Run(spend, script, 5 + 2 * k, st)
               == Step(spend, KeyOp(k), Step(spend, Push(key), Run(spend, script, 3 + 2 * k, st)))
  {
    assert HasKey(script, k);
    var mid := 4 + 2 * k;
    assert Run(spend, script, mid, st) == Step(spend, script[mid - 1], Run(spend, script, mid - 1, st));
    assert Run(spend, script, mid + 1, st) == Step(spend, script[mid], Run(spend, script, mid, st));
  }

  /** What the machine needs to get past the first k keys: enough items, every
      non-empty one valid with a defined hash type, and budget for each. */
  predicate KeysPass(spend: Spend, keys: seq<Bytes>, items: seq<Bytes>, budget: int, k: nat)
    requires k <= |keys|
  {
    && k <= |items|
    && CountValid(spend, keys, items, k).Some?
    && TypesDefined(items, k)
    && budget >= 50 * NonEmpty(items, k)
  }

  lemma ItemStep(spend: Spend, keys: seq<Bytes>, items: seq<Bytes>, budget: int, k: nat)
    requires k < |keys| && k < |items|
    ensures var item := items[|items| - 1 - k];
            KeysPass(spend, keys, items, budget, k + 1)
            <==> KeysPass(spend, keys, items, budget, k)
                 && (item == [] || (budget - 50 * NonEmpty(items, k) >= 50 && ValidSignature(spend, keys[k], item)))
    ensures KeysPass(spend, keys, items, budget, k + 1) ==>
              CountValid(spend, keys, items, k + 1).value
              == CountValid(spend, keys, items, k).value + if items[|items| - 1 - k] == [] then 0 else 1
  {
    assert TypesDefined(items, k + 1) <==>
             TypesDefined(items, k)
             && (|items[|items| - 1 - k]| == 65 ==> DefinedHashType(items[|items| - 1 - k][64] as nat));
  }

  /** The machine after k >= 1 keys. */
  function AfterKeys(spend: Spend, keys: seq<Bytes>, items: seq<Bytes>, budget: int, k: nat): State
    requires 1 <= k <= |keys|
  {
    if KeysPass(spend, keys, items, budget, k)
    then KeyState(items, budget, k, CountValid(spend, keys, items, k).value)
    else Failed
  }

  lemma AfterFirst(spend: Spend, keys: seq<Bytes>, items: seq<Bytes>, budget: int)
    requires 1 <= |keys| && |keys[0]| == 32 && |items| < MAX_STACK && budget >= 0
    ensures Step(spend, Op(OP_CHECKSIG), Step(spend, Push(keys[0]), Running(items, budget)))
            == AfterKeys(spend, keys, items, budget, 1)
  {
    FirstKey(spend, keys[0], items, budget);
    CountItems();
    if items != [] {
      ItemStep(spend, keys, items, budget, 0);
      assert NonEmpty(items, 1) == NonEmpty(items, 0) + if items[|items| - 1] == [] then 0 else 1;
    }
  }

  lemma PassNeedsItems(spend: Spend, keys: seq<Bytes>, items: seq<Bytes>, budget: int, k: nat)
    requires k <= |keys|
    ensures KeysPass(spend, keys, items, budget, k) ==>
              k <= |items| && CountValid(spend, keys, items, k).Some? && budget >= 50 * NonEmpty(items, k)
  {
  }

  lemma NonEmptyStep(items: seq<Bytes>, k: nat)
    requires k < |items|
    ensures NonEmpty(items, k + 1) == NonEmpty(items, k) + if items[|items| - 1 - k] == [] then 0 else 1
  {
  }

  lemma AfterIs(spend: Spend, keys: seq<Bytes>, items: seq<Bytes>, budget: int, k: nat, count: nat, rest: seq<Bytes>, left: int)
    requires 1 <= k <= |keys| && k <= |items| && rest == items[..|items| - k] && left == budget - 50 * NonEmpty(items, k)
    ensures KeysPass(spend, keys, items, budget, k) && CountValid(spend, keys, items, k) == Some(count) ==>
              AfterKeys(spend, keys, items, budget, k) == Running(rest + [EncodeNum(count)], left)
    ensures !KeysPass(spend, keys, items, budget, k) ==> AfterKeys(spend, keys, items, budget, k) == Failed
  {
  }

  /** The next key, with an item left for it. */
  lemma AfterLaterItem(spend: Spend, keys: seq<Bytes>, items: seq<Bytes>, budget: int, j: nat, count: nat)
    requires 1 <= j < |keys| && j < |items| < MAX_STACK && |keys[j]| == 32 && |EncodeNum(count)| <= 4
    requires KeysPass(spend, keys, items, budget, j) && CountValid(spend, keys, items, j) == Some(count)
    ensures Step(spend, Op(OP_CHECKSIGADD), Step(spend, Push(keys[j]), AfterKeys(spend, keys, items, budget, j)))
            == AfterKeys(spend, keys, items, budget, j + 1)
  {
    hide Execute, EncodeNum, ValidSignature, SignaturePasses, Step, KeysPass, CountValid, NonEmpty, TypesDefined, AfterKeys;
    var item := items[|items| - 1 - j];
    var rest, shorter := items[..|items| - j], items[..|items| - (j + 1)];
    var left := budget - 50 * NonEmpty(items, j);
    assert rest[|rest| - 1] == item && rest[..|rest| - 1] == shorter && rest != [];
    LaterKey(spend, keys[j], rest, count, left);
    ItemStep(spend, keys, items, budget, j);
    NonEmptyStep(items, j);
    PassNeedsItems(spend, keys, items, budget, j + 1);
    AfterIs(spend, keys, items, budget, j, count, rest, left);
    AfterIs(spend, keys, items, budget, j + 1, if item == [] then count else count + 1, shorter, if item == [] then left else left - 50);
  }

  lemma AfterLater(spend: Spend, keys: seq<Bytes>, items: seq<Bytes>, budget: int, j: nat)
    requires 1 <= j < |keys| && |keys[j]| == 32 && |items| < MAX_STACK
    requires KeysPass(spend, keys, items, budget, j)
    ensures Step(spend, Op(OP_CHECKSIGADD), Step(spend, Push(keys[j]), AfterKeys(spend, keys, items, budget, j)))
            == AfterKeys(spend, keys, items, budget, j + 1)
  {
    PassNeedsItems(spend, keys, items, budget, j);
    PassNeedsItems(spend, keys, items, budget, j + 1);
    hide Execute, EncodeNum, Step, KeysPass, CountValid, NonEmpty;
    var count := CountValid(spend, keys, items, j).value;
    CountBound(spend, keys, items, j);
    ShortNum(count);
    if j < |items| {
      AfterLaterItem(spend, keys, items, budget, j, count);
    } else {
      assert items[..|items| - j] == [];
      LaterKey(spend, keys[j], [], count, budget - 50 * NonEmpty(items, j));
    }
  }

  lemma FailStays(spend: Spend, keys: seq<Bytes>, items: seq<Bytes>, budget: int, j: nat)
    requires 1 <= j < |keys| && !KeysPass(spend, keys, items, budget, j)
    ensures AfterKeys(spend, keys, items, budget, j + 1) == Failed
  {
    if j < |items| {
      ItemStep(spend, keys, items, budget, j);
    }
  }

  lemma {:induction false} KeysRun(spend: Spend, script: seq<Chunk>, items: seq<Bytes>, budget: int, k: nat, st: State)
    requires IsLeaf(script) && 1 <= k <= KeyCount(script) && |items| < MAX_STACK && budget >= 0
    requires Run(spend, script, 3, st) == Running(items, budget)
    ensures Run(spend, script, 3 + 2 * k, st) == AfterKeys(spend, Keys(script), items, budget, k)
  {
    hide Execute;
    var keys := Keys(script);
    TwoSteps(spend, script, k - 1, st);
    if k == 1 {
      AfterFirst(spend, keys, items, budget);
    } else {
      KeysRun(spend, script, items, budget, k - 1, st);
      if KeysPass(spend, keys, items, budget, k - 1) {
        AfterLater(spend, keys, items, budget, k - 1);
      } else {
        FailStays(spend, keys, items, budget, k - 1);
      }
    }
  }

  // ----- the whole leaf -----

  lemma NoSuccessOpcode(script: seq<Chunk>)
    requires IsLeaf(script) && !OpSuccess(script[0]) && !OpSuccess(script[|script| - 2])
    ensures !exists i | 0 <= i < |script| :: OpSuccess(script[i])
  {
    forall i | 0 <= i < |script| ensures !OpSuccess(script[i]) {
      if 3 <= i < |script| - 2 {
        assert HasKey(script, (i - 3) / 2);
      }
    }
  }

  /** What the machine accepts once the delay has pushed `delay` and the
      threshold will push `threshold`. */
  predicate LeafPasses(script: seq<Chunk>, items: seq<Bytes>, budget: int, spend: Spend, delay: Bytes, threshold: Bytes)
    requires IsLeaf(script)
  {
    var n := KeyCount(script);
    && n >= 1 && |items| == n < MAX_STACK
    && SequencePasses(spend, delay)
    && KeysPass(spend, Keys(script), items, budget, n)
    && |threshold| <= 4
    && DecodeNum(threshold) == CountValid(spend, Keys(script), items, n).value
  }

  lemma Final(spend: Spend, rest: seq<Bytes>, count: nat, threshold: Bytes, budget: int)
    requires |rest| + 2 <= MAX_STACK && count < 0x10000
    ensures var next := Step(spend, Op(OP_NUMEQUAL), Running(rest + [EncodeNum(count)] + [threshold], budget));
            next == if |threshold| > 4 then Failed else Running(rest + [BoolItem(count == DecodeNum(threshold))], budget)
  {
    var s := rest + [EncodeNum(count)] + [threshold];
    NumRoundTrip(count);
    ShortNum(count);
    assert s[|s| - 1] == threshold && s[|s| - 2] == EncodeNum(count) && s[..|s| - 2] == rest;
  }

  lemma LastTwo(spend: Spend, script: seq<Chunk>, st: State)
    requires IsLeaf(script)
    ensures Run(spend, script, |script|, st)
            == Step(spend, Op(OP_NUMEQUAL), Step(spend, script[|script| - 2], Run(spend, script, 3 + 2 * KeyCount(script), st)))
  {
    hide Execute, Step, HasKey;
    var k := |script| - 1;
    assert Run(spend, script, k, st) == Step(spend, script[k - 1], Run(spend, script, k - 1, st));
  }

  predicate Succeeds(final: State) { final.Running? && |final.stack| == 1 && Truthy(final.stack[0]) }

  /** `chunk` pushes `item`, unless `item` is too long to be a number anyway. */
  predicate PushesNumber(spend: Spend, chunk: Chunk, item: Bytes, st: State) {
    st.Running? ==>
      || Execute(spend, chunk, st) == PushItem(st, item)
      || (Execute(spend, chunk, st).Failed? && |item| > 4)
  }

  lemma BoolTruthy(b: bool)
    ensures Truthy(BoolItem(b)) <==> b
  {
    if b {
      assert BoolItem(b)[0] == 1;
    }
  }

  /** The tail <threshold> NUMEQUAL after n keys. */
  lemma Tail(spend: Spend, chunk: Chunk, keys: seq<Bytes>, items: seq<Bytes>, budget: int, threshold: Bytes)
    requires |keys| >= 1 && |items| < MAX_STACK
    requires PushesNumber(spend, chunk, threshold, AfterKeys(spend, keys, items, budget, |keys|))
    ensures Succeeds(Step(spend, Op(OP_NUMEQUAL), Step(spend, chunk, AfterKeys(spend, keys, items, budget, |keys|))))
            <==> && |items| == |keys| && |threshold| <= 4 && KeysPass(spend, keys, items, budget, |keys|)
                 && DecodeNum(threshold) == CountValid(spend, keys, items, |keys|).value
  {
    var n := |keys|;
    if KeysPass(spend, keys, items, budget, n) {
      hide Execute;
      var count := CountValid(spend, keys, items, n).value;
      CountBound(spend, keys, items, n);
      var rest := items[..|items| - n];
      Final(spend, rest, count, threshold, budget - 50 * NonEmpty(items, n));
      BoolTruthy(count == DecodeNum(threshold));
    }
  }

  /** The machine on a leaf with at least one key, whatever the witness. */
  lemma MachineOnLeaf(script: seq<Chunk>, items: seq<Bytes>, budget: int, spend: Spend, delay: Bytes,
                      last: Chunk, threshold: Bytes)
    requires IsLeaf(script) && KeyCount(script) >= 1 && budget >= 0 && last == script[|script| - 2]
    requires Execute(spend, script[0], Running(items, budget)) == Running(items + [delay], budget)
    requires forall st :: PushesNumber(spend, last, threshold, st)
    ensures Succeeds(Run(spend, script, |script|, Running(items, budget)))
            <==> LeafPasses(script, items, budget, spend, delay, threshold)
  {
    hide Execute;
    var st := Running(items, budget);
    PrefixRuns(spend, script, items, budget, delay);
    LastTwo(spend, script, st);
    var n := KeyCount(script);
    if |items| < MAX_STACK && SequencePasses(spend, delay) {
      KeysRun(spend, script, items, budget, n, st);
      Tail(spend, last, Keys(script), items, budget, threshold);
    } else {
      FailedRun(spend, script, 3, 3 + 2 * n, st);
    }
  }

  lemma {:induction false} FailedRun(spend: Spend, script: seq<Chunk>, j: nat, k: nat, st: State)
    requires j <= k <= |script| && Run(spend, script, j, st).Failed?
    ensures Run(spend, script, k, st).Failed?
  {
    if j < k {
      FailedRun(spend, script, j, k - 1, st);
    }
  }

  // ----- sizes -----

  lemma {:induction false} ItemsSizeSplit(items: seq<Bytes>, i: nat)
    requires i < |items|
    ensures ItemsSize(items[i..]) == |items[i]| + 1 + ItemsSize(items[i + 1..])
    ensures ItemsSize(items) >= ItemsSize(items[i..])
  {
    assert items[i..][1..] == items[i + 1..];
    if i > 0 {
      ItemsSizeSplit(items[1..], i - 1);
      assert items[1..][i - 1..] == items[i..];
    }
  }

  /** A non-empty signature pays for its own check. */
  lemma {:induction false} SignaturesPay(spend: Spend, keys: seq<Bytes>, items: seq<Bytes>, k: nat)
    requires k <= |keys| && k <= |items| && CountValid(spend, keys, items, k).Some?
    ensures 50 * NonEmpty(items, k) <= ItemsSize(items[|items| - k..])
  {
    if k > 0 {
      SignaturesPay(spend, keys, items, k - 1);
      ItemsSizeSplit(items, |items| - k);
    }
  }

  lemma BudgetSuffices(spend: Spend, keys: seq<Bytes>, items: seq<Bytes>, extra: nat)
    requires |keys| == |items| && CountValid(spend, keys, items, |items|).Some?
    ensures KeysPass(spend, keys, items, Budget(items, extra), |items|) <==> TypesDefined(items, |items|)
  {
    SignaturesPay(spend, keys, items, |items|);
    assert items[0..] == items;
  }

  // ----- the verifier against the machine -----

  lemma ItemsAreShort(spend: Spend, keys: seq<Bytes>, items: seq<Bytes>, k: nat)
    requires k <= |keys| && k <= |items| && CountValid(spend, keys, items, k).Some?
    ensures forall i | |items| - k <= i < |items| :: |items[i]| <= 65
  {
  }

  lemma NumberPushed(spend: Spend, chunk: Chunk)
    requires ScriptNum(chunk).Some?
    ensures forall st :: PushesNumber(spend, chunk, NumberItem(chunk), st)
  {
    forall st: State ensures PushesNumber(spend, chunk, NumberItem(chunk), st) {
      if st.Running? {
        ScriptNumItem(spend, chunk, st);
      }
    }
  }

  lemma NoKeysFails(script: seq<Chunk>, items: seq<Bytes>, budget: int, spend: Spend)
    requires IsLeaf(script) && KeyCount(script) == 0 && items == []
    requires ScriptNum(script[0]).Some? && ScriptNum(script[3]).Some?
    ensures Run(spend, script, |script|, Running(items, budget)).Failed?
  {
    var st := Running(items, budget);
    ScriptNumItem(spend, script[0], st);
    PrefixRuns(spend, script, items, budget, NumberItem(script[0]));
    LastTwo(spend, script, st);
    ScriptNumItem(spend, script[3], st);
  }

  /** Whatever the verifier accepts the machine accepts too, with exactly three
      exceptions: a negative delay, a leaf without keys, and a signature whose
      hash type BIP-341 does not define. */
  lemma RecoveryAcceptedByConsensus(script: seq<Chunk>, items: seq<Bytes>, extra: nat, spend: Spend)
    requires spend.sequence < 0x1_0000_0000
    requires RecoveryAccepts(script, items, spend)
    ensures ConsensusAccepts(script, items, extra, spend)
            <==> && ScriptNum(script[0]).value >= 0
                 && 1 <= KeyCount(script) < MAX_STACK
                 && TypesDefined(items, |items|)
  {
    hide Execute;
    var delay, last := NumberItem(script[0]), script[|script| - 2];
    var budget := Budget(items, extra);
    ScriptNumItem(spend, script[0], Running(items, budget));
    ScriptNumItem(spend, last, Running(items, budget));
    NoSuccessOpcode(script);
    ItemsAreShort(spend, Keys(script), items, |items|);
    if KeyCount(script) == 0 {
      NoKeysFails(script, items, budget, spend);
    } else {
      NumberPushed(spend, last);
      MachineOnLeaf(script, items, budget, spend, delay, last, NumberItem(last));
      BudgetSuffices(spend, Keys(script), items, extra);
      LockAgrees(spend, delay);
    }
  }

  /** On the leaves the vault builds - a delay of 0 to 65535 blocks, at least one
      key, any threshold - the verifier accepts a witness, sequence and version
      exactly when the machine does and every hash type is defined. */
  lemma RecoveryIffConsensus(script: seq<Chunk>, items: seq<Bytes>, extra: nat, spend: Spend, delay: nat, threshold: int)
    requires spend.sequence < 0x1_0000_0000
    requires IsLeaf(script) && KeyCount(script) >= 1 && delay < 0x10000
    requires script[0] == NumChunk(delay) && script[|script| - 2] == NumChunk(threshold)
    ensures ConsensusAccepts(script, items, extra, spend)
            <==> RecoveryAccepts(script, items, spend) && TypesDefined(items, |items|) && |items| < MAX_STACK
  {
    hide Execute;
    var budget := Budget(items, extra);
    var item, last := NumberItem(NumChunk(threshold)), NumChunk(threshold);
    NumChunkItem(spend, delay, Running(items, budget));
    NumChunkItem(spend, threshold, Running(items, budget));
    if RecoveryAccepts(script, items, spend) {
      RecoveryAcceptedByConsensus(script, items, extra, spend);
    } else if ConsensusAccepts(script, items, extra, spend) {
      NoSuccessOpcode(script);
      ScriptNumItem(spend, script[0], Running(items, budget));
      forall st: State ensures PushesNumber(spend, last, item, st) {
        if st.Running? {
          PushesAnyNumber(spend, threshold, st);
        }
      }
      MachineOnLeaf(script, items, budget, spend, NumberItem(script[0]), last, item);
      LockAgrees(spend, NumberItem(script[0]));
      CountBound(spend, Keys(script), items, |items|);
    }
  }

  lemma PushesAnyNumber(spend: Spend, v: int, st: State)
    ensures PushesNumber(spend, NumChunk(v), NumberItem(NumChunk(v)), st)
  {
  }

  // ----- the single-key leaf -----

  lemma PastLimit(spend: Spend, chunk: Chunk, items: seq<Bytes>, budget: int)
    requires chunk.Push?
    ensures |items| >= MAX_STACK ==> Step(spend, Op(OP_CHECKSIG), Step(spend, chunk, Running(items, budget))) == Failed
  {
  }

  /** On <key> CHECKSIG the verifier and the machine agree on every witness whose
      signature has a defined hash type; the machine refuses the others. */
  lemma SingleKeyIffConsensus(script: seq<Chunk>, items: seq<Bytes>, extra: nat, spend: Spend)
    requires IsSingleKeyLeaf(script)
    ensures ConsensusAccepts(script, items, extra, spend)
            <==> LeafAccepts(script, items, spend) && TypesDefined(items, |items|)
  {
    var st := Running(items, Budget(items, extra));
    assert Run(spend, script, 1, st) == Step(spend, script[0], st);
    assert Run(spend, script, 2, st) == Step(spend, script[1], Run(spend, script, 1, st));
    PastLimit(spend, script[0], items, Budget(items, extra));
    hide Execute, Step, Run;
    if |items| < MAX_STACK {
      FirstKey(spend, script[0].data, items, Budget(items, extra));
      BoolTruthy(true);
      BoolTruthy(false);
      if |items| == 1 {
        ItemsSizeSplit(items, 0);
        assert items[0..] == items && items[..0] == [];
      }
    }
  }

  // ----- the three exceptions are real -----

  function Zeros(n: nat): Bytes { seq(n, i => 0) }

  function Forgiving(): Spend { Spend(2, 1, (key, sig, hashType) => true) }

  /** One key, a 1-of-1 threshold, and the given delay chunk. */
  function OneKeyLeaf(delay: Chunk): seq<Chunk> {
    [delay, Op(OP_CHECKSEQUENCEVERIFY), Op(OP_DROP), Push(Zeros(32)), Op(OP_CHECKSIG), Op(OP_1), Op(OP_NUMEQUAL)]
  }

  lemma OneKeyLeafAccepted(delay: Chunk, item: Bytes)
    requires ScriptNum(delay).Some? && ScriptNum(delay).value <= 1
    requires |item| == 64 || (|item| == 65 && item[64] != 0)
    ensures FitsCompactSize(OneKeyLeaf(delay)) && RecoveryAccepts(OneKeyLeaf(delay), [item], Forgiving())
    ensures KeyCount(OneKeyLeaf(delay)) == 1
  {
    var script := OneKeyLeaf(delay);
    assert HasKey(script, 0);
    assert ScriptSize(script, 1) == ScriptSize(script, 0) + ChunkSize(delay);
    assert ScriptSize(script, 2) == ScriptSize(script, 1) + 1 && ScriptSize(script, 3) == ScriptSize(script, 2) + 1;
    assert ScriptSize(script, 4) == ScriptSize(script, 3) + 33 && ScriptSize(script, 5) == ScriptSize(script, 4) + 1;
    assert ScriptSize(script, 6) == ScriptSize(script, 5) + 1 && ScriptSize(script, 7) == ScriptSize(script, 6) + 1;
    assert CountValid(Forgiving(), Keys(script), [item], 0) == Some(0);
  }

  lemma NegativeDelayDiverges()
    ensures var script := OneKeyLeaf(Push([0x82]));
            && RecoveryAccepts(script, [Zeros(64)], Forgiving())
            && forall extra :: !ConsensusAccepts(script, [Zeros(64)], extra, Forgiving())
  {
    OneByte(0x82);
    OneKeyLeafAccepted(Push([0x82]), Zeros(64));
    forall extra: nat ensures !ConsensusAccepts(OneKeyLeaf(Push([0x82])), [Zeros(64)], extra, Forgiving()) {
      RecoveryAcceptedByConsensus(OneKeyLeaf(Push([0x82])), [Zeros(64)], extra, Forgiving());
    }
  }

  lemma UndefinedHashTypeDiverges()
    ensures var script, item := OneKeyLeaf(Op(OP_1)), Zeros(64) + [4];
            && RecoveryAccepts(script, [item], Forgiving())
            && forall extra :: !ConsensusAccepts(script, [item], extra, Forgiving())
  {
    var script, item := OneKeyLeaf(Op(OP_1)), Zeros(64) + [4];
    OneKeyLeafAccepted(Op(OP_1), item);
    assert [item][0] == item && item[64] == 4;
    forall extra: nat ensures !ConsensusAccepts(script, [item], extra, Forgiving()) {
      RecoveryAcceptedByConsensus(script, [item], extra, Forgiving());
    }
  }

  lemma NoKeysDiverges()
    ensures var script := [Op(OP_1), Op(OP_CHECKSEQUENCEVERIFY), Op(OP_DROP), Op(OP_0), Op(OP_NUMEQUAL)];
            && RecoveryAccepts(script, [], Forgiving())
            && forall extra :: !ConsensusAccepts(script, [], extra, Forgiving())
  {
    var script := [Op(OP_1), Op(OP_CHECKSEQUENCEVERIFY), Op(OP_DROP), Op(OP_0), Op(OP_NUMEQUAL)];
    assert ScriptSize(script, 1) == 1 && ScriptSize(script, 2) == 2 && ScriptSize(script, 3) == 3;
    assert ScriptSize(script, 4) == 4 && ScriptSize(script, 5) == 5;
    forall extra: nat ensures !ConsensusAccepts(script, [], extra, Forgiving()) {
      RecoveryAcceptedByConsensus(script, [], extra, Forgiving());
    }
  }
}

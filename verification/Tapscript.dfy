/** A stack machine for tapscript: script numbers, the opcodes a Miniscript-style
    vault leaf can use, and the consensus rules of BIP-342 (signature opcodes,
    signature budget, clean stack), BIP-112 and BIP-68 (relative locktime).
    An opcode outside the set fails, and OP_SUCCESSx succeeds. */
module Tapscript {

  newtype byte = x: int | 0 <= x < 256

  type Bytes = seq<byte>

  datatype Chunk = Op(code: nat) | Push(data: Bytes)

  const OP_0: nat := 0x00
  const OP_1NEGATE: nat := 0x4f
  const OP_1: nat := 0x51
  const OP_16: nat := 0x60
  const OP_NOP: nat := 0x61
  const OP_VERIFY: nat := 0x69
  const OP_DROP: nat := 0x75
  const OP_DUP: nat := 0x76
  const OP_NUMEQUAL: nat := 0x9c
  const OP_NUMEQUALVERIFY: nat := 0x9d
  const OP_CHECKSIG: nat := 0xac
  const OP_CHECKSIGVERIFY: nat := 0xad
  const OP_CHECKSEQUENCEVERIFY: nat := 0xb2
  const OP_CHECKSIGADD: nat := 0xba

  // ----- script numbers -----

  function LittleEndian(b: Bytes): nat {
    if b == [] then 0 else b[0] as nat + 256 * LittleEndian(b[1..])
  }

  function Magnitude(m: nat): Bytes {
    if m == 0 then [] else [(m % 256) as byte] + Magnitude(m / 256)
  }

  /** Sign-and-magnitude little endian with the sign in the top bit. */
  function EncodeNum(v: int): Bytes {
    var m := Magnitude(if v < 0 then -v else v);
    if m == [] then []
    else
      var last := |m| - 1;
      if m[last] >= 128 then m + [if v < 0 then 128 else 0]
      else if v < 0 then m[last := m[last] + 128]
      else m
  }

  function DecodeNum(b: Bytes): int {
    if b == [] then 0
    else
      var last := |b| - 1;
      if b[last] >= 128 then -(LittleEndian(b[last := b[last] - 128]) as int) else LittleEndian(b)
  }

  predicate Minimal(b: Bytes) {
    b == [] || b[|b| - 1] % 128 != 0 || (|b| > 1 && b[|b| - 2] >= 128)
  }

  /** The chunk a number compiles to: a one-byte opcode where one exists. */
  function NumChunk(v: int): Chunk {
    if v == 0 then Op(OP_0)
    else if v == -1 then Op(OP_1NEGATE)
    else if 1 <= v <= 16 then Op(OP_1 + v - 1)
    else Push(EncodeNum(v))
  }

  /** CastToBool: any non-zero byte, except a lone sign bit at the end. */
  predicate Truthy(b: Bytes) {
    exists i | 0 <= i < |b| :: b[i] != 0 && !(i == |b| - 1 && b[i] == 128)
  }

  // ----- the machine -----

  /** What a script can see of its transaction. `valid(key, sig, hashType)` says
      that `sig` is a BIP-340 signature by `key` over the sighash of that type. */
  datatype Spend = Spend(version: nat, sequence: nat, valid: (Bytes, Bytes, nat) -> bool)

  datatype State = Running(stack: seq<Bytes>, budget: int) | Failed

  predicate DefinedHashType(hashType: nat) {
    hashType in {0x00, 0x01, 0x02, 0x03, 0x81, 0x82, 0x83}
  }

  predicate ValidSignature(spend: Spend, key: Bytes, sig: Bytes) {
    || (|sig| == 64 && spend.valid(key, sig, 0))
    || (|sig| == 65 && sig[64] != 0 && DefinedHashType(sig[64] as nat) && spend.valid(key, sig[..64], sig[64] as nat))
  }

  /** BIP-342: an empty signature is a non-match, a non-empty one must verify;
      keys of unknown length accept any non-empty signature. */
  datatype SigOutcome = Abort | NoMatch | Match

  function CheckSig(spend: Spend, key: Bytes, sig: Bytes, budget: int): SigOutcome {
    if key == [] then Abort
    else if sig == [] then NoMatch
    else if budget < 50 then Abort
    else if |key| == 32 && !ValidSignature(spend, key, sig) then Abort
    else Match
  }

  function Spent(sig: Bytes, budget: int): int { if sig == [] then budget else budget - 50 }

  function BoolItem(b: bool): Bytes { if b then [1] else [] }

  /** BIP-68 masking: the type flag (bit 22) and the low 16 bits. */
  function Masked(sequence: nat): nat { sequence / 0x400000 % 2 * 0x400000 + sequence % 0x10000 }

  /** BIP-112 on a non-negative operand without the disable flag. */
  predicate LockSatisfied(spend: Spend, operand: nat) {
    && spend.version >= 2
    && spend.sequence / 0x80000000 % 2 == 0
    && (Masked(operand) < 0x400000 <==> Masked(spend.sequence) < 0x400000)
    && Masked(operand) <= Masked(spend.sequence)
  }

  predicate SequencePasses(spend: Spend, item: Bytes) {
    && |item| <= 5
    && DecodeNum(item) >= 0
    && (DecodeNum(item) / 0x80000000 % 2 == 1 || LockSatisfied(spend, DecodeNum(item)))
  }

  function PushItem(st: State, item: Bytes): State
    requires st.Running?
  {
    st.(stack := st.stack + [item])
  }

  function Execute(spend: Spend, chunk: Chunk, st: State): State
    requires st.Running?
  {
    var s, n := st.stack, |st.stack|;
    match chunk
    case Push(data) => if |data| > 520 then Failed else PushItem(st, data)
    case Op(code) =>
      if code == OP_0 then PushItem(st, [])
      else if code == OP_1NEGATE then PushItem(st, [0x81])
      else if OP_1 <= code <= OP_16 then PushItem(st, [(code - OP_1 + 1) as byte])
      else if code == OP_NOP then st
      else if code == OP_VERIFY then
        if n < 1 || !Truthy(s[n - 1]) then Failed else st.(stack := s[..n - 1])
      else if code == OP_DROP then
        if n < 1 then Failed else st.(stack := s[..n - 1])
      else if code == OP_DUP then
        if n < 1 then Failed else PushItem(st, s[n - 1])
      else if code == OP_NUMEQUAL || code == OP_NUMEQUALVERIFY then
        if n < 2 || |s[n - 1]| > 4 || |s[n - 2]| > 4 then Failed
        else
          var equal := DecodeNum(s[n - 2]) == DecodeNum(s[n - 1]);
          if code == OP_NUMEQUAL then st.(stack := s[..n - 2] + [BoolItem(equal)])
          else if equal then st.(stack := s[..n - 2])
          else Failed
      else if code == OP_CHECKSEQUENCEVERIFY then
        if n < 1 || !SequencePasses(spend, s[n - 1]) then Failed else st
      else if code == OP_CHECKSIG || code == OP_CHECKSIGVERIFY then
        if n < 2 then Failed
        else
          var outcome := CheckSig(spend, s[n - 1], s[n - 2], st.budget);
          if outcome == Abort then Failed
          else
            var budget := Spent(s[n - 2], st.budget);
            if code == OP_CHECKSIG then Running(s[..n - 2] + [BoolItem(outcome == Match)], budget)
            else if outcome == Match then Running(s[..n - 2], budget)
            else Failed
      else if code == OP_CHECKSIGADD then
        if n < 3 || |s[n - 2]| > 4 then Failed
        else
          var outcome := CheckSig(spend, s[n - 1], s[n - 3], st.budget);
          if outcome == Abort then Failed
          else
            var count := DecodeNum(s[n - 2]) + if outcome == Match then 1 else 0;
            Running(s[..n - 3] + [EncodeNum(count)], Spent(s[n - 3], st.budget))
      else Failed
  }

  const MAX_STACK: nat := 1000

  function Step(spend: Spend, chunk: Chunk, st: State): State {
    if st.Failed? then Failed
    else
      var next := Execute(spend, chunk, st);
      if next.Running? && |next.stack| > MAX_STACK then Failed else next
  }

  /** The state after the first k chunks. */
  function Run(spend: Spend, script: seq<Chunk>, k: nat, st: State): State
    requires k <= |script|
  {
    if k == 0 then st else Step(spend, script[k - 1], Run(spend, script, k - 1, st))
  }

  predicate OpSuccess(chunk: Chunk) {
    chunk.Op? &&
    var c := chunk.code;
    c == 80 || c == 98 || 126 <= c <= 129 || 131 <= c <= 134 || 137 <= c <= 138 || 141 <= c <= 142
    || 149 <= c <= 153 || 187 <= c <= 254
  }

  function ItemsSize(items: seq<Bytes>): nat {
    if items == [] then 0 else |items[0]| + 1 + ItemsSize(items[1..])
  }

  /** Script validation. `extra` is the serialized size of the rest of the
      witness (script, control block, counts); with it the signature budget is
      50 plus the whole witness size. */
  predicate ConsensusAccepts(script: seq<Chunk>, items: seq<Bytes>, extra: nat, spend: Spend) {
    if exists i | 0 <= i < |script| :: OpSuccess(script[i]) then true
    else
      && |items| <= MAX_STACK
      && (forall i | 0 <= i < |items| :: |items[i]| <= 520)
      && var final := Run(spend, script, |script|, Running(items, 50 + ItemsSize(items) + extra));
         final.Running? && |final.stack| == 1 && Truthy(final.stack[0])
  }

  // ----- number lemmas -----

  lemma {:induction false} MagnitudeValue(m: nat)
    ensures LittleEndian(Magnitude(m)) == m
    ensures m > 0 ==> Magnitude(m) != [] && Magnitude(m)[|Magnitude(m)| - 1] != 0
  {
    if m != 0 {
      MagnitudeValue(m / 256);
      assert Magnitude(m)[1..] == Magnitude(m / 256);
    }
  }

  lemma {:induction false} TrailingZero(b: Bytes)
    ensures LittleEndian(b + [0]) == LittleEndian(b)
  {
    if b != [] {
      TrailingZero(b[1..]);
      assert (b + [0])[1..] == b[1..] + [0];
    }
  }

  /** Script numbers round-trip, and the encoding is minimal. */
  lemma NumRoundTrip(v: int)
    ensures DecodeNum(EncodeNum(v)) == v
    ensures Minimal(EncodeNum(v))
  {
    var a := if v < 0 then -v else v;
    var m := Magnitude(a);
    MagnitudeValue(a);
    if v != 0 {
      var last := |m| - 1;
      var e := EncodeNum(v);
      if m[last] >= 128 {
        TrailingZero(m);
        assert e[|e| - 1 := 0] == m + [0];
      } else if v < 0 {
        assert e[last := e[last] - 128] == m;
      }
    }
  }

  lemma ShortNum(v: int)
    requires 0 <= v < 0x10000
    ensures |EncodeNum(v)| <= 3
    ensures v >= 1 ==> |EncodeNum(v)| >= 1
  {
    assert v / 256 / 256 == 0;
    assert |Magnitude(v / 256)| <= 1;
    MagnitudeValue(v);
  }

  /** A non-negative number fits the four bytes of an arithmetic operand exactly below 2^31. */
  lemma FourBytes(v: nat)
    ensures |EncodeNum(v)| <= 4 <==> v < 0x8000_0000
  {
    var a := v / 256;
    var b := a / 256;
    var c := b / 256;
    var d := c / 256;
    Divides(v);
    MagnitudeValue(v);
    assert |Magnitude(v)| == (if v == 0 then 0 else 1 + |Magnitude(a)|);
    assert |Magnitude(a)| == (if a == 0 then 0 else 1 + |Magnitude(b)|);
    assert |Magnitude(b)| == (if b == 0 then 0 else 1 + |Magnitude(c)|);
    assert |Magnitude(c)| == (if c == 0 then 0 else 1 + |Magnitude(d)|);
    if c != 0 && d == 0 {
      assert Magnitude(c) == [c as byte];
      assert Magnitude(v)[3] == Magnitude(a)[2] == Magnitude(b)[1] == Magnitude(c)[0];
    }
  }

  lemma Divides(v: nat)
    ensures v / 256 / 256 / 256 == v / 0x100_0000 && v / 256 / 256 / 256 / 256 == v / 0x1_0000_0000
    ensures v / 256 / 256 == v / 0x1_0000
  {
  }
}

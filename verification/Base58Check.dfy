/** Base58Check (src/crypto.ts): big-endian base conversion, leading zeros and a
    four-byte checksum, which is a parameter. */
module Base58Check {
  import opened Wrappers

  type Byte = x: int | 0 <= x < 256

  type Bytes = seq<Byte>

  /** The first four bytes of the double SHA-256. */
  type Checksum = Bytes -> Bytes

  ghost predicate FourBytes(check: Checksum) { forall data :: |check(data)| == 4 }

  // ----- the alphabet: digits and letters without 0, I, O and l -----

  function Symbol(d: int): char
    requires 0 <= d < 58
  {
    if d < 9 then '1' + d as char
    else if d < 17 then 'A' + (d - 9) as char
    else if d < 22 then 'J' + (d - 17) as char
    else if d < 33 then 'P' + (d - 22) as char
    else if d < 44 then 'a' + (d - 33) as char
    else 'm' + (d - 44) as char
  }

  function IndexOf(c: char): int
    ensures -1 <= IndexOf(c) < 58
  {
    if '1' <= c <= '9' then c as int - '1' as int
    else if 'A' <= c <= 'H' then c as int - 'A' as int + 9
    else if 'J' <= c <= 'N' then c as int - 'J' as int + 17
    else if 'P' <= c <= 'Z' then c as int - 'P' as int + 22
    else if 'a' <= c <= 'k' then c as int - 'a' as int + 33
    else if 'm' <= c <= 'z' then c as int - 'm' as int + 44
    else -1
  }

  lemma AlphabetRoundTrip(d: int, c: char)
    ensures 0 <= d < 58 ==> IndexOf(Symbol(d)) == d
    ensures IndexOf(c) >= 0 ==> Symbol(IndexOf(c)) == c
    ensures IndexOf(c) == 0 <==> c == '1'
  {
  }

  /** The alphabet: digits without 0, capitals without I and O, small letters
      without l, in the order of their codes. */
  lemma AlphabetIs(c: char, d: char)
    ensures IndexOf(c) >= 0 <==>
              ('0' <= c <= '9' || 'A' <= c <= 'Z' || 'a' <= c <= 'z') && c !in {'0', 'I', 'O', 'l'}
    ensures IndexOf(c) >= 0 && IndexOf(d) >= 0 ==> (IndexOf(c) < IndexOf(d) <==> c < d)
  {
  }

  // ----- positional numbers -----

  predicate DigitsOf(ds: seq<int>, base: int) { forall i | 0 <= i < |ds| :: 0 <= ds[i] < base }

  /** Big-endian value. */
  function Value(ds: seq<int>, base: int): int {
    if ds == [] then 0 else Value(ds[..|ds| - 1], base) * base + ds[|ds| - 1]
  }

  /** Big-endian digits without leading zeros; no digits for zero. */
  function ToBase(v: nat, base: int): (ds: seq<int>)
    requires base >= 2
    ensures DigitsOf(ds, base)
  {
    if v == 0 then [] else DivSmaller(v, base); ToBase(v / base, base) + [v % base]
  }

  lemma DivSmaller(v: nat, base: int)
    requires v > 0 && base >= 2
    ensures 0 <= v / base < v
  {
    var q := v / base;
    assert v == q * base + v % base;
    AtLeastTwice(q, base);
  }

  lemma AtLeastTwice(q: int, base: int)
    requires base >= 2
    ensures q >= 0 ==> q * base >= 2 * q
  {
    if q >= 0 {
      assert q * (base - 2) >= 0;
    }
  }

  function LeadingZeros(ds: seq<int>): nat
    ensures LeadingZeros(ds) <= |ds|
  {
    if ds != [] && ds[0] == 0 then 1 + LeadingZeros(ds[1..]) else 0
  }

  function Zeros(n: nat): seq<int> { seq(n, i => 0) }

  predicate AllZero(ds: seq<int>) { forall i | 0 <= i < |ds| :: ds[i] == 0 }

  lemma Divide(v: int, base: int)
    requires base >= 2
    ensures v == v / base * base + v % base && 0 <= v % base < base
  {
  }

  lemma {:induction false} ToBaseValue(v: nat, base: int)
    requires base >= 2
    ensures Value(ToBase(v, base), base) == v
    ensures v > 0 ==> ToBase(v, base) != [] && ToBase(v, base)[0] != 0
    decreases v
  {
    if v > 0 {
      DivSmaller(v, base);
      Divide(v, base);
      var q, r := v / base, v % base;
      ToBaseValue(q, base);
      var ds := ToBase(v, base);
      assert ds == ToBase(q, base) + [r] && ds[..|ds| - 1] == ToBase(q, base);
    }
  }

  lemma DivMod(q: nat, r: int, base: int)
    requires base >= 2 && 0 <= r < base
    ensures (q * base + r) / base == q && (q * base + r) % base == r
  {
    var v := q * base + r;
    var d := v / base - q;
    assert d * base == r - v % base;
    if d >= 1 {
      Scale(d, base);
    } else if d <= -1 {
      Scale(-d, base);
    }
  }

  lemma Scale(d: int, base: int)
    requires d >= 1 && base >= 2
    ensures d * base >= base
  {
    assert (d - 1) * base >= 0;
  }

  lemma ValueIsNat(ds: seq<int>, base: int)
    requires base >= 2 && DigitsOf(ds, base)
    ensures Value(ds, base) >= 0
    ensures Value(ds, base) == 0 <==> AllZero(ds)
  {
    if ds != [] {
      var rest := ds[..|ds| - 1];
      ValueIsNat(rest, base);
      if Value(rest, base) > 0 {
        Scale(Value(rest, base), base);
      }
      assert ds == rest + [ds[|ds| - 1]];
    }
  }

  lemma LeadingZerosOfAllZero(ds: seq<int>)
    ensures AllZero(ds) <==> LeadingZeros(ds) == |ds|
    ensures AllZero(ds) ==> ds == Zeros(|ds|)
    ensures !AllZero(ds) ==> ds[LeadingZeros(ds)] != 0
  {
    if ds != [] {
      LeadingZerosOfAllZero(ds[1..]);
      assert ds == [ds[0]] + ds[1..];
    }
  }

  lemma LeadingZerosSnoc(ds: seq<int>, d: int)
    ensures LeadingZeros(ds + [d]) == if AllZero(ds) && d != 0 then |ds| else LeadingZeros(ds) + if AllZero(ds) then 1 else 0
  {
    if ds == [] {
      assert ds + [d] == [d] && [d][1..] == [];
    } else {
      LeadingZerosSnoc(ds[1..], d);
      assert (ds + [d])[1..] == ds[1..] + [d] && (ds + [d])[0] == ds[0];
      LeadingZerosOfAllZero(ds);
      LeadingZerosOfAllZero(ds[1..]);
    }
  }

  /** Any digit string is its leading zeros followed by its value's digits. */
  lemma {:induction false} Normal(ds: seq<int>, base: int)
    requires base >= 2 && DigitsOf(ds, base)
    ensures Value(ds, base) >= 0 && ds == Zeros(LeadingZeros(ds)) + ToBase(Value(ds, base), base)
  {
    assert ToBase(0, base) == [];
    hide Value, ToBase, LeadingZeros;
    ValueIsNat(ds, base);
    LeadingZerosOfAllZero(ds);
    if ds == [] || AllZero(ds) {
      assert ds == Zeros(|ds|) + [];
    } else {
      var rest, d := ds[..|ds| - 1], ds[|ds| - 1];
      assert ds == rest + [d];
      Normal(rest, base);
      LeadingZerosSnoc(rest, d);
      LeadingZerosOfAllZero(rest);
      AppendDigit(rest, d, base);
      if AllZero(rest) {
        assert Zeros(|rest|) + ([] + [d]) == Zeros(|rest|) + [d];
      }
    }
  }

  lemma AppendDigit(rest: seq<int>, d: int, base: int)
    requires base >= 2 && DigitsOf(rest, base) && 0 <= d < base && !(AllZero(rest) && d == 0)
    ensures Value(rest, base) >= 0 && Value(rest + [d], base) > 0
    ensures ToBase(Value(rest + [d], base), base) == ToBase(Value(rest, base), base) + [d]
  {
    ValueIsNat(rest, base);
    ValueSnoc(rest, d, base);
    ToBaseStep(Value(rest, base), d, base, Value(rest + [d], base));
  }

  lemma ValueSnoc(rest: seq<int>, d: int, base: int)
    ensures Value(rest + [d], base) == Value(rest, base) * base + d
  {
    assert (rest + [d])[..|rest|] == rest;
  }

  lemma ToBaseStep(q: nat, r: int, base: int, v: int)
    requires base >= 2 && 0 <= r < base && v == q * base + r && !(q == 0 && r == 0)
    ensures v > 0 && ToBase(v, base) == ToBase(q, base) + [r]
  {
    if q > 0 {
      Scale(q, base);
    }
    DivMod(q, r, base);
  }

  /** Padding with zeros changes neither the value nor the other digits. */
  lemma {:induction false} Padded(n: nat, ds: seq<int>, base: int)
    requires base >= 2
    ensures Value(Zeros(n) + ds, base) == Value(ds, base)
    ensures ds != [] && ds[0] != 0 ==> LeadingZeros(Zeros(n) + ds) == n
  {
    if ds == [] {
      assert Zeros(n) + ds == Zeros(n) && AllZero(Zeros(n)) && DigitsOf(Zeros(n), base);
      ValueIsNat(Zeros(n), base);
    } else {
      var all := Zeros(n) + ds;
      assert all[..|all| - 1] == Zeros(n) + ds[..|ds| - 1];
      Padded(n, ds[..|ds| - 1], base);
    }
    if ds != [] && ds[0] != 0 {
      ZerosThen(n, ds);
    }
  }

  lemma {:induction false} ZerosThen(n: nat, ds: seq<int>)
    requires ds != [] && ds[0] != 0
    ensures LeadingZeros(Zeros(n) + ds) == n
  {
    if n > 0 {
      ZerosThen(n - 1, ds);
      assert (Zeros(n) + ds)[1..] == Zeros(n - 1) + ds;
    } else {
      assert Zeros(0) + ds == ds;
    }
  }

  // ----- encoding -----

  function Symbols(ds: seq<int>): string
    requires DigitsOf(ds, 58)
  {
    seq(|ds|, i requires 0 <= i < |ds| => Symbol(ds[i]))
  }

  function Indexes(text: string): seq<int> { seq(|text|, i requires 0 <= i < |text| => IndexOf(text[i])) }

  function Ones(n: nat): string { seq(n, i => '1') }

  function EncodePayload(payload: Bytes): string {
    ValueIsNat(payload, 256);
    Ones(LeadingZeros(payload)) + Symbols(ToBase(Value(payload, 256), 58))
  }

  function Encode(check: Checksum, data: Bytes): string { EncodePayload(data + check(data)) }

  predicate InAlphabet(text: string) { forall i | 0 <= i < |text| :: IndexOf(text[i]) >= 0 }

  /** The bytes of the accumulated number. Its hexadecimal form is padded to
      whole bytes, so zero becomes one zero byte. */
  function NumberBytes(acc: nat): Bytes { if acc == 0 then [0] else ToBase(acc, 256) }

  function DecodePayload(text: string): Bytes
    requires InAlphabet(text)
  {
    var ds := Indexes(text);
    ValueIsNat(ds, 58);
    Zeros(LeadingZeros(ds)) + NumberBytes(Value(ds, 58))
  }

  function Split(payload: Bytes): (Bytes, Bytes) {
    var cut := if |payload| < 4 then 0 else |payload| - 4;
    (payload[..cut], payload[cut..])
  }

  function Decode(check: Checksum, text: string): Option<Bytes> {
    if !InAlphabet(text) then None
    else
      var (data, checksum) := Split(DecodePayload(text));
      if checksum == check(data) then Some(data) else None
  }

  // ----- the loops -----

  method Base58CheckEncode(check: Checksum, data: Bytes) returns (encoded: string)
    requires FourBytes(check)
    ensures encoded == Encode(check, data)
  {
    var payload := data + check(data);
    ValueIsNat(payload, 256);
    var total := ToNumber(payload, 256);
    var digits := PrependDigits(total);
    encoded := PrependOnes(payload, digits);
  }

  method PrependDigits(total: nat) returns (encoded: string)
    ensures encoded == Symbols(ToBase(total, 58))
  {
    var acc := total;
    encoded := "";
    while acc > 0
      invariant acc >= 0
      invariant Symbols(ToBase(total, 58)) == Symbols(ToBase(acc, 58)) + encoded
      decreases acc
    {
      DivSmaller(acc, 58);
      assert Symbols(ToBase(acc, 58)) == Symbols(ToBase(acc / 58, 58)) + [Symbol(acc % 58)];
      encoded := [Symbol(acc % 58)] + encoded;
      acc := acc / 58;
    }
  }

  method PrependOnes(payload: Bytes, digits: string) returns (encoded: string)
    ensures encoded == Ones(LeadingZeros(payload)) + digits
  {
    encoded := digits;
    var i := 0;
    while i < |payload| && payload[i] == 0
      invariant i <= |payload| && encoded == Ones(i) + digits
      invariant LeadingZeros(payload) == i + LeadingZeros(payload[i..])
    {
      assert payload[i..][1..] == payload[i + 1..];
      assert ['1'] + Ones(i) == Ones(i + 1);
      encoded := ['1'] + encoded;
      i := i + 1;
    }
  }

  method ToNumber(ds: seq<int>, base: int) returns (acc: int)
    ensures acc == Value(ds, base)
  {
    acc := 0;
    for i := 0 to |ds|
      invariant acc == Value(ds[..i], base)
    {
      assert ds[..i + 1][..i] == ds[..i];
      acc := acc * base + ds[i];
    }
    assert ds[..|ds|] == ds;
  }

  method Base58CheckDecode(check: Checksum, text: string) returns (r: Option<Bytes>)
    ensures r == Decode(check, text)
  {
    var acc := ReadNumber(text);
    if acc.None? {
      return None;
    }
    var leadingZeros := CountOnes(text);
    ValueIsNat(Indexes(text), 58);
    var payload: Bytes := Zeros(leadingZeros) + NumberBytes(acc.value);
    var (data, checksum) := Split(payload);
    r := if checksum == check(data) then Some(data) else None;
  }

  method ReadNumber(text: string) returns (r: Option<int>)
    ensures r == if InAlphabet(text) then Some(Value(Indexes(text), 58)) else None
  {
    var acc := 0;
    for i := 0 to |text|
      invariant InAlphabet(text[..i]) && acc == Value(Indexes(text[..i]), 58)
    {
      var digit := IndexOf(text[i]);
      if digit < 0 {
        return None;
      }
      assert Indexes(text[..i + 1])[..i] == Indexes(text[..i]);
      acc := acc * 58 + digit;
    }
    assert text[..|text|] == text;
    r := Some(acc);
  }

  method CountOnes(text: string) returns (n: nat)
    ensures n == LeadingZeros(Indexes(text))
  {
    n := 0;
    ghost var ds := Indexes(text);
    assert ds[0..] == ds;
    while n < |text| && text[n] == '1'
      invariant n <= |text| && LeadingZeros(ds) == n + LeadingZeros(ds[n..])
    {
      AlphabetRoundTrip(0, text[n]);
      assert ds[n..][1..] == ds[n + 1..];
      n := n + 1;
    }
    if n < |text| {
      AlphabetRoundTrip(0, text[n]);
    }
  }

  // ----- round trips -----

  lemma IndexesOfEncoded(n: nat, ds: seq<int>)
    requires DigitsOf(ds, 58)
    ensures InAlphabet(Ones(n) + Symbols(ds)) && Indexes(Ones(n) + Symbols(ds)) == Zeros(n) + ds
  {
    var text := Ones(n) + Symbols(ds);
    forall i | 0 <= i < |text| ensures IndexOf(text[i]) == (Zeros(n) + ds)[i] {
      if i >= n {
        AlphabetRoundTrip(ds[i - n], text[i]);
      } else {
        AlphabetRoundTrip(0, text[i]);
      }
    }
  }

  lemma SymbolsOfIndexes(text: string)
    requires InAlphabet(text)
    ensures Symbols(Indexes(text)) == text
  {
    forall i | 0 <= i < |text| ensures Symbol(IndexOf(text[i])) == text[i] {
      AlphabetRoundTrip(0, text[i]);
    }
  }

  /** The payload survives encoding, except that an all-zero payload comes back
      one zero longer. */
  lemma PayloadRoundTrip(payload: Bytes)
    ensures InAlphabet(EncodePayload(payload))
    ensures DecodePayload(EncodePayload(payload)) == if AllZero(payload) then payload + [0] else payload
  {
    ValueIsNat(payload, 256);
    var v, z := Value(payload, 256), LeadingZeros(payload);
    var ds := ToBase(v, 58);
    IndexesOfEncoded(z, ds);
    ToBaseValue(v, 58);
    Padded(z, ds, 58);
    Normal(payload, 256);
    LeadingZerosOfAllZero(payload);
    if v == 0 {
      assert Zeros(z) + ds == Zeros(z);
      LeadingZerosOfAllZero(Zeros(z));
      assert payload == Zeros(z);
    }
  }

  /** Decode after encode is the identity exactly when data and checksum are not
      all zero; leading zero bytes survive. */
  lemma DecodeAfterEncode(check: Checksum, data: Bytes)
    requires FourBytes(check)
    ensures Decode(check, Encode(check, data)) == Some(data) <==> !AllZero(data + check(data))
  {
    var payload := data + check(data);
    PayloadRoundTrip(payload);
    if AllZero(payload) {
      var (decoded, checksum) := Split(payload + [0]);
      assert |decoded| == |data| + 1;
    } else {
      assert payload[..|data|] == data && payload[|data|..] == check(data);
    }
  }

  predicate AllOnes(text: string) { forall i | 0 <= i < |text| :: text[i] == '1' }

  lemma OnesAreZeros(text: string)
    ensures AllZero(Indexes(text)) <==> AllOnes(text)
  {
    forall i | 0 <= i < |text| ensures Indexes(text)[i] == 0 <==> text[i] == '1' {
      AlphabetRoundTrip(0, text[i]);
    }
  }

  lemma EncodeZeros(payload: Bytes)
    requires AllZero(payload)
    ensures EncodePayload(payload) == Ones(|payload|)
  {
    LeadingZerosOfAllZero(payload);
    ValueIsNat(payload, 256);
    assert Symbols([]) == [];
  }

  lemma AllOnesGrow(text: string)
    requires InAlphabet(text) && AllOnes(text)
    ensures EncodePayload(DecodePayload(text)) == text + ['1']
  {
    hide Value, ToBase, IndexOf, EncodePayload, LeadingZeros;
    var ds := Indexes(text);
    OnesAreZeros(text);
    LeadingZerosOfAllZero(ds);
    ValueIsNat(ds, 58);
    var payload := DecodePayload(text);
    assert payload == Zeros(|text|) + [0];
    EncodeZeros(payload);
    assert Ones(|text| + 1) == text + ['1'];
  }

  lemma TextRoundTrip(text: string)
    requires InAlphabet(text)
    ensures EncodePayload(DecodePayload(text)) == if AllOnes(text) then text + ['1'] else text
  {
    if AllOnes(text) {
      AllOnesGrow(text);
    } else {
      hide IndexOf, Symbol, LeadingZeros, Value, ToBase;
      var ds := Indexes(text);
      ValueIsNat(ds, 58);
      var v, z := Value(ds, 58), LeadingZeros(ds);
      OnesAreZeros(text);
      Normal(ds, 58);
      ToBaseValue(v, 256);
      Padded(z, ToBase(v, 256), 256);
      SymbolsOfIndexes(text);
      SymbolsOfPadded(z, ToBase(v, 58));
    }
  }

  lemma SymbolsOfPadded(n: nat, ds: seq<int>)
    requires DigitsOf(ds, 58)
    ensures Symbols(Zeros(n) + ds) == Ones(n) + Symbols(ds)
  {
  }

  /** Encode after decode returns an accepted string exactly when it is not all
      `1`: the accepted strings other than those are the canonical ones. */
  lemma EncodeAfterDecode(check: Checksum, text: string)
    requires FourBytes(check) && Decode(check, text).Some?
    ensures Encode(check, Decode(check, text).value) == text <==> !AllOnes(text)
  {
    var payload := DecodePayload(text);
    var (data, checksum) := Split(payload);
    assert data + check(data) == payload;
    TextRoundTrip(text);
  }
}

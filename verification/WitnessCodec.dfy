/** The witness serialization of src/psbt.ts and its strict decoder in
    src/funding-signing.ts. */
module WitnessCodec {
  import opened Wrappers
  import opened Tapscript

  const MAX_SAFE_INTEGER: nat := 0x1f_ffff_ffff_ffff

  const MAX_ITEMS: nat := 100

  function Pow256(n: nat): nat { if n == 0 then 1 else 256 * Pow256(n - 1) }

  /** The n low bytes of v, least significant first. */
  function LowBytes(v: nat, n: nat): Bytes {
    if n == 0 then [] else [(v % 256) as byte] + LowBytes(v / 256, n - 1)
  }

  /** The CompactSize encoding of v < 2^64: the shortest form that fits. */
  function CompactSize(v: nat): Bytes {
    if v < 0xfd then [v as byte]
    else if v < 0x1_0000 then [0xfd] + LowBytes(v, 2)
    else if v < 0x1_0000_0000 then [0xfe] + LowBytes(v, 4)
    else [0xff] + LowBytes(v, 8)
  }

  function ItemBytes(items: seq<Bytes>): Bytes {
    if items == [] then [] else CompactSize(|items[0]|) + items[0] + ItemBytes(items[1..])
  }

  /** A witness stack in canonical serialization. */
  function Canonical(items: seq<Bytes>): Bytes { CompactSize(|items|) + ItemBytes(items) }

  // ----- decoding -----

  function SizeWidth(marker: byte): nat { if marker == 0xfd then 2 else if marker == 0xfe then 4 else 8 }

  function SizeMinimum(width: nat): nat { if width == 2 then 0xfd else if width == 4 then 0x1_0000 else 0x1_0000_0000 }

  /** readCompactSize from the front: the value and what follows. */
  function ReadSize(b: Bytes): Option<(nat, Bytes)> {
    if b == [] then None
    else if b[0] < 0xfd then Some((b[0] as nat, b[1..]))
    else
      var width := SizeWidth(b[0]);
      if 1 + width > |b| then None
      else
        var value := LittleEndian(b[1..1 + width]);
        if value < SizeMinimum(width) || value > MAX_SAFE_INTEGER then None
        else Some((value, b[1 + width..]))
  }

  function ReadItem(b: Bytes): Option<(Bytes, Bytes)> {
    match ReadSize(b)
    case None => None
    case Some((length, rest)) => if length > |rest| then None else Some((rest[..length], rest[length..]))
  }

  function ReadItems(b: Bytes, count: nat): Option<(seq<Bytes>, Bytes)> {
    if count == 0 then Some(([], b))
    else
      match ReadItem(b)
      case None => None
      case Some((item, rest)) =>
        match ReadItems(rest, count - 1)
        case None => None
        case Some((items, end)) => Some(([item] + items, end))
  }

  function Decode(b: Bytes): Option<seq<Bytes>> {
    match ReadSize(b)
    case None => None
    case Some((count, rest)) =>
      if count > MAX_ITEMS then None
      else
        match ReadItems(rest, count)
        case None => None
        case Some((items, end)) => if end == [] then Some(items) else None
  }

  // ----- the loops -----

  lemma NextPlace(rest: nat, digit: nat, place: nat)
    ensures 256 * (rest + digit * place) == 256 * rest + digit * (256 * place)
  {
  }

  lemma {:induction false} LittleEndianSnoc(b: Bytes, x: byte)
    ensures LittleEndian(b + [x]) == LittleEndian(b) + x as nat * Pow256(|b|)
  {
    if b == [] {
      assert b + [x] == [x] && [x][1..] == [];
    } else {
      LittleEndianSnoc(b[1..], x);
      assert (b + [x])[1..] == b[1..] + [x];
      NextPlace(LittleEndian(b[1..]), x as nat, Pow256(|b| - 1));
    }
  }

  method ReadCompactSize(buffer: Bytes, start: nat) returns (r: Option<(nat, nat)>)
    requires start <= |buffer|
    ensures r.None? ==> ReadSize(buffer[start..]) == None
    ensures r.Some? ==> r.value.1 <= |buffer| && ReadSize(buffer[start..]) == Some((r.value.0, buffer[r.value.1..]))
  {
    hide LittleEndian;
    var offset := start;
    ghost var b := buffer[start..];
    if offset >= |buffer| {
      return None;
    }
    var marker := buffer[offset];
    offset := offset + 1;
    if marker < 0xfd {
      return Some((marker as nat, offset));
    }
    var width := if marker == 0xfd then 2 else if marker == 0xfe then 4 else 8;
    if offset + width > |buffer| {
      return None;
    }
    var value := AddBytes(buffer[offset..offset + width]);
    assert b[1..1 + width] == buffer[offset..offset + width];
    offset := offset + width;
    var minimum := if width == 2 then 0xfd else if width == 4 then 0x1_0000 else 0x1_0000_0000;
    if value < minimum || value > MAX_SAFE_INTEGER {
      return None;
    }
    assert b[1 + width..] == buffer[offset..];
    r := Some((value, offset));
  }

  /** Shifting each byte to its place and combining. */
  method AddBytes(bytes: Bytes) returns (value: nat)
    ensures value == LittleEndian(bytes)
  {
    value := 0;
    var place := 1;
    for index := 0 to |bytes|
      invariant value == LittleEndian(bytes[..index]) && place == Pow256(index)
    {
      LittleEndianSnoc(bytes[..index], bytes[index]);
      assert bytes[..index + 1] == bytes[..index] + [bytes[index]];
      value := value + bytes[index] as nat * place;
      place := place * 256;
    }
    assert bytes[..|bytes|] == bytes;
  }

  lemma {:induction false} ReadMore(b: Bytes, n: nat, items: seq<Bytes>, rest: Bytes)
    requires ReadItems(b, n) == Some((items, rest))
    ensures ReadItems(b, n + 1)
            == match ReadItem(rest) case None => None case Some((item, end)) => Some((items + [item], end))
    decreases n
  {
    if n > 0 {
      var (item, after) := ReadItem(b).value;
      ReadMore(after, n - 1, items[1..], rest);
      assert items == [item] + items[1..];
      if ReadItem(rest).Some? {
        assert [item] + (items[1..] + [ReadItem(rest).value.0]) == items + [ReadItem(rest).value.0];
      }
    } else if ReadItem(b).Some? {
      var (item, after) := ReadItem(b).value;
      assert ReadItems(after, 0) == Some(([], after));
      assert [item] + [] == items + [item];
    }
  }

  lemma {:induction false} FailureStays(b: Bytes, n: nat, m: nat)
    requires n <= m && ReadItems(b, n) == None
    ensures ReadItems(b, m) == None
    decreases n
  {
    if n > 0 && ReadItem(b).Some? {
      FailureStays(ReadItem(b).value.1, n - 1, m - 1);
    }
  }

  /** decodeScriptWitness */
  method DecodeScriptWitness(buffer: Bytes) returns (r: Option<seq<Bytes>>)
    ensures r == Decode(buffer)
  {
    hide ReadSize, ReadItems;
    assert buffer[0..] == buffer;
    var header := ReadCompactSize(buffer, 0);
    if header.None? {
      return None;
    }
    var (count, offset) := header.value;
    if count > MAX_ITEMS {
      return None;
    }
    var stack: seq<Bytes> := [];
    ghost var body := buffer[offset..];
    NothingRead(body);
    for index := 0 to count
      invariant offset <= |buffer| && ReadItems(body, index) == Some((stack, buffer[offset..]))
    {
      ReadMore(body, index, stack, buffer[offset..]);
      var size := ReadCompactSize(buffer, offset);
      if size.None? {
        FailureStays(body, index + 1, count);
        return None;
      }
      var (length, after) := size.value;
      if after + length > |buffer| {
        FailureStays(body, index + 1, count);
        return None;
      }
      assert buffer[after..][..length] == buffer[after..after + length];
      assert buffer[after..][length..] == buffer[after + length..];
      stack := stack + [buffer[after..after + length]];
      offset := after + length;
    }
    if offset != |buffer| {
      assert buffer[offset..] != [];
      return None;
    }
    r := Some(stack);
  }

  lemma NothingRead(b: Bytes)
    ensures ReadItems(b, 0) == Some(([], b))
  {
  }

  /** witnessStackToScriptWitness: one byte for the count, which wraps above
      255, and one byte per item length, which must fit. */
  method WitnessStackToScriptWitness(stack: seq<Bytes>) returns (r: Option<Bytes>)
    ensures r.Some? <==> forall item | item in stack :: |item| <= 0xfc
    ensures r.Some? ==> r.value == [(|stack| % 256) as byte] + ItemBytes(stack)
  {
    var parts := [(|stack| % 256) as byte];
    assert ItemBytes([]) == [];
    for i := 0 to |stack|
      invariant forall item | item in stack[..i] :: |item| <= 0xfc
      invariant parts == [(|stack| % 256) as byte] + ItemBytes(stack[..i])
    {
      var item := stack[i];
      if |item| > 0xfc {
        return None;
      }
      ItemBytesSnoc(stack[..i], item);
      assert stack[..i + 1] == stack[..i] + [item];
      parts := parts + [|item| as byte] + item;
    }
    assert stack[..|stack|] == stack;
    r := Some(parts);
  }

  lemma {:induction false} ItemBytesSnoc(items: seq<Bytes>, item: Bytes)
    ensures ItemBytes(items + [item]) == ItemBytes(items) + CompactSize(|item|) + item
  {
    hide CompactSize;
    var all := items + [item];
    if items == [] {
      assert all == [item] && all[1..] == [];
      assert ItemBytes(all) == CompactSize(|item|) + item + [];
    } else {
      ItemBytesSnoc(items[1..], item);
      assert all[1..] == items[1..] + [item];
      var head := CompactSize(|items[0]|) + items[0];
      assert ItemBytes(all) == head + ItemBytes(all[1..]);
      assert head + (ItemBytes(items[1..]) + CompactSize(|item|) + item) == (head + ItemBytes(items[1..])) + CompactSize(|item|) + item;
    }
  }

  // ----- canonicity -----

  lemma {:induction false} LowBytesOf(b: Bytes)
    ensures LowBytes(LittleEndian(b), |b|) == b && LittleEndian(b) < Pow256(|b|)
  {
    if b != [] {
      LowBytesOf(b[1..]);
      assert LittleEndian(b) / 256 == LittleEndian(b[1..]) && LittleEndian(b) % 256 == b[0] as nat;
    }
  }

  lemma {:induction false} LittleEndianOf(v: nat, n: nat)
    requires v < Pow256(n)
    ensures |LowBytes(v, n)| == n && LittleEndian(LowBytes(v, n)) == v
  {
    if n > 0 {
      LittleEndianOf(v / 256, n - 1);
      assert LowBytes(v, n)[1..] == LowBytes(v / 256, n - 1);
    }
  }

  lemma Powers()
    ensures Pow256(2) == 0x1_0000 && Pow256(4) == 0x1_0000_0000 && Pow256(8) == 0x1_0000_0000_0000_0000
  {
    assert Pow256(0) == 1 && Pow256(1) == 256 && Pow256(3) == 256 * Pow256(2);
    assert Pow256(5) == 256 * Pow256(4) && Pow256(6) == 256 * Pow256(5) && Pow256(7) == 256 * Pow256(6);
  }

  /** A size reads back exactly when it is the canonical one. */
  lemma SizeIsCanonical(b: Bytes, v: nat, rest: Bytes)
    ensures ReadSize(b) == Some((v, rest)) <==> v <= 0x1f_ffff_ffff_ffff && b == CompactSize(v) + rest
  {
    Powers();
    if ReadSize(b) == Some((v, rest)) && b[0] >= 0xfd {
      var width := SizeWidth(b[0]);
      LowBytesOf(b[1..1 + width]);
      assert b == [b[0]] + b[1..1 + width] + b[1 + width..];
    }
    if v <= MAX_SAFE_INTEGER && b == CompactSize(v) + rest {
      var width := if v < 0xfd then 0 else if v < 0x1_0000 then 2 else if v < 0x1_0000_0000 then 4 else 8;
      if width == 0 {
        assert b[1..] == rest;
      } else {
        LittleEndianOf(v, width);
        assert b[1..1 + width] == LowBytes(v, width) && b[1 + width..] == rest;
      }
    }
  }

  lemma ItemIsCanonical(b: Bytes, item: Bytes, rest: Bytes)
    ensures ReadItem(b) == Some((item, rest)) <==> |item| <= MAX_SAFE_INTEGER && b == CompactSize(|item|) + item + rest
  {
    hide ReadSize, CompactSize;
    if ReadItem(b) == Some((item, rest)) {
      var (length, after) := ReadSize(b).value;
      SizeIsCanonical(b, length, after);
      assert after == item + rest;
      assert b == CompactSize(length) + item + rest;
    }
    if |item| <= MAX_SAFE_INTEGER && b == CompactSize(|item|) + item + rest {
      assert b == CompactSize(|item|) + (item + rest);
      SizeIsCanonical(b, |item|, item + rest);
      assert (item + rest)[..|item|] == item && (item + rest)[|item|..] == rest;
    }
  }

  predicate Representable(items: seq<Bytes>) { forall item | item in items :: |item| <= MAX_SAFE_INTEGER }

  lemma {:induction false} ItemsAreCanonical(b: Bytes, items: seq<Bytes>, rest: Bytes)
    ensures ReadItems(b, |items|) == Some((items, rest)) <==> Representable(items) && b == ItemBytes(items) + rest
    decreases |items|
  {
    hide ReadItem, CompactSize;
    if items == [] {
      assert ItemBytes(items) + rest == rest;
    } else {
      var item, more := items[0], items[1..];
      assert items == [item] + more;
      assert Representable(items) <==> |item| <= MAX_SAFE_INTEGER && Representable(more) by {
        assert forall x :: x in items <==> x == item || x in more;
      }
      if ReadItems(b, |items|) == Some((items, rest)) {
        var (first, after) := ReadItem(b).value;
        var (tail, end) := ReadItems(after, |more|).value;
        assert items[0] == ([first] + tail)[0] && more == ([first] + tail)[1..];
        ItemIsCanonical(b, item, after);
        ItemsAreCanonical(after, more, rest);
      }
      if Representable(items) && b == ItemBytes(items) + rest {
        assert b == CompactSize(|item|) + item + (ItemBytes(more) + rest);
        ItemIsCanonical(b, item, ItemBytes(more) + rest);
        ItemsAreCanonical(ItemBytes(more) + rest, more, rest);
      }
    }
  }

  lemma {:induction false} ReadItemsLength(b: Bytes, count: nat)
    ensures ReadItems(b, count).Some? ==> |ReadItems(b, count).value.0| == count
    decreases count
  {
    if count > 0 && ReadItem(b).Some? {
      ReadItemsLength(ReadItem(b).value.1, count - 1);
    }
  }

  /** The decoder accepts exactly the canonical serializations of stacks of at
      most 100 items, and returns the stack. */
  lemma DecodesExactlyCanonical(b: Bytes, items: seq<Bytes>)
    ensures Decode(b) == Some(items) <==> |items| <= 100 && Representable(items) && b == Canonical(items)
  {
    hide ReadSize, ReadItems, CompactSize, ItemBytes;
    if Decode(b) == Some(items) {
      var (count, rest) := ReadSize(b).value;
      ReadItemsLength(rest, count);
      SizeIsCanonical(b, count, rest);
      ItemsAreCanonical(rest, items, []);
      assert ItemBytes(items) + [] == ItemBytes(items);
    }
    if |items| <= MAX_ITEMS && Representable(items) && b == Canonical(items) {
      SizeIsCanonical(b, |items|, ItemBytes(items));
      assert ItemBytes(items) + [] == ItemBytes(items);
      ItemsAreCanonical(ItemBytes(items), items, []);
    }
  }

  /** Distinct accepted strings carry distinct stacks. */
  lemma AcceptedBytesAreUnique(a: Bytes, b: Bytes)
    requires Decode(a).Some? && Decode(a) == Decode(b)
    ensures a == b
  {
    DecodesExactlyCanonical(a, Decode(a).value);
    DecodesExactlyCanonical(b, Decode(b).value);
  }

  /** The encoder's output decodes to its input exactly when the stack has at
      most 100 items. */
  lemma EncodeThenDecode(stack: seq<Bytes>)
    requires forall item | item in stack :: |item| <= 0xfc
    ensures Decode([(|stack| % 256) as byte] + ItemBytes(stack)) == Some(stack) <==> |stack| <= 100
  {
    hide Decode, ItemBytes;
    var b := [(|stack| % 256) as byte] + ItemBytes(stack);
    DecodesExactlyCanonical(b, stack);
    ShortCount(|stack|);
    assert Representable(stack);
    if |stack| <= MAX_ITEMS {
      assert b == Canonical(stack);
    }
  }

  lemma ShortCount(n: nat)
    ensures n <= MAX_ITEMS ==> CompactSize(n) == [(n % 256) as byte]
  {
  }
}

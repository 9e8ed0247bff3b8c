/** JSON values and canonicalPolicy (src/sigbash-policy.ts): the printer that
    sorts object keys. Strings are UTF-16, escaped as JSON.stringify escapes
    them; a number is represented by the literal JSON.stringify gives it. */
module Json {
  import opened Wrappers
  import Sorting

  type Unit = c: int | 0 <= c < 0x10000

  type Text = seq<Unit>

  datatype Entry = Entry(name: Text, value: Json)

  datatype Json =
    | Null
    | Bool(b: bool)
    | Num(literal: Text)
    | Str(text: Text)
    | Arr(items: seq<Json>)
    | Obj(entries: seq<Entry>)

  const QUOTE: Unit := 34
  const PLUS: Unit := 43
  const COMMA: Unit := 44
  const MINUS: Unit := 45
  const DOT: Unit := 46
  const COLON: Unit := 58
  const OPEN_BRACKET: Unit := 91
  const BACKSLASH: Unit := 92
  const CLOSE_BRACKET: Unit := 93
  const OPEN_BRACE: Unit := 123
  const CLOSE_BRACE: Unit := 125

  predicate Digit(c: Unit) { 48 <= c <= 57 }

  predicate NumberUnit(c: Unit) { Digit(c) || c == MINUS || c == PLUS || c == DOT || c == 101 }

  predicate NumberLiteral(t: Text) {
    t != [] && (Digit(t[0]) || t[0] == MINUS) && forall c | c in t :: NumberUnit(c)
  }

  predicate DistinctNames(entries: seq<Entry>) {
    forall i, j | 0 <= i < j < |entries| :: entries[i].name != entries[j].name
  }

  /** Numbers are literals and no object repeats a key. */
  predicate WellFormed(v: Json) {
    match v
    case Num(literal) => NumberLiteral(literal)
    case Arr(items) => forall i | 0 <= i < |items| :: WellFormed(items[i])
    case Obj(entries) => DistinctNames(entries) && forall i | 0 <= i < |entries| :: WellFormed(entries[i].value)
    case _ => true
  }

  // ----- strings -----

  predicate High(c: Unit) { 0xd800 <= c < 0xdc00 }

  predicate Low(c: Unit) { 0xdc00 <= c < 0xe000 }

  function HexDigit(d: int): Unit
    requires 0 <= d < 16
  {
    if d < 10 then 48 + d else 87 + d
  }

  function Hex4(c: Unit): Text {
    [HexDigit(c / 4096), HexDigit(c / 256 % 16), HexDigit(c / 16 % 16), HexDigit(c % 16)]
  }

  /** One code unit outside a surrogate pair. */
  function EscapeUnit(c: Unit): Text {
    if c == QUOTE || c == BACKSLASH then [BACKSLASH, c]
    else if c == 8 then [BACKSLASH, 98]
    else if c == 9 then [BACKSLASH, 116]
    else if c == 10 then [BACKSLASH, 110]
    else if c == 12 then [BACKSLASH, 102]
    else if c == 13 then [BACKSLASH, 114]
    else if c < 0x20 || High(c) || Low(c) then [BACKSLASH, 117] + Hex4(c)
    else [c]
  }

  predicate PairAhead(t: Text) { |t| >= 2 && High(t[0]) && Low(t[1]) }

  /** How many units the first escape covers, and what it prints. */
  function HeadLength(t: Text): nat
    requires t != []
    ensures 1 <= HeadLength(t) <= |t|
  {
    if PairAhead(t) then 2 else 1
  }

  function EscapeHead(t: Text): Text
    requires t != []
  {
    if PairAhead(t) then [t[0], t[1]] else EscapeUnit(t[0])
  }

  function Escape(t: Text): Text {
    if t == [] then [] else EscapeHead(t) + Escape(t[HeadLength(t)..])
  }

  function Quote(t: Text): Text { [QUOTE] + Escape(t) + [QUOTE] }

  // ----- printing -----

  function Print(v: Json): Text
    decreases v, 0
  {
    match v
    case Null => [110, 117, 108, 108]
    case Bool(b) => if b then [116, 114, 117, 101] else [102, 97, 108, 115, 101]
    case Num(literal) => literal
    case Str(text) => Quote(text)
    case Arr(items) => [OPEN_BRACKET] + PrintItems(items) + [CLOSE_BRACKET]
    case Obj(entries) => [OPEN_BRACE] + PrintEntries(entries) + [CLOSE_BRACE]
  }

  function PrintItems(items: seq<Json>): Text
    decreases items, 1
  {
    if items == [] then []
    else if |items| == 1 then Print(items[0])
    else Print(items[0]) + [COMMA] + PrintItems(items[1..])
  }

  function PrintEntry(e: Entry): Text
    decreases e, 1
  {
    Quote(e.name) + [COLON] + Print(e.value)
  }

  function PrintEntries(entries: seq<Entry>): Text
    decreases entries, 2
  {
    if entries == [] then []
    else if |entries| == 1 then PrintEntry(entries[0])
    else PrintEntry(entries[0]) + [COMMA] + PrintEntries(entries[1..])
  }

  // ----- sorting -----

  /** `less` is the comparator's "negative". */
  type Less = (Text, Text) -> bool

  /** The comparator on entries that compares their names. */
  function ByName(less: Less): (Entry, Entry) -> bool { (d: Entry, e: Entry) => less(d.name, e.name) }

  function SortByName(less: Less, entries: seq<Entry>): seq<Entry> { Sorting.Sort(ByName(less), entries) }

  /** Sorting every object of a value by key. */
  function Canon(less: Less, v: Json): Json
    decreases v, 0
  {
    match v
    case Arr(items) => Arr(CanonItems(less, items))
    case Obj(entries) => Obj(SortByName(less, CanonEntries(less, entries)))
    case _ => v
  }

  function CanonItems(less: Less, items: seq<Json>): (r: seq<Json>)
    ensures |r| == |items|
    ensures forall i | 0 <= i < |items| :: r[i] == Canon(less, items[i])
    decreases items, 1
  {
    if items == [] then [] else [Canon(less, items[0])] + CanonItems(less, items[1..])
  }

  function CanonEntries(less: Less, entries: seq<Entry>): (r: seq<Entry>)
    ensures |r| == |entries|
    ensures forall i | 0 <= i < |entries| :: r[i] == Entry(entries[i].name, Canon(less, entries[i].value))
    decreases entries, 1
  {
    if entries == [] then []
    else [Entry(entries[0].name, Canon(less, entries[0].value))] + CanonEntries(less, entries[1..])
  }

  /** canonicalPolicy */
  function CanonicalPolicy(less: Less, v: Json): Text { Print(Canon(less, v)) }

  /** The comparator orders the names of every object in the value strictly. */
  ghost predicate Ordered(less: Less, v: Json) {
    match v
    case Arr(items) => forall i | 0 <= i < |items| :: Ordered(less, items[i])
    case Obj(entries) =>
      Sorting.Orders(less, Names(entries)) && forall i | 0 <= i < |entries| :: Ordered(less, entries[i].value)
    case _ => true
  }

  function Names(entries: seq<Entry>): seq<Text> { seq(|entries|, i requires 0 <= i < |entries| => entries[i].name) }

  // ----- equality up to key order -----

  function Lookup(entries: seq<Entry>, name: Text): Option<Json> {
    if entries == [] then None
    else if entries[0].name == name then Some(entries[0].value)
    else Lookup(entries[1..], name)
  }

  /** Equal as JSON data: arrays in order, objects as maps. */
  ghost predicate Same(v: Json, w: Json) {
    match (v, w)
    case (Arr(a), Arr(b)) => |a| == |b| && forall i | 0 <= i < |a| :: Same(a[i], b[i])
    case (Obj(a), Obj(b)) =>
      && |a| == |b|
      && forall i | 0 <= i < |a| :: exists j | 0 <= j < |b| :: a[i].name == b[j].name && Same(a[i].value, b[j].value)
    case (_, _) => v == w
  }
}

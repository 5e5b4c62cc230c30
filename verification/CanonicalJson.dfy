/** Canonical JSON text (gateway/src/canonical.ts) and the signed payload built from it. */
module CanonicalJson {
  import opened Common

  /** A JavaScript string is a sequence of UTF-16 code units. */
  type CodeUnit = u: int | 0 <= u < 0x10000
  type Text = seq<CodeUnit>

  /** Numbers are integers; an object is its own entries in insertion order. */
  datatype Json =
    | Null
    | Bool(b: bool)
    | Num(n: int)
    | Str(s: Text)
    | Arr(members: seq<Json>)
    | Obj(entries: seq<Entry>)

  datatype Entry = Entry(key: Text, value: Json)

  const QUOTE: CodeUnit := 0x22
  const COMMA: CodeUnit := 0x2C
  const MINUS: CodeUnit := 0x2D
  const ZERO: CodeUnit := 0x30
  const NINE: CodeUnit := 0x39
  const COLON: CodeUnit := 0x3A
  const LBRACKET: CodeUnit := 0x5B
  const BACKSLASH: CodeUnit := 0x5C
  const RBRACKET: CodeUnit := 0x5D
  const LBRACE: CodeUnit := 0x7B
  const RBRACE: CodeUnit := 0x7D
  const NULL_TEXT: Text := [0x6E, 0x75, 0x6C, 0x6C]
  const TRUE_TEXT: Text := [0x74, 0x72, 0x75, 0x65]
  const FALSE_TEXT: Text := [0x66, 0x61, 0x6C, 0x73, 0x65]

  // ----- strings: JSON.stringify with well-formed output (section 7 of RFC 8259) -----

  predicate IsHigh(u: CodeUnit) { 0xD800 <= u < 0xDC00 }
  predicate IsLow(u: CodeUnit) { 0xDC00 <= u < 0xE000 }
  predicate IsSurrogate(u: CodeUnit) { 0xD800 <= u < 0xE000 }

  /** The code point at the front is a surrogate pair. */
  predicate StartsWithPair(s: Text) {
    |s| >= 2 && IsHigh(s[0]) && IsLow(s[1])
  }

  function HexDigit(d: int): CodeUnit
    requires 0 <= d < 16
  {
    if d < 10 then 0x30 + d else 0x61 + d - 10
  }

  /** The last `width` lowercase hexadecimal digits of u, zero-padded. */
  function Hex(u: nat, width: nat): Text {
    if width == 0 then [] else Hex(u / 16, width - 1) + [HexDigit(u % 16)]
  }

  function UnicodeEscape(u: CodeUnit): Text {
    [BACKSLASH, 0x75] + Hex(u, 4)
  }

  /** The letter of a two-character escape, for the code units that have one. */
  function ShortEscape(u: CodeUnit): Option<CodeUnit> {
    if u == QUOTE || u == BACKSLASH then Some(u)
    else if u == 0x08 then Some(0x62)
    else if u == 0x09 then Some(0x74)
    else if u == 0x0A then Some(0x6E)
    else if u == 0x0C then Some(0x66)
    else if u == 0x0D then Some(0x72)
    else None
  }

  /** One code unit that is not part of a surrogate pair. */
  function EscapeUnit(u: CodeUnit): Text {
    match ShortEscape(u)
    case Some(letter) => [BACKSLASH, letter]
    case None => if u < 0x20 || IsSurrogate(u) then UnicodeEscape(u) else [u]
  }

  function Escape(s: Text): Text {
    if s == [] then []
    else if StartsWithPair(s) then s[..2] + Escape(s[2..])
    else EscapeUnit(s[0]) + Escape(s[1..])
  }

  function Quote(s: Text): Text {
    [QUOTE] + Escape(s) + [QUOTE]
  }

  // ----- numbers -----

  function Digits(n: nat): Text {
    if n < 10 then [ZERO + n] else Digits(n / 10) + [ZERO + n % 10]
  }

  function Decimal(n: int): Text {
    if n < 0 then [MINUS] + Digits(-n) else Digits(n)
  }

  // ----- key order: `left < right` on code units -----

  predicate Less(a: Text, b: Text) {
    if b == [] then false
    else if a == [] then true
    else if a[0] == b[0] then Less(a[1..], b[1..])
    else a[0] < b[0]
  }

  function Insert(e: Entry, sorted: seq<Entry>): (r: seq<Entry>)
    ensures multiset(r) == multiset{e} + multiset(sorted)
  {
    if sorted == [] then [e]
    else if Less(sorted[0].key, e.key) then
      assert sorted == [sorted[0]] + sorted[1..];
      [sorted[0]] + Insert(e, sorted[1..])
    else [e] + sorted
  }

  function SortByKey(es: seq<Entry>): (r: seq<Entry>)
    ensures multiset(r) == multiset(es)
  {
    if es == [] then []
    else
      assert es == [es[0]] + es[1..];
      Insert(es[0], SortByKey(es[1..]))
  }

  // ----- the printer -----

  function Prefixed(parts: seq<Text>): Text {
    if parts == [] then [] else [COMMA] + parts[0] + Prefixed(parts[1..])
  }

  /** `parts.join(",")` */
  function Join(parts: seq<Text>): Text {
    if parts == [] then [] else parts[0] + Prefixed(parts[1..])
  }

  function Canonical(v: Json): Text
    decreases v, 1
  {
    match v
    case Null => NULL_TEXT
    case Bool(b) => if b then TRUE_TEXT else FALSE_TEXT
    case Num(n) => Decimal(n)
    case Str(s) => Quote(s)
    case Arr(members) => [LBRACKET] + Join(CanonicalMembers(members)) + [RBRACKET]
    case Obj(entries) =>
      var sorted := SortByKey(entries);
      SortedEntriesAreInside(entries, v);
      [LBRACE] + Join(CanonicalEntries(sorted, v)) + [RBRACE]
  }

  function CanonicalMembers(members: seq<Json>): seq<Text>
    decreases members
  {
    if members == [] then [] else [Canonical(members[0])] + CanonicalMembers(members[1..])
  }

  function CanonicalEntries(entries: seq<Entry>, whole: Json): seq<Text>
    requires Inside(entries, whole)
    decreases whole, 0, |entries|
  {
    if entries == [] then []
    else
      [Quote(entries[0].key) + [COLON] + Canonical(entries[0].value)] + CanonicalEntries(entries[1..], whole)
  }

  /** Every value of the entries is a proper part of the whole (the termination measure of the printer). */
  ghost predicate Inside(entries: seq<Entry>, whole: Json) {
    forall i :: 0 <= i < |entries| ==> entries[i].value < whole
  }

  lemma SortedEntriesAreInside(entries: seq<Entry>, whole: Json)
    requires whole == Obj(entries)
    ensures Inside(SortByKey(entries), whole)
  {
    var sorted := SortByKey(entries);
    forall i | 0 <= i < |sorted| ensures sorted[i].value < whole {
      assert sorted[i] in multiset(sorted);
      assert sorted[i] in entries;
      var j :| 0 <= j < |entries| && entries[j] == sorted[i];
      assert entries[j].value < whole;
    }
  }
}

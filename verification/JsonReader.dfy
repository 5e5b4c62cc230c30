/**
A reader of JSON text (RFC 8259, without white space, fractions and exponents), written apart from the printer. It
reads every canonical text back as the value printed, with the keys of every object in code-unit order.
*/
module JsonReader {
  import opened Common
  import opened CanonicalJson
  import opened CanonicalJsonInjective

  // ----- the reader -----

  predicate Starts(t: Text, word: string) {
    |word| <= |t| && forall i :: 0 <= i < |word| ==> t[i] == word[i] as int
  }

  predicate Opens(t: Text, c: char) {
    t != [] && t[0] == c as int
  }

  /** The code unit a two-character escape stands for (section 7 of RFC 8259). */
  function Unescaped(letter: CodeUnit): Option<CodeUnit> {
    if letter == '"' as int then Some(0x22)
    else if letter == '\\' as int then Some(0x5C)
    else if letter == '/' as int then Some(0x2F)
    else if letter == 'b' as int then Some(0x08)
    else if letter == 'f' as int then Some(0x0C)
    else if letter == 'n' as int then Some(0x0A)
    else if letter == 'r' as int then Some(0x0D)
    else if letter == 't' as int then Some(0x09)
    else None
  }

  function HexValue(c: CodeUnit): (r: Option<int>)
    ensures r.Some? ==> 0 <= r.value < 16
  {
    if '0' as int <= c <= '9' as int then Some(c - '0' as int)
    else if 'a' as int <= c <= 'f' as int then Some(c - 'a' as int + 10)
    else if 'A' as int <= c <= 'F' as int then Some(c - 'A' as int + 10)
    else None
  }

  function ReadHex(t: Text): (r: Option<(CodeUnit, Text)>)
    ensures r.Some? ==> |r.value.1| < |t|
  {
    if |t| < 4 then None
    else
      var a, b, c, d := HexValue(t[0]), HexValue(t[1]), HexValue(t[2]), HexValue(t[3]);
      if a.None? || b.None? || c.None? || d.None? then None
      else Some((4096 * a.value + 256 * b.value + 16 * c.value + d.value, t[4..]))
  }

  /** What follows a backslash. */
  function ReadEscape(t: Text): (r: Option<(CodeUnit, Text)>)
    ensures r.Some? ==> |r.value.1| < |t|
  {
    if t == [] then None
    else if t[0] == 'u' as int then ReadHex(t[1..])
    else if Unescaped(t[0]).None? then None
    else Some((Unescaped(t[0]).value, t[1..]))
  }

  function Before(u: CodeUnit, more: Option<(Text, Text)>): Option<(Text, Text)> {
    match more
    case None => None
    case Some((s, rest)) => Some(([u] + s, rest))
  }

  /** What follows an opening quote. */
  function ReadString(t: Text): (r: Option<(Text, Text)>)
    ensures r.Some? ==> |r.value.1| < |t|
    decreases |t|
  {
    if t == [] then None
    else if t[0] == '"' as int then Some(([], t[1..]))
    else if t[0] < 0x20 then None
    else if t[0] == '\\' as int then
      var e := ReadEscape(t[1..]);
      if e.None? then None else Before(e.value.0, ReadString(e.value.1))
    else Before(t[0], ReadString(t[1..]))
  }

  function ReadDigits(t: Text, so: nat): (r: (nat, Text))
    ensures |r.1| <= |t| && (t != [] && '0' as int <= t[0] <= '9' as int ==> |r.1| < |t|)
    decreases |t|
  {
    if t != [] && '0' as int <= t[0] <= '9' as int then ReadDigits(t[1..], 10 * so + (t[0] - '0' as int)) else (so, t)
  }

  /** A number does not start with a zero unless it is zero. */
  function ReadNat(t: Text): (r: Option<(nat, Text)>)
    ensures r.Some? ==> |r.value.1| < |t|
  {
    if Opens(t, '0') then Some((0, t[1..]))
    else if t != [] && '1' as int <= t[0] <= '9' as int then Some(ReadDigits(t, 0))
    else None
  }

  function ReadNumber(t: Text): (r: Option<(Json, Text)>)
    ensures r.Some? ==> |r.value.1| < |t|
  {
    if Opens(t, '-') then
      match ReadNat(t[1..])
      case None => None
      case Some((n, rest)) => Some((Num(0 - n), rest))
    else
      match ReadNat(t)
      case None => None
      case Some((n, rest)) => Some((Num(n), rest))
  }

  function ReadValue(t: Text): (r: Option<(Json, Text)>)
    ensures r.Some? ==> |r.value.1| < |t|
    decreases |t|, 0
  {
    if Starts(t, "null") then Some((Null, t[4..]))
    else if Starts(t, "true") then Some((Bool(true), t[4..]))
    else if Starts(t, "false") then Some((Bool(false), t[5..]))
    else if Opens(t, '"') then
      match ReadString(t[1..])
      case None => None
      case Some((s, rest)) => Some((Str(s), rest))
    else if Starts(t, "[]") then Some((Arr([]), t[2..]))
    else if Opens(t, '[') then
      match ReadMembers(t[1..])
      case None => None
      case Some((members, rest)) => Some((Arr(members), rest))
    else if Starts(t, "{}") then Some((Obj([]), t[2..]))
    else if Opens(t, '{') then
      match ReadEntries(t[1..])
      case None => None
      case Some((entries, rest)) => Some((Obj(entries), rest))
    else ReadNumber(t)
  }

  /** One member and what follows it, up to the closing bracket. */
  function ReadMembers(t: Text): (r: Option<(seq<Json>, Text)>)
    ensures r.Some? ==> |r.value.1| < |t|
    decreases |t|, 1
  {
    match ReadValue(t)
    case None => None
    case Some((v, rest)) =>
      if Opens(rest, ']') then Some(([v], rest[1..]))
      else if !Opens(rest, ',') then None
      else
        match ReadMembers(rest[1..])
        case None => None
        case Some((vs, end)) => Some(([v] + vs, end))
  }

  /** One key, its value and what follows, up to the closing brace. */
  function ReadEntries(t: Text): (r: Option<(seq<Entry>, Text)>)
    ensures r.Some? ==> |r.value.1| < |t|
    decreases |t|, 1
  {
    match ReadEntry(t)
    case None => None
    case Some((e, rest)) =>
      if Opens(rest, '}') then Some(([e], rest[1..]))
      else if !Opens(rest, ',') then None
      else
        match ReadEntries(rest[1..])
        case None => None
        case Some((es, end)) => Some(([e] + es, end))
  }

  function ReadEntry(t: Text): (r: Option<(Entry, Text)>)
    ensures r.Some? ==> |r.value.1| < |t|
    decreases |t|, 0
  {
    if !Opens(t, '"') then None
    else
      match ReadString(t[1..])
      case None => None
      case Some((key, rest)) =>
        if !Opens(rest, ':') then None
        else
          match ReadValue(rest[1..])
          case None => None
          case Some((v, end)) => Some((Entry(key, v), end))
  }

  function Parse(t: Text): Option<Json> {
    match ReadValue(t)
    case None => None
    case Some((v, rest)) => if rest == [] then Some(v) else None
  }

  // ----- the value a canonical text is read as -----

  /** The value with the entries of every object in the order of their keys. */
  function Ordered(v: Json): Json
    decreases v, 1
  {
    match v
    case Arr(members) => Arr(OrderedMembers(members))
    case Obj(entries) =>
      SortedEntriesAreInside(entries, v);
      Obj(OrderedEntries(SortByKey(entries), v))
    case _ => v
  }

  function OrderedMembers(members: seq<Json>): seq<Json>
    decreases members
  {
    if members == [] then [] else [Ordered(members[0])] + OrderedMembers(members[1..])
  }

  function OrderedEntries(entries: seq<Entry>, whole: Json): seq<Entry>
    requires Inside(entries, whole)
    decreases whole, 0, |entries|
  {
    if entries == [] then []
      else [Entry(entries[0].key, Ordered(entries[0].value))] + OrderedEntries(entries[1..], whole)
  }

  // ----- strings and numbers -----

  lemma HexStep(u: nat, width: nat)
    ensures Hex(u, width + 1) == Hex(u / 16, width) + [HexDigit(u % 16)]
  {
  }

  lemma HexDigitsOf(u: CodeUnit)
    ensures Hex(u, 4) ==
      [HexDigit(u / 16 / 16 / 16 % 16), HexDigit(u / 16 / 16 % 16), HexDigit(u / 16 % 16), HexDigit(u % 16)]
  {
    HexStep(u / 16 / 16 / 16, 0);
    HexStep(u / 16 / 16, 1);
    HexStep(u / 16, 2);
    HexStep(u, 3);
  }

  lemma HexDigitReads(d: int)
    requires 0 <= d < 16
    ensures HexValue(HexDigit(d)) == Some(d)
  {
  }

  lemma FourReads(a: int, b: int, c: int, d: int, x: Text)
    requires 0 <= a < 16 && 0 <= b < 16 && 0 <= c < 16 && 0 <= d < 16
    ensures ReadHex([HexDigit(a), HexDigit(b), HexDigit(c), HexDigit(d)] + x)
      == Some((4096 * a + 256 * b + 16 * c + d, x))
  {
    HexDigitReads(a);
    HexDigitReads(b);
    HexDigitReads(c);
    HexDigitReads(d);
    assert ([HexDigit(a), HexDigit(b), HexDigit(c), HexDigit(d)] + x)[4..] == x;
  }

  lemma HexReads(u: CodeUnit, x: Text)
    ensures ReadHex(Hex(u, 4) + x) == Some((u, x))
  {
    var p := u / 16;
    var q := p / 16;
    var r := q / 16;
    HexDigitsOf(u);
    Recombine(u, p, q, r);
    FourReads(r, q % 16, p % 16, u % 16, x);
    assert r % 16 == r;
  }

  lemma Recombine(u: CodeUnit, p: int, q: int, r: int)
    requires p == u / 16 && q == p / 16 && r == q / 16
    ensures 0 <= r < 16 && 4096 * r + 256 * (q % 16) + 16 * (p % 16) + u % 16 == u
  {
    assert u == 16 * p + u % 16 && p == 16 * q + p % 16 && q == 16 * r + q % 16;
  }

  lemma UnitReads(u: CodeUnit, x: Text)
    ensures ReadString(EscapeUnit(u) + x) == Before(u, ReadString(x))
  {
    var t := EscapeUnit(u) + x;
    if ShortEscape(u).Some? {
      assert t[1..][1..] == x;
    } else if u < 0x20 || IsSurrogate(u) {
      HexReads(u, x);
      assert t[1..][1..] == Hex(u, 4) + x;
    } else {
      assert t[1..] == x;
    }
  }

  /** A surrogate pair stands for itself; any other code unit is escaped on its own. */
  lemma PairsStay(s: Text)
    ensures s == [] ==> Escape(s) == []
    ensures |s| >= 2 && 0xD800 <= s[0] < 0xDC00 && 0xDC00 <= s[1] < 0xE000 ==>
      Escape(s) == [s[0], s[1]] + Escape(s[2..])
    ensures s != [] && !(|s| >= 2 && 0xD800 <= s[0] < 0xDC00 && 0xDC00 <= s[1] < 0xE000) ==>
      Escape(s) == EscapeUnit(s[0]) + Escape(s[1..])
  {
  }

  predicate LowerHex(c: CodeUnit) {
    '0' as int <= c <= '9' as int || 'a' as int <= c <= 'f' as int
  }

  /** Nothing is escaped that may stand for itself, the short form is used where there is one, and hex is lower case. */
  lemma EscapesOnlyWhatMust(u: CodeUnit)
    ensures
      var t := EscapeUnit(u);
      var short := u in {0x08, 0x09, 0x0A, 0x0C, 0x0D, 0x22, 0x5C};
      && (t == [u] <==> !short && u >= 0x20 && !(0xD800 <= u < 0xE000))
      && (|t| == 2 <==> short)
      && (t != [u] && !short ==> |t| == 6 && forall i :: 2 <= i < 6 ==> LowerHex(t[i]))
  {
    UnicodeEscapeInjective(u, u);
    HexDigitsOf(u);
  }

  lemma PairReads(high: CodeUnit, low: CodeUnit, x: Text)
    requires IsHigh(high) && IsLow(low)
    ensures ReadString([high, low] + x) == Before(high, Before(low, ReadString(x)))
  {
    assert ([high, low] + x)[1..] == [low] + x && ([low] + x)[1..] == x;
  }

  lemma {:induction false} StringReads(s: Text, x: Text)
    ensures ReadString(Escape(s) + [QUOTE] + x) == Some((s, x))
  {
    if s == [] {
      assert (Escape(s) + [QUOTE] + x)[1..] == x;
    } else if StartsWithPair(s) {
      EscapeStep(s, x);
      StringReads(s[2..], x);
      PairReads(s[0], s[1], Escape(s[2..]) + [QUOTE] + x);
      assert s[..2] == [s[0], s[1]] && s == [s[0]] + ([s[1]] + s[2..]);
    } else {
      EscapeStep(s, x);
      StringReads(s[1..], x);
      UnitReads(s[0], Escape(s[1..]) + [QUOTE] + x);
      assert s == [s[0]] + s[1..];
    }
  }

  lemma {:induction false} DigitsRead(n: nat, x: Text)
    ensures ReadDigits(Digits(n) + x, 0) == ReadDigits(x, n)
    ensures n > 0 ==> Digits(n)[0] != ZERO
  {
    if n < 10 {
      assert (Digits(n) + x)[1..] == x;
    } else {
      var last: Text := [ZERO + n % 10];
      DigitsRead(n / 10, last + x);
      assert Digits(n) + x == Digits(n / 10) + (last + x);
      assert (last + x)[1..] == x;
    }
  }

  lemma NatReads(n: nat, x: Text)
    requires Delimited(x)
    ensures ReadNat(Digits(n) + x) == Some((n, x))
  {
    DigitsRead(n, x);
    DigitsHead(n);
    if n == 0 {
      assert (Digits(n) + x)[1..] == x;
    }
  }

  lemma NumberReads(n: int, x: Text)
    requires Delimited(x)
    ensures ReadNumber(Decimal(n) + x) == Some((Num(n), x))
  {
    DecimalHead(n, x);
    NatReads(if n < 0 then -n else n, x);
  }

  // ----- one step of the reader -----

  lemma StringOf(t: Text, s: Text, rest: Text)
    requires Opens(t, '"') && ReadString(t[1..]) == Some((s, rest))
    ensures ReadValue(t) == Some((Str(s), rest))
  {
  }

  lemma AfterQuote(s: Text, x: Text)
    ensures Opens(Quote(s) + x, '"') && (Quote(s) + x)[1..] == Escape(s) + [QUOTE] + x
  {
  }

  lemma ArrayOf(t: Text, members: seq<Json>, rest: Text)
    requires Opens(t, '[') && !Opens(t[1..], ']') && ReadMembers(t[1..]) == Some((members, rest))
    ensures ReadValue(t) == Some((Arr(members), rest))
  {
  }

  lemma ObjectOf(t: Text, entries: seq<Entry>, rest: Text)
    requires Opens(t, '{') && !Opens(t[1..], '}') && ReadEntries(t[1..]) == Some((entries, rest))
    ensures ReadValue(t) == Some((Obj(entries), rest))
  {
  }

  lemma LastMember(t: Text, v: Json, rest: Text)
    requires ReadValue(t) == Some((v, rest)) && Opens(rest, ']')
    ensures ReadMembers(t) == Some(([v], rest[1..]))
  {
  }

  lemma NextMember(t: Text, v: Json, rest: Text, vs: seq<Json>, end: Text)
    requires ReadValue(t) == Some((v, rest)) && Opens(rest, ',') && ReadMembers(rest[1..]) == Some((vs, end))
    ensures ReadMembers(t) == Some(([v] + vs, end))
  {
  }

  lemma LastEntry(t: Text, e: Entry, rest: Text)
    requires ReadEntry(t) == Some((e, rest)) && Opens(rest, '}')
    ensures ReadEntries(t) == Some(([e], rest[1..]))
  {
  }

  lemma NextEntry(t: Text, e: Entry, rest: Text, es: seq<Entry>, end: Text)
    requires ReadEntry(t) == Some((e, rest)) && Opens(rest, ',') && ReadEntries(rest[1..]) == Some((es, end))
    ensures ReadEntries(t) == Some(([e] + es, end))
  {
  }

  lemma EntryOf(t: Text, key: Text, after: Text, v: Json, rest: Text)
    requires Opens(t, '"') && ReadString(t[1..]) == Some((key, after))
    requires Opens(after, ':') && ReadValue(after[1..]) == Some((v, rest))
    ensures ReadEntry(t) == Some((Entry(key, v), rest))
  {
  }

  // ----- values -----

  lemma ScalarReads(v: Json, x: Text)
    requires Delimited(x) && (v.Null? || v.Bool? || v.Num?)
    ensures ReadValue(Canonical(v) + x) == Some((v, x))
  {
    var t := Canonical(v) + x;
    match v
    case Null => assert t[4..] == x;
    case Bool(b) =>
      assert t[0] == if b then 't' as int else 'f' as int;
      assert t[if b then 4 else 5..] == x;
    case Num(n) =>
      DecimalHead(n, x);
      NumberReads(n, x);
  }

  lemma TextReads(s: Text, x: Text)
    ensures ReadValue(Quote(s) + x) == Some((Str(s), x))
  {
    StringReads(s, x);
    AfterQuote(s, x);
    StringOf(Quote(s) + x, s, x);
  }

  lemma {:induction false} ReadsBack(v: Json, x: Text)
    requires Delimited(x)
    ensures ReadValue(Canonical(v) + x) == Some((Ordered(v), x))
    decreases v, 2
  {
    match v {
      case Str(s) => TextReads(s, x);
      case Arr(ms) => ArrayReads(ms, v, x);
      case Obj(es) => ObjectReads(es, v, x);
      case _ => ScalarReads(v, x);
    }
  }

  lemma Bracketed(open: CodeUnit, body: Text, close: CodeUnit, x: Text)
    ensures ([open] + body + [close] + x)[0] == open && ([open] + body + [close] + x)[1..] == body + [close] + x
  {
  }

  lemma EmptyArrayReads(x: Text)
    ensures ReadValue([LBRACKET, RBRACKET] + x) == Some((Arr([]), x))
  {
    var t := [LBRACKET, RBRACKET] + x;
    assert t[0] == '[' as int && t[1] == ']' as int && t[2..] == x;
  }

  lemma EmptyObjectReads(x: Text)
    ensures ReadValue([LBRACE, RBRACE] + x) == Some((Obj([]), x))
  {
    var t := [LBRACE, RBRACE] + x;
    assert t[0] == '{' as int && t[1] == '}' as int && t[2..] == x;
  }

  lemma {:induction false} ArrayReads(ms: seq<Json>, v: Json, x: Text)
    requires v == Arr(ms) && Delimited(x)
    ensures ReadValue(Canonical(v) + x) == Some((Ordered(v), x))
    decreases v, 1
  {
    var t := Canonical(v) + x;
    if ms == [] {
      EmptyArrayReads(x);
      assert t == [LBRACKET, RBRACKET] + x;
    } else {
      Bracketed(LBRACKET, Join(CanonicalMembers(ms)), RBRACKET, x);
      MembersStep(ms, x);
      CanonicalHead(ms[0], MembersRest(ms[1..], x));
      MembersRead(ms, x);
      ArrayOf(t, OrderedMembers(ms), x);
    }
  }

  lemma {:induction false} MembersRead(ms: seq<Json>, x: Text)
    requires ms != [] && Delimited(x)
    ensures ReadMembers(Canonical(ms[0]) + MembersRest(ms[1..], x)) == Some((OrderedMembers(ms), x))
    decreases ms, 0
  {
    var rest := MembersRest(ms[1..], x);
    MembersStep(ms[1..], x);
    ReadsBack(ms[0], rest);
    if ms[1..] == [] {
      LastMember(Canonical(ms[0]) + rest, Ordered(ms[0]), rest);
      assert rest[1..] == x && OrderedMembers(ms) == [Ordered(ms[0])] + [] == [Ordered(ms[0])];
    } else {
      MembersRead(ms[1..], x);
      assert rest[1..] == Canonical(ms[1..][0]) + MembersRest(ms[1..][1..], x);
      NextMember(Canonical(ms[0]) + rest, Ordered(ms[0]), rest, OrderedMembers(ms[1..]), x);
    }
  }

  lemma {:induction false} ObjectReads(es: seq<Entry>, v: Json, x: Text)
    requires v == Obj(es) && Delimited(x)
    ensures ReadValue(Canonical(v) + x) == Some((Ordered(v), x))
    decreases v, 1
  {
    SortedEntriesAreInside(es, v);
    var s, t := SortByKey(es), Canonical(v) + x;
    if s == [] {
      EmptyObjectReads(x);
      assert t == [LBRACE, RBRACE] + x;
    } else {
      Bracketed(LBRACE, Join(CanonicalEntries(s, v)), RBRACE, x);
      EntriesStep(s, v, x);
      assert (EntryText(s[0]) + EntriesRest(s[1..], v, x))[0] == QUOTE;
      EntriesRead(s, v, x);
      ObjectOf(t, OrderedEntries(s, v), x);
    }
  }

  lemma {:induction false} EntriesRead(s: seq<Entry>, whole: Json, x: Text)
    requires s != [] && Inside(s, whole) && Delimited(x)
    ensures ReadEntries(EntryText(s[0]) + EntriesRest(s[1..], whole, x)) == Some((OrderedEntries(s, whole), x))
    decreases whole, 0, |s|
  {
    var rest, e := EntriesRest(s[1..], whole, x), Entry(s[0].key, Ordered(s[0].value));
    EntriesStep(s[1..], whole, x);
    EntryReads(s[0], whole, rest);
    if s[1..] == [] {
      LastEntry(EntryText(s[0]) + rest, e, rest);
      assert rest[1..] == x && OrderedEntries(s, whole) == [e] + [] == [e];
    } else {
      EntriesRead(s[1..], whole, x);
      assert rest[1..] == EntryText(s[1..][0]) + EntriesRest(s[1..][1..], whole, x);
      NextEntry(EntryText(s[0]) + rest, e, rest, OrderedEntries(s[1..], whole), x);
    }
  }

  lemma {:induction false} EntryReads(e: Entry, whole: Json, x: Text)
    requires e.value < whole && Delimited(x)
    ensures ReadEntry(EntryText(e) + x) == Some((Entry(e.key, Ordered(e.value)), x))
    decreases whole, 0, 0
  {
    var after := [COLON] + (Canonical(e.value) + x);
    KeyThenValue(e, x);
    StringReads(e.key, after);
    ReadsBack(e.value, x);
    assert after[1..] == Canonical(e.value) + x;
    EntryOf(EntryText(e) + x, e.key, after, Ordered(e.value), x);
  }

  lemma KeyThenValue(e: Entry, x: Text)
    ensures Opens(EntryText(e) + x, '"')
    ensures (EntryText(e) + x)[1..] == Escape(e.key) + [QUOTE] + ([COLON] + (Canonical(e.value) + x))
  {
    AfterQuote(e.key, [COLON] + (Canonical(e.value) + x));
    assert EntryText(e) + x == Quote(e.key) + ([COLON] + (Canonical(e.value) + x));
  }

  /** Canonical text is JSON for the value it was printed from, keys in order. */
  lemma ParsesBack(v: Json)
    ensures Parse(Canonical(v)) == Some(Ordered(v))
  {
    assert Canonical(v) + [] == Canonical(v);
    ReadsBack(v, []);
  }

  // ----- the order of keys -----

  /** Text order by code units: at the first place they differ, the first has ended or has the smaller unit. */
  ghost predicate Precedes(s: Text, t: Text) {
    exists k :: 0 <= k <= |s| && k < |t| && s[..k] == t[..k] && (k == |s| || s[k] < t[k])
  }

  lemma SamePrefixHead(s: Text, t: Text, k: nat)
    requires 0 < k <= |s| && k <= |t| && s[..k] == t[..k]
    ensures s[0] == t[0]
  {
    assert s[..k][0] == t[..k][0];
  }

  lemma {:induction false} LessIff(s: Text, t: Text)
    ensures Less(s, t) <==> Precedes(s, t)
  {
    if s != [] && t != [] && s[0] == t[0] {
      LessIff(s[1..], t[1..]);
      if Precedes(s[1..], t[1..]) {
        var k :| 0 <= k <= |s[1..]| && k < |t[1..]| && s[1..][..k] == t[1..][..k]
          && (k == |s[1..]| || s[1..][k] < t[1..][k]);
        assert s[..k + 1] == [s[0]] + s[1..][..k] && t[..k + 1] == [t[0]] + t[1..][..k];
      }
      if Precedes(s, t) {
        var k :| 0 <= k <= |s| && k < |t| && s[..k] == t[..k] && (k == |s| || s[k] < t[k]);
        assert k > 0;
        assert s[1..][..k - 1] == s[..k][1..] && t[1..][..k - 1] == t[..k][1..];
      }
    } else {
      assert s[..0] == t[..0];
      if Precedes(s, t) {
        var k :| 0 <= k <= |s| && k < |t| && s[..k] == t[..k] && (k == |s| || s[k] < t[k]);
        if k > 0 {
          SamePrefixHead(s, t, k);
        }
      }
    }
  }

  /** The keys of every object, at every depth, are strictly increasing by code units. */
  ghost predicate KeysAscend(v: Json) {
    match v
    case Arr(members) => forall i :: 0 <= i < |members| ==> KeysAscend(members[i])
    case Obj(entries) =>
      && (forall i, j :: 0 <= i < j < |entries| ==> Precedes(entries[i].key, entries[j].key))
      && forall i :: 0 <= i < |entries| ==> KeysAscend(entries[i].value)
    case _ => true
  }

  lemma {:induction false} OrderedKeys(entries: seq<Entry>, whole: Json)
    requires Inside(entries, whole)
    ensures |OrderedEntries(entries, whole)| == |entries|
    ensures forall i :: 0 <= i < |entries| ==>
      OrderedEntries(entries, whole)[i] == Entry(entries[i].key, Ordered(entries[i].value))
    decreases |entries|
  {
    if entries != [] {
      OrderedKeys(entries[1..], whole);
    }
  }

  lemma {:induction false} OrderedMembersAt(members: seq<Json>)
    ensures |OrderedMembers(members)| == |members|
    ensures forall i :: 0 <= i < |members| ==> OrderedMembers(members)[i] == Ordered(members[i])
  {
    if members != [] {
      OrderedMembersAt(members[1..]);
    }
  }

  /** What is read back is the value printed, and its keys come in the order of their code units. */
  lemma {:induction false} OrderedIsSame(v: Json)
    requires Valid(v)
    ensures Same(v, Ordered(v)) && KeysAscend(Ordered(v))
  {
    match v {
      case Arr(members) =>
        OrderedMembersAt(members);
        forall i | 0 <= i < |members| ensures Same(members[i], Ordered(members[i])) && KeysAscend(Ordered(members[i])) {
          OrderedIsSame(members[i]);
        }
      case Obj(entries) =>
        forall i | 0 <= i < |entries|
          ensures Same(entries[i].value, Ordered(entries[i].value)) && KeysAscend(Ordered(entries[i].value))
        {
          OrderedIsSame(entries[i].value);
        }
        ObjectOrdered(entries, v);
      case _ =>
    }
  }

  lemma ObjectOrdered(entries: seq<Entry>, v: Json)
    requires v == Obj(entries) && UniqueKeys(entries)
    requires forall i :: 0 <= i < |entries| ==>
      Same(entries[i].value, Ordered(entries[i].value)) && KeysAscend(Ordered(entries[i].value))
    ensures Same(v, Ordered(v)) && KeysAscend(Ordered(v))
  {
    SortedEntriesAreInside(entries, v);
    var sorted := SortByKey(entries);
    var ordered := OrderedEntries(sorted, v);
    SortSorts(entries);
    OrderedKeys(sorted, v);
    forall i, j | 0 <= i < j < |ordered| ensures Precedes(ordered[i].key, ordered[j].key) {
      LessIff(sorted[i].key, sorted[j].key);
    }
    forall i | 0 <= i < |ordered| ensures KeysAscend(ordered[i].value) {
      SortKeepsEntries(entries, sorted[i]);
    }
    forall i | 0 <= i < |entries| ensures SameEntry(entries[i], ordered) {
      SortKeepsEntries(entries, entries[i]);
      var j :| 0 <= j < |sorted| && sorted[j] == entries[i];
      assert ordered[j].key == entries[i].key;
    }
  }

  /**
  The round trip: canonical text is valid JSON, and a reader gets back the value printed, every object's keys in
  code-unit order.
  */
  lemma CanonicalReadsBack(v: Json)
    requires Valid(v)
    ensures var read := Parse(Canonical(v));
      read.Some? && Same(v, read.value) && KeysAscend(read.value)
  {
    ParsesBack(v);
    OrderedIsSame(v);
  }
}

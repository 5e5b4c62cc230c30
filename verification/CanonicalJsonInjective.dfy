/**
Canonical JSON text determines its value up to the order of object keys, and does not depend
on that order. The proof shows unique decodability: a canonical text followed by anything that
cannot continue a number splits in one way only.
*/
module CanonicalJsonInjective {
  import opened Common
  import opened CanonicalJson

  /** Equal as JSON values: object keys may come in any order, at every depth. */
  ghost predicate Same(a: Json, b: Json) {
    match (a, b)
    case (Arr(x), Arr(y)) =>
      |x| == |y| && forall i :: 0 <= i < |x| ==> Same(x[i], y[i])
    case (Obj(x), Obj(y)) =>
      |x| == |y| && forall i :: 0 <= i < |x| ==> SameEntry(x[i], y)
    case _ => a == b
  }

  ghost predicate SameEntry(e: Entry, others: seq<Entry>) {
    exists j :: 0 <= j < |others| && others[j].key == e.key && Same(e.value, others[j].value)
  }

  ghost predicate UniqueKeys(es: seq<Entry>) {
    forall i, j :: 0 <= i < j < |es| ==> es[i].key != es[j].key
  }

  /** A JavaScript object never holds the same key twice. */
  ghost predicate Valid(v: Json) {
    match v
    case Arr(members) => forall i :: 0 <= i < |members| ==> Valid(members[i])
    case Obj(entries) => UniqueKeys(entries) && forall i :: 0 <= i < |entries| ==> Valid(entries[i].value)
    case _ => true
  }

  // ----- strings -----

  function Pow16(width: nat): nat {
    if width == 0 then 1 else 16 * Pow16(width - 1)
  }

  lemma {:induction false} HexInjective(u: nat, v: nat, width: nat)
    requires u < Pow16(width) && v < Pow16(width)
    ensures |Hex(u, width)| == width
    ensures Hex(u, width) == Hex(v, width) ==> u == v
    decreases width
  {
    if width > 0 {
      var s, t := Hex(u, width), Hex(v, width);
      HexInjective(u / 16, v / 16, width - 1);
      HexInjective(v / 16, u / 16, width - 1);
      assert s[..width - 1] == Hex(u / 16, width - 1) && t[..width - 1] == Hex(v / 16, width - 1);
      assert s[width - 1] == HexDigit(u % 16) && t[width - 1] == HexDigit(v % 16);
    }
  }

  lemma UnicodeEscapeInjective(u: CodeUnit, v: CodeUnit)
    ensures |UnicodeEscape(u)| == 6
    ensures UnicodeEscape(u) == UnicodeEscape(v) ==> u == v
  {
    assert Pow16(4) == 65536 by {
      assert Pow16(2) == 256;
    }
    HexInjective(u, v, 4);
    assert UnicodeEscape(u)[2..] == Hex(u, 4) && UnicodeEscape(v)[2..] == Hex(v, 4);
  }

  lemma EscapeUnitShape(u: CodeUnit)
    ensures var t := EscapeUnit(u);
      && (t == [u] || (|t| == 2 && t[0] == BACKSLASH && t[1] != 0x75)
        || (|t| == 6 && t[0] == BACKSLASH && t[1] == 0x75))
      && t[0] != QUOTE
      && (t == [u] ==> u != BACKSLASH && !IsSurrogate(u))
  {
    UnicodeEscapeInjective(u, u);
  }

  lemma EscapeUnitDecodable(u: CodeUnit, v: CodeUnit, x: Text, y: Text)
    requires EscapeUnit(u) + x == EscapeUnit(v) + y
    ensures u == v && x == y
  {
    EscapeUnitShape(u);
    EscapeUnitShape(v);
    var s, t := EscapeUnit(u), EscapeUnit(v);
    assert (s + x)[0] == s[0] && (t + y)[0] == t[0];
    if |s| > 1 {
      assert (s + x)[1] == s[1];
    }
    if |t| > 1 {
      assert (t + y)[1] == t[1];
    }
    assert |s| == |t|;
    SplitAt(s, t, x, y);
    if |s| == 6 {
      UnicodeEscapeInjective(u, v);
    }
  }

  lemma SplitAt(s: Text, t: Text, x: Text, y: Text)
    requires |s| == |t| && s + x == t + y
    ensures s == t && x == y
  {
    assert s == (s + x)[..|s|] && t == (t + y)[..|t|];
    assert x == (s + x)[|s|..] && y == (t + y)[|t|..];
  }

  lemma {:induction false} EscapeDecodable(a: Text, b: Text, x: Text, y: Text)
    requires Escape(a) + [QUOTE] + x == Escape(b) + [QUOTE] + y
    ensures a == b && x == y
  {
    EscapeHead(a, x);
    EscapeHead(b, y);
    if a == [] {
      assert x == (Escape(a) + [QUOTE] + x)[1..] && y == (Escape(b) + [QUOTE] + y)[1..];
    } else {
      var n := if StartsWithPair(a) then 2 else 1;
      assert a == a[..n] + a[n..] && b == b[..n] + b[n..];
      var p, q := Escape(a[n..]) + [QUOTE] + x, Escape(b[n..]) + [QUOTE] + y;
      EscapeStep(a, x);
      EscapeStep(b, y);
      if n == 2 {
        SplitAt(a[..2], b[..2], p, q);
      } else {
        EscapeUnitDecodable(a[0], b[0], p, q);
      }
      EscapeDecodable(a[n..], b[n..], x, y);
    }
  }

  lemma EscapeStep(a: Text, x: Text)
    requires a != []
    ensures Escape(a) + [QUOTE] + x ==
      if StartsWithPair(a) then a[..2] + (Escape(a[2..]) + [QUOTE] + x)
      else EscapeUnit(a[0]) + (Escape(a[1..]) + [QUOTE] + x)
  {
  }

  /** The first code unit of escaped text tells the end of the string and a surrogate pair apart. */
  lemma EscapeHead(a: Text, x: Text)
    ensures var p := Escape(a) + [QUOTE] + x;
      && (p[0] == QUOTE <==> a == [])
      && (IsHigh(p[0]) <==> StartsWithPair(a))
  {
  }

  lemma QuoteDecodable(a: Text, b: Text, x: Text, y: Text)
    requires Quote(a) + x == Quote(b) + y
    ensures a == b && x == y
  {
    var p, q := Quote(a) + x, Quote(b) + y;
    assert p[1..] == Escape(a) + [QUOTE] + x;
    assert q[1..] == Escape(b) + [QUOTE] + y;
    EscapeDecodable(a, b, x, y);
  }

  // ----- numbers -----

  predicate IsDigit(u: CodeUnit) { ZERO <= u <= NINE }

  /** What may follow a value inside canonical text. */
  ghost predicate Delimited(x: Text) {
    x == [] || x[0] == COMMA || x[0] == RBRACKET || x[0] == RBRACE
  }

  function DigitsValue(t: Text): int {
    if t == [] then 0 else 10 * DigitsValue(t[..|t| - 1]) + t[|t| - 1] - ZERO
  }

  lemma {:induction false} DigitsRoundTrip(n: nat)
    ensures Digits(n) != [] && (forall i :: 0 <= i < |Digits(n)| ==> IsDigit(Digits(n)[i]))
    ensures DigitsValue(Digits(n)) == n
  {
    if n >= 10 {
      DigitsRoundTrip(n / 10);
      assert Digits(n)[..|Digits(n)| - 1] == Digits(n / 10);
    } else {
      assert DigitsValue([]) == 0;
      assert Digits(n)[..0] == [];
    }
  }

  /** The length of the longest run of digits at the front. */
  function DigitRun(t: Text): nat {
    if t == [] || !IsDigit(t[0]) then 0 else 1 + DigitRun(t[1..])
  }

  lemma {:induction false} DigitRunStops(s: Text, x: Text)
    requires (forall i :: 0 <= i < |s| ==> IsDigit(s[i])) && Delimited(x)
    ensures DigitRun(s + x) == |s|
  {
    if s == [] {
      assert s + x == x;
    } else {
      assert (s + x)[1..] == s[1..] + x;
      DigitRunStops(s[1..], x);
    }
  }

  lemma DigitsDecodable(m: nat, n: nat, x: Text, y: Text)
    requires Delimited(x) && Delimited(y) && Digits(m) + x == Digits(n) + y
    ensures m == n && x == y
  {
    DigitsRoundTrip(m);
    DigitsRoundTrip(n);
    DigitRunStops(Digits(m), x);
    DigitRunStops(Digits(n), y);
    SplitAt(Digits(m), Digits(n), x, y);
  }

  lemma DigitsHead(n: nat)
    ensures Digits(n) != [] && IsDigit(Digits(n)[0])
  {
  }

  lemma Signed(digits: Text, x: Text)
    requires digits != [] && IsDigit(digits[0])
    ensures ([MINUS] + digits + x)[0] == MINUS && ([MINUS] + digits + x)[1..] == digits + x && (digits + x)[0] != MINUS
  {
  }

  lemma DecimalHead(n: int, x: Text)
    ensures Decimal(n) != [] && (IsDigit(Decimal(n)[0]) || Decimal(n)[0] == MINUS)
    ensures (Decimal(n) + x)[0] == MINUS <==> n < 0
    ensures n < 0 ==> (Decimal(n) + x)[1..] == Digits(-n) + x
  {
    var digits := Digits(if n < 0 then -n else n);
    DigitsHead(if n < 0 then -n else n);
    Signed(digits, x);
    assert Decimal(n) == if n < 0 then [MINUS] + digits else digits;
  }

  lemma DecimalDecodable(m: int, n: int, x: Text, y: Text)
    requires Delimited(x) && Delimited(y) && Decimal(m) + x == Decimal(n) + y
    ensures m == n && x == y
  {
    DecimalHead(m, x);
    DecimalHead(n, y);
    if m < 0 {
      DigitsDecodable(-m, -n, x, y);
    } else {
      DigitsDecodable(m, n, x, y);
    }
  }

  // ----- key order -----

  lemma {:induction false} LessTransitive(a: Text, b: Text, c: Text)
    requires Less(a, b) && Less(b, c)
    ensures Less(a, c)
  {
    if a != [] && a[0] == b[0] == c[0] {
      LessTransitive(a[1..], b[1..], c[1..]);
    }
  }

  lemma {:induction false} LessTotal(a: Text, b: Text)
    ensures !(Less(a, b) && Less(b, a))
    ensures Less(a, b) || Less(b, a) || a == b
    ensures !Less(a, a)
  {
    if a != [] {
      LessTotal(a[1..], a[1..]);
    }
    if a != [] && b != [] && a[0] == b[0] {
      LessTotal(a[1..], b[1..]);
      assert a == [a[0]] + a[1..] && b == [b[0]] + b[1..];
    }
  }

  ghost predicate Sorted(es: seq<Entry>) {
    forall i, j :: 0 <= i < j < |es| ==> Less(es[i].key, es[j].key)
  }

  lemma {:induction false} InsertSorts(e: Entry, sorted: seq<Entry>)
    requires Sorted(sorted) && forall i :: 0 <= i < |sorted| ==> sorted[i].key != e.key
    ensures Sorted(Insert(e, sorted))
  {
    if sorted != [] {
      if Less(sorted[0].key, e.key) {
        InsertSorts(e, sorted[1..]);
        var r := Insert(e, sorted[1..]);
        forall i | 0 <= i < |r| ensures Less(sorted[0].key, r[i].key) {
          assert r[i] in multiset(r);
          assert r[i] == e || r[i] in sorted[1..];
        }
      } else {
        LessTotal(sorted[0].key, e.key);
        forall i | 1 <= i < |sorted| ensures Less(e.key, sorted[i].key) {
          LessTransitive(e.key, sorted[0].key, sorted[i].key);
        }
      }
    }
  }

  lemma {:induction false} SortSorts(es: seq<Entry>)
    requires UniqueKeys(es)
    ensures Sorted(SortByKey(es)) && |SortByKey(es)| == |es|
  {
    assert |multiset(es)| == |multiset(SortByKey(es))|;
    if es != [] {
      SortSorts(es[1..]);
      var r := SortByKey(es[1..]);
      forall i | 0 <= i < |r| ensures r[i].key != es[0].key {
        assert r[i] in multiset(r);
        assert r[i] in es[1..];
      }
      InsertSorts(es[0], r);
    }
  }

  /** Sorting moves entries and loses none. */
  lemma SortKeepsEntries(es: seq<Entry>, e: Entry)
    ensures e in es <==> e in SortByKey(es)
  {
    assert e in multiset(es) <==> e in multiset(SortByKey(es));
  }

  lemma KeyOrder(t: seq<Entry>, p: int, q: int)
    requires Sorted(t) && 0 <= p < |t| && 0 <= q < |t|
    ensures Less(t[p].key, t[q].key) <==> p < q
  {
    LessTotal(t[p].key, t[q].key);
  }

  /** The positions at which a sorted sequence holds given keys, themselves in order, are in order. */
  lemma PositionsIncrease(s: seq<Entry>, t: seq<Entry>, positions: seq<int>, i: nat, j: nat)
    requires Sorted(s) && Sorted(t) && |positions| == |s| && i < j < |s|
    requires forall k :: 0 <= k < |s| ==> 0 <= positions[k] < |t| && t[positions[k]].key == s[k].key
    ensures positions[i] < positions[j]
  {
    assert Less(s[i].key, s[j].key);
    KeyOrder(t, positions[i], positions[j]);
  }

  lemma {:induction false} StrictPositions(positions: seq<int>, n: nat)
    requires |positions| == n && StrictlyIncreasing(positions)
    requires forall k :: 0 <= k < n ==> 0 <= positions[k] < n
    ensures forall k :: 0 <= k < n ==> positions[k] == k
  {
    if n > 0 {
      assert forall k :: 0 <= k < n - 1 ==> positions[k] < positions[n - 1];
      StrictPositions(positions[..n - 1], n - 1);
      assert n > 1 ==> positions[..n - 1][n - 2] == n - 2;
    }
  }

  lemma SortedUnique(s: seq<Entry>, t: seq<Entry>)
    requires Sorted(s) && Sorted(t) && |s| == |t|
    requires forall i :: 0 <= i < |s| ==> HasKey(t, s[i].key)
    ensures forall i :: 0 <= i < |s| ==> s[i].key == t[i].key
  {
    var positions := seq(|s|, i requires 0 <= i < |s| => PositionOf(t, s[i].key));
    forall i, j | 0 <= i < j < |s| ensures positions[i] < positions[j] {
      PositionsIncrease(s, t, positions, i, j);
    }
    StrictPositions(positions, |s|);
    forall i | 0 <= i < |s| ensures s[i].key == t[i].key {
      assert positions[i] == i;
    }
  }

  ghost function PositionOf(es: seq<Entry>, key: Text): (j: int)
    requires HasKey(es, key)
    ensures 0 <= j < |es| && es[j].key == key
  {
    var j :| 0 <= j < |es| && es[j].key == key;
    j
  }

  ghost predicate HasKey(es: seq<Entry>, key: Text) {
    exists j :: 0 <= j < |es| && es[j].key == key
  }

  // ----- values -----

  /** The first code unit of a canonical text names the kind of value. */
  function Kind(head: CodeUnit): int {
    if head == NULL_TEXT[0] then 0
    else if head == TRUE_TEXT[0] then 1
    else if head == FALSE_TEXT[0] then 2
    else if head == MINUS || IsDigit(head) then 3
    else if head == QUOTE then 4
    else if head == LBRACKET then 5
    else if head == LBRACE then 6
    else 7
  }

  lemma CanonicalHead(v: Json, x: Text)
    ensures Canonical(v) != []
    ensures Kind((Canonical(v) + x)[0]) ==
      match v {
        case Null => 0
        case Bool(b) => if b then 1 else 2
        case Num(_) => 3
        case Str(_) => 4
        case Arr(_) => 5
        case Obj(_) => 6
      }
    ensures !Delimited(Canonical(v) + x)
  {
    match v
    case Num(n) => DecimalHead(n, x);
    case _ =>
  }

  /** Unique decodability: two canonical texts that continue to the same text are equal, and so are the rests. */
  lemma {:induction false} Decodable(a: Json, b: Json, x: Text, y: Text)
    requires Valid(a) && Valid(b) && Delimited(x) && Delimited(y)
    requires Canonical(a) + x == Canonical(b) + y
    ensures Same(a, b) && x == y
    decreases a, 2
  {
    CanonicalHead(a, x);
    CanonicalHead(b, y);
    match a {
      case Null => SplitAt(NULL_TEXT, NULL_TEXT, x, y);
      case Bool(f) => SplitAt(Canonical(a), Canonical(b), x, y);
      case Num(m) => DecimalDecodable(m, b.n, x, y);
      case Str(s) => QuoteDecodable(s, b.s, x, y);
      case Arr(ms) =>
        StripBrackets(LBRACKET, RBRACKET, Join(CanonicalMembers(ms)), Join(CanonicalMembers(b.members)), x, y);
        MembersDecodable(ms, b.members, x, y);
      case Obj(es) =>
        SortedEntriesAreInside(es, a);
        SortedEntriesAreInside(b.entries, b);
        var s, t := SortByKey(es), SortByKey(b.entries);
        StripBrackets(LBRACE, RBRACE, Join(CanonicalEntries(s, a)), Join(CanonicalEntries(t, b)), x, y);
        ValidSorted(es);
        ValidSorted(b.entries);
        EntriesDecodable(s, t, a, b, x, y);
        PairwiseSame(es, b.entries);
    }
  }

  lemma StripBrackets(open: CodeUnit, close: CodeUnit, s: Text, t: Text, x: Text, y: Text)
    requires [open] + s + [close] + x == [open] + t + [close] + y
    ensures s + [close] + x == t + [close] + y
  {
    assert s + [close] + x == ([open] + s + [close] + x)[1..];
    assert t + [close] + y == ([open] + t + [close] + y)[1..];
  }

  lemma Regroup(a: Text, b: Text, c: Text, d: Text)
    ensures a + b + c + d == a + (b + c + d)
  {
  }

  ghost predicate ValidEntries(es: seq<Entry>) {
    forall i :: 0 <= i < |es| ==> Valid(es[i].value)
  }

  lemma ValidSorted(es: seq<Entry>)
    requires ValidEntries(es)
    ensures ValidEntries(SortByKey(es))
  {
    var s := SortByKey(es);
    forall i | 0 <= i < |s| ensures Valid(s[i].value) {
      SortKeepsEntries(es, s[i]);
    }
  }

  ghost predicate SamePairs(s: seq<Entry>, t: seq<Entry>) {
    |s| == |t| && forall i :: 0 <= i < |s| ==> s[i].key == t[i].key && Same(s[i].value, t[i].value)
  }

  /** Objects whose sorted entries agree are the same object. */
  lemma PairwiseSame(es: seq<Entry>, fs: seq<Entry>)
    requires UniqueKeys(es) && UniqueKeys(fs) && SamePairs(SortByKey(es), SortByKey(fs))
    ensures Same(Obj(es), Obj(fs))
  {
    SortSorts(es);
    SortSorts(fs);
    var s, t := SortByKey(es), SortByKey(fs);
    forall i | 0 <= i < |es| ensures SameEntry(es[i], fs) {
      SortKeepsEntries(es, es[i]);
      var k :| 0 <= k < |s| && s[k] == es[i];
      SortKeepsEntries(fs, t[k]);
      var j :| 0 <= j < |fs| && fs[j] == t[k];
    }
  }

  lemma SameCons(a: seq<Json>, b: seq<Json>)
    requires a != [] && b != [] && Same(a[0], b[0]) && Same(Arr(a[1..]), Arr(b[1..]))
    ensures Same(Arr(a), Arr(b))
  {
  }

  /** The first character tells an empty array from one with members. */
  lemma MembersBothEmpty(a: seq<Json>, b: seq<Json>, x: Text, y: Text)
    requires (forall i :: 0 <= i < |a| ==> Valid(a[i])) && (forall i :: 0 <= i < |b| ==> Valid(b[i]))
    requires Join(CanonicalMembers(a)) + [RBRACKET] + x == Join(CanonicalMembers(b)) + [RBRACKET] + y
    ensures a == [] <==> b == []
  {
    MembersStep(a, x);
    MembersStep(b, y);
    if a != [] {
      CanonicalHead(a[0], MembersRest(a[1..], x));
    }
    if b != [] {
      CanonicalHead(b[0], MembersRest(b[1..], y));
    }
  }

  lemma RestBothEmpty(a: seq<Json>, b: seq<Json>, x: Text, y: Text)
    requires MembersRest(a, x) == MembersRest(b, y)
    ensures a == [] <==> b == []
  {
    MembersStep(a, x);
    MembersStep(b, y);
  }

  lemma {:induction false} MembersDecodable(a: seq<Json>, b: seq<Json>, x: Text, y: Text)
    requires forall i :: 0 <= i < |a| ==> Valid(a[i])
    requires forall i :: 0 <= i < |b| ==> Valid(b[i])
    requires Join(CanonicalMembers(a)) + [RBRACKET] + x == Join(CanonicalMembers(b)) + [RBRACKET] + y
    ensures Same(Arr(a), Arr(b)) && x == y
    decreases a, 1
  {
    MembersBothEmpty(a, b, x, y);
    MembersStep(a, x);
    MembersStep(b, y);
    if a == [] {
      SplitAt([RBRACKET], [RBRACKET], x, y);
    } else {
      MembersStep(a[1..], x);
      MembersStep(b[1..], y);
      Decodable(a[0], b[0], MembersRest(a[1..], x), MembersRest(b[1..], y));
      MembersRestDecodable(a[1..], b[1..], x, y);
      SameCons(a, b);
    }
  }

  /** What follows an array member: a comma and the next one, or the closing bracket and the rest. */
  function MembersRest(a: seq<Json>, x: Text): Text {
    Prefixed(CanonicalMembers(a)) + [RBRACKET] + x
  }

  lemma MembersStep(a: seq<Json>, x: Text)
    ensures Join(CanonicalMembers(a)) + [RBRACKET] + x ==
      if a == [] then [RBRACKET] + x else Canonical(a[0]) + MembersRest(a[1..], x)
    ensures MembersRest(a, x) ==
      if a == [] then [RBRACKET] + x else [COMMA] + (Canonical(a[0]) + MembersRest(a[1..], x))
    ensures Delimited(MembersRest(a, x))
  {
    if a != [] {
      var parts := CanonicalMembers(a);
      assert parts[1..] == CanonicalMembers(a[1..]);
      JoinStep(parts, RBRACKET, x);
    }
  }

  lemma JoinStep(parts: seq<Text>, close: CodeUnit, x: Text)
    requires parts != []
    ensures Join(parts) + [close] + x == parts[0] + (Prefixed(parts[1..]) + [close] + x)
    ensures Prefixed(parts) + [close] + x == [COMMA] + (parts[0] + (Prefixed(parts[1..]) + [close] + x))
  {
    Regroup(parts[0], Prefixed(parts[1..]), [close], x);
    Regroup([COMMA], parts[0] + Prefixed(parts[1..]), [close], x);
    assert Prefixed(parts) == [COMMA] + (parts[0] + Prefixed(parts[1..]));
  }

  lemma {:induction false} MembersRestDecodable(a: seq<Json>, b: seq<Json>, x: Text, y: Text)
    requires forall i :: 0 <= i < |a| ==> Valid(a[i])
    requires forall i :: 0 <= i < |b| ==> Valid(b[i])
    requires MembersRest(a, x) == MembersRest(b, y)
    ensures Same(Arr(a), Arr(b)) && x == y
    decreases a, 0
  {
    RestBothEmpty(a, b, x, y);
    MembersStep(a, x);
    MembersStep(b, y);
    if a == [] {
      SplitAt([RBRACKET], [RBRACKET], x, y);
    } else {
      var p, q := MembersRest(a[1..], x), MembersRest(b[1..], y);
      MembersStep(a[1..], x);
      MembersStep(b[1..], y);
      SplitAt([COMMA], [COMMA], Canonical(a[0]) + p, Canonical(b[0]) + q);
      Decodable(a[0], b[0], p, q);
      MembersRestDecodable(a[1..], b[1..], x, y);
      SameCons(a, b);
    }
  }

  function EntryText(e: Entry): Text {
    Quote(e.key) + [COLON] + Canonical(e.value)
  }

  function EntriesRest(s: seq<Entry>, whole: Json, x: Text): Text
    requires Inside(s, whole)
  {
    Prefixed(CanonicalEntries(s, whole)) + [RBRACE] + x
  }

  lemma EntriesStep(s: seq<Entry>, whole: Json, x: Text)
    requires Inside(s, whole)
    ensures Join(CanonicalEntries(s, whole)) + [RBRACE] + x ==
      if s == [] then [RBRACE] + x else EntryText(s[0]) + EntriesRest(s[1..], whole, x)
    ensures EntriesRest(s, whole, x) ==
      if s == [] then [RBRACE] + x else [COMMA] + (EntryText(s[0]) + EntriesRest(s[1..], whole, x))
    ensures Delimited(EntriesRest(s, whole, x))
  {
    if s != [] {
      var parts := CanonicalEntries(s, whole);
      assert parts[1..] == CanonicalEntries(s[1..], whole);
      JoinStep(parts, RBRACE, x);
    }
  }

  lemma {:induction false} EntryDecodable(e: Entry, f: Entry, whole: Json, x: Text, y: Text)
    requires e.value < whole && Valid(e.value) && Valid(f.value) && Delimited(x) && Delimited(y)
    requires EntryText(e) + x == EntryText(f) + y
    ensures e.key == f.key && Same(e.value, f.value) && x == y
    decreases whole, 0
  {
    var p, q := [COLON] + Canonical(e.value) + x, [COLON] + Canonical(f.value) + y;
    Regroup(Quote(e.key), [COLON], Canonical(e.value), x);
    Regroup(Quote(f.key), [COLON], Canonical(f.value), y);
    QuoteDecodable(e.key, f.key, p, q);
    assert Canonical(e.value) + x == p[1..] && Canonical(f.value) + y == q[1..];
    Decodable(e.value, f.value, x, y);
  }

  lemma SamePairsCons(s: seq<Entry>, t: seq<Entry>)
    requires s != [] && t != [] && s[0].key == t[0].key && Same(s[0].value, t[0].value) && SamePairs(s[1..], t[1..])
    ensures SamePairs(s, t)
  {
  }

  lemma EntriesBothEmpty(s: seq<Entry>, t: seq<Entry>, whole: Json, other: Json, x: Text, y: Text)
    requires Inside(s, whole) && Inside(t, other)
    requires Join(CanonicalEntries(s, whole)) + [RBRACE] + x == Join(CanonicalEntries(t, other)) + [RBRACE] + y
    ensures s == [] <==> t == []
  {
    EntriesStep(s, whole, x);
    EntriesStep(t, other, y);
  }

  lemma EntriesRestBothEmpty(s: seq<Entry>, t: seq<Entry>, whole: Json, other: Json, x: Text, y: Text)
    requires Inside(s, whole) && Inside(t, other)
    requires EntriesRest(s, whole, x) == EntriesRest(t, other, y)
    ensures s == [] <==> t == []
  {
    EntriesStep(s, whole, x);
    EntriesStep(t, other, y);
  }

  lemma {:induction false} EntriesDecodable(s: seq<Entry>, t: seq<Entry>, whole: Json, other: Json, x: Text, y: Text)
    requires Inside(s, whole) && Inside(t, other) && ValidEntries(s) && ValidEntries(t)
    requires Join(CanonicalEntries(s, whole)) + [RBRACE] + x == Join(CanonicalEntries(t, other)) + [RBRACE] + y
    ensures SamePairs(s, t) && x == y
    decreases whole, 1, |s|
  {
    EntriesBothEmpty(s, t, whole, other, x, y);
    EntriesStep(s, whole, x);
    EntriesStep(t, other, y);
    if s == [] {
      SplitAt([RBRACE], [RBRACE], x, y);
    } else {
      EntriesStep(s[1..], whole, x);
      EntriesStep(t[1..], other, y);
      EntryDecodable(s[0], t[0], whole, EntriesRest(s[1..], whole, x), EntriesRest(t[1..], other, y));
      EntriesRestDecodable(s[1..], t[1..], whole, other, x, y);
      SamePairsCons(s, t);
    }
  }

  lemma {:induction false} EntriesRestDecodable(s: seq<Entry>, t: seq<Entry>, whole: Json, other: Json, x: Text,
    y: Text)
    requires Inside(s, whole) && Inside(t, other) && ValidEntries(s) && ValidEntries(t)
    requires EntriesRest(s, whole, x) == EntriesRest(t, other, y)
    ensures SamePairs(s, t) && x == y
    decreases whole, 1, |s|
  {
    EntriesRestBothEmpty(s, t, whole, other, x, y);
    EntriesStep(s, whole, x);
    EntriesStep(t, other, y);
    if s == [] {
      SplitAt([RBRACE], [RBRACE], x, y);
    } else {
      var p, q := EntriesRest(s[1..], whole, x), EntriesRest(t[1..], other, y);
      EntriesStep(s[1..], whole, x);
      EntriesStep(t[1..], other, y);
      SplitAt([COMMA], [COMMA], EntryText(s[0]) + p, EntryText(t[0]) + q);
      EntryDecodable(s[0], t[0], whole, p, q);
      EntriesRestDecodable(s[1..], t[1..], whole, other, x, y);
      SamePairsCons(s, t);
    }
  }

  /** The same value prints the same text, in whatever order its object keys were inserted. */
  lemma {:induction false} SamePrintsAlike(a: Json, b: Json)
    requires Valid(a) && Valid(b) && Same(a, b)
    ensures Canonical(a) == Canonical(b)
    decreases a, 1
  {
    match (a, b) {
      case (Arr(ms), Arr(ns)) => MembersPrintAlike(ms, ns);
      case (Obj(es), Obj(fs)) =>
        SameSorts(es, fs);
        ValidSorted(es);
        ValidSorted(fs);
        SortedEntriesAreInside(es, a);
        SortedEntriesAreInside(fs, b);
        EntriesPrintAlike(SortByKey(es), SortByKey(fs), a, b);
      case _ =>
    }
  }

  lemma SameEntrySorted(e: Entry, fs: seq<Entry>)
    requires SameEntry(e, fs)
    ensures SameEntry(e, SortByKey(fs)) && HasKey(SortByKey(fs), e.key)
  {
    var j :| 0 <= j < |fs| && fs[j].key == e.key && Same(e.value, fs[j].value);
    SortKeepsEntries(fs, fs[j]);
    var t := SortByKey(fs);
    var m :| 0 <= m < |t| && t[m] == fs[j];
  }

  /** The same object sorts to pairwise the same entries. */
  lemma SameSorts(es: seq<Entry>, fs: seq<Entry>)
    requires UniqueKeys(es) && UniqueKeys(fs) && Same(Obj(es), Obj(fs))
    ensures SamePairs(SortByKey(es), SortByKey(fs))
  {
    SortSorts(es);
    SortSorts(fs);
    var s, t := SortByKey(es), SortByKey(fs);
    forall i | 0 <= i < |s| ensures SameEntry(s[i], t) && HasKey(t, s[i].key) {
      SortKeepsEntries(es, s[i]);
      var k :| 0 <= k < |es| && es[k] == s[i];
      SameEntrySorted(es[k], fs);
    }
    SortedUnique(s, t);
    forall i | 0 <= i < |s| ensures Same(s[i].value, t[i].value) {
      SameAtKey(s[i], t, i);
    }
  }

  lemma SameAtKey(e: Entry, t: seq<Entry>, i: nat)
    requires Sorted(t) && i < |t| && t[i].key == e.key && SameEntry(e, t)
    ensures Same(e.value, t[i].value)
  {
    var j :| 0 <= j < |t| && t[j].key == e.key && Same(e.value, t[j].value);
    LessTotal(t[i].key, t[j].key);
  }

  lemma {:induction false} MembersPrintAlike(a: seq<Json>, b: seq<Json>)
    requires forall i :: 0 <= i < |a| ==> Valid(a[i])
    requires forall i :: 0 <= i < |b| ==> Valid(b[i])
    requires |a| == |b| && forall i :: 0 <= i < |a| ==> Same(a[i], b[i])
    ensures CanonicalMembers(a) == CanonicalMembers(b)
    decreases a, 0
  {
    if a != [] {
      SamePrintsAlike(a[0], b[0]);
      MembersPrintAlike(a[1..], b[1..]);
    }
  }

  lemma {:induction false} EntriesPrintAlike(s: seq<Entry>, t: seq<Entry>, whole: Json, other: Json)
    requires Inside(s, whole) && Inside(t, other) && ValidEntries(s) && ValidEntries(t) && SamePairs(s, t)
    ensures CanonicalEntries(s, whole) == CanonicalEntries(t, other)
    decreases whole, 0, |s|
  {
    if s != [] {
      SamePrintsAlike(s[0].value, t[0].value);
      EntriesPrintAlike(s[1..], t[1..], whole, other);
    }
  }

  /** Canonical text is a complete invariant of the value: equal texts exactly for the same value. */
  lemma CanonicalInjective(a: Json, b: Json)
    requires Valid(a) && Valid(b)
    ensures Canonical(a) == Canonical(b) <==> Same(a, b)
  {
    if Canonical(a) == Canonical(b) {
      Decodable(a, b, [], []);
    }
    if Same(a, b) {
      SamePrintsAlike(a, b);
    }
  }
}

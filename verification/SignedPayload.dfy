/** The bytes a device signs (gateway/src/device-crypto.ts), and why they bind the whole envelope. */
module SignedPayload {
  import opened Common
  import opened CanonicalJson
  import opened CanonicalJsonInjective

  type Byte = b: int | 0 <= b < 256

  /** ASCII literals as code units. */
  function Ascii(s: string): Text {
    seq(|s|, i requires 0 <= i < |s| => (s[i] as int) % 128)
  }

  const SIGNATURE_DOMAIN: Text := Ascii("foldweave-device-envelope-signature.v1") + [0]
  const DEVICE_ENVELOPE_SCHEMA: Text := Ascii("foldweave-device-envelope.v1")
  const REPLACEMENT: int := 0xFFFD

  // ----- UTF-8 as TextEncoder writes it -----

  /** How many continuation bytes a code point takes. */
  function Extra(c: nat): nat {
    if c < 0x80 then 0 else if c < 0x800 then 1 else if c < 0x10000 then 2 else 3
  }

  function Lead(c: nat, n: nat): nat {
    if n == 0 then c else Lead(c / 64, n - 1)
  }

  function Marker(n: nat): nat {
    if n == 0 then 0 else if n == 1 then 0xC0 else if n == 2 then 0xE0 else 0xF0
  }

  function Continuation(c: nat, n: nat): seq<Byte> {
    if n == 0 then [] else Continuation(c / 64, n - 1) + [0x80 + c % 64]
  }

  lemma LeadBound(c: nat)
    requires c < 0x110000
    ensures Lead(c, Extra(c)) <
      if Extra(c) == 0 then 0x80 else if Extra(c) == 1 then 0x20 else if Extra(c) == 2 then 0x10 else 0x08
  {
    assert Lead(c, 1) == c / 64;
    assert Lead(c, 2) == Lead(c / 64, 1) == c / 64 / 64;
    assert Lead(c, 3) == Lead(c / 64, 2) == Lead(c / 64 / 64, 1) == c / 64 / 64 / 64;
  }

  function EncodePoint(c: nat): seq<Byte>
    requires c < 0x110000
  {
    LeadBound(c);
    [Marker(Extra(c)) + Lead(c, Extra(c))] + Continuation(c, Extra(c))
  }

  function PairPoint(high: CodeUnit, low: CodeUnit): (c: int)
    requires IsHigh(high) && IsLow(low)
  {
    0x10000 + (high - 0xD800) * 0x400 + (low - 0xDC00)
  }

  function Utf8(t: Text): seq<Byte> {
    if t == [] then []
    else if StartsWithPair(t) then EncodePoint(PairPoint(t[0], t[1])) + Utf8(t[2..])
    else EncodePoint(if IsSurrogate(t[0]) then REPLACEMENT else t[0]) + Utf8(t[1..])
  }

  /** No surrogate stands alone. */
  ghost predicate WellFormed(t: Text) {
    t == [] || (StartsWithPair(t) && WellFormed(t[2..])) || (!IsSurrogate(t[0]) && WellFormed(t[1..]))
  }

  lemma {:induction false} PointBytesInjective(c: nat, d: nat, n: nat)
    requires Lead(c, n) == Lead(d, n) && Continuation(c, n) == Continuation(d, n)
    ensures c == d
    decreases n
  {
    if n > 0 {
      var s, t := Continuation(c, n), Continuation(d, n);
      assert s[..|s| - 1] == Continuation(c / 64, n - 1) && t[..|t| - 1] == Continuation(d / 64, n - 1);
      PointBytesInjective(c / 64, d / 64, n - 1);
      assert s[|s| - 1] == 0x80 + c % 64 && t[|t| - 1] == 0x80 + d % 64;
    }
  }

  lemma {:induction false} ContinuationLength(c: nat, n: nat)
    ensures |Continuation(c, n)| == n
    decreases n
  {
    if n > 0 {
      ContinuationLength(c / 64, n - 1);
    }
  }

  lemma PointDecodable(c: nat, d: nat, x: seq<Byte>, y: seq<Byte>)
    requires c < 0x110000 && d < 0x110000 && EncodePoint(c) + x == EncodePoint(d) + y
    ensures c == d && x == y
  {
    LeadBound(c);
    LeadBound(d);
    ContinuationLength(c, Extra(c));
    ContinuationLength(d, Extra(d));
    var s, t := EncodePoint(c), EncodePoint(d);
    assert (s + x)[0] == s[0] && (t + y)[0] == t[0];
    assert Extra(c) == Extra(d);
    assert s == (s + x)[..|s|] && t == (t + y)[..|s|];
    assert x == (s + x)[|s|..] && y == (t + y)[|s|..];
    assert s[1..] == Continuation(c, Extra(c)) && t[1..] == Continuation(d, Extra(d));
    PointBytesInjective(c, d, Extra(c));
  }

  lemma PairPointInjective(h: CodeUnit, l: CodeUnit, h': CodeUnit, l': CodeUnit)
    requires IsHigh(h) && IsLow(l) && IsHigh(h') && IsLow(l')
    requires PairPoint(h, l) == PairPoint(h', l')
    ensures h == h' && l == l'
  {
  }

  /** UTF-8 loses nothing of well-formed text. */
  lemma {:induction false} Utf8Injective(a: Text, b: Text)
    requires WellFormed(a) && WellFormed(b) && Utf8(a) == Utf8(b)
    ensures a == b
  {
    if a != [] && b != [] {
      var c := if StartsWithPair(a) then PairPoint(a[0], a[1]) else a[0];
      var d := if StartsWithPair(b) then PairPoint(b[0], b[1]) else b[0];
      var m, n := if StartsWithPair(a) then 2 else 1, if StartsWithPair(b) then 2 else 1;
      PointDecodable(c, d, Utf8(a[m..]), Utf8(b[n..]));
      assert m == n;
      Utf8Injective(a[m..], b[n..]);
      if m == 2 {
        PairPointInjective(a[0], a[1], b[0], b[1]);
      }
      assert a == a[..m] + a[m..] && b == b[..n] + b[n..];
    }
  }

  // ----- canonical text is well formed -----

  lemma {:induction false} WellFormedAppend(a: Text, b: Text)
    requires WellFormed(a) && WellFormed(b)
    ensures WellFormed(a + b)
  {
    if a == [] {
      assert a + b == b;
    } else if StartsWithPair(a) {
      assert (a + b)[2..] == a[2..] + b;
      WellFormedAppend(a[2..], b);
    } else {
      assert (a + b)[1..] == a[1..] + b;
      WellFormedAppend(a[1..], b);
    }
  }

  lemma {:induction false} PlainWellFormed(a: Text)
    requires forall i :: 0 <= i < |a| ==> !IsSurrogate(a[i])
    ensures WellFormed(a)
  {
    if a != [] {
      PlainWellFormed(a[1..]);
    }
  }

  lemma {:induction false} HexPlain(u: nat, width: nat)
    ensures forall i :: 0 <= i < |Hex(u, width)| ==> !IsSurrogate(Hex(u, width)[i])
    decreases width
  {
    if width > 0 {
      HexPlain(u / 16, width - 1);
    }
  }

  lemma {:induction false} EscapeWellFormed(s: Text)
    ensures WellFormed(Escape(s))
  {
    if s != [] {
      if StartsWithPair(s) {
        EscapeWellFormed(s[2..]);
        assert WellFormed(s[..2]) by {
          assert s[..2][2..] == [];
        }
        WellFormedAppend(s[..2], Escape(s[2..]));
      } else {
        EscapeWellFormed(s[1..]);
        HexPlain(s[0], 4);
        PlainWellFormed(EscapeUnit(s[0]));
        WellFormedAppend(EscapeUnit(s[0]), Escape(s[1..]));
      }
    }
  }

  /** Plain characters on both sides do not disturb well-formedness. */
  lemma Wrap(open: CodeUnit, t: Text, close: CodeUnit)
    requires WellFormed(t) && !IsSurrogate(open) && !IsSurrogate(close)
    ensures WellFormed([open] + t + [close]) && WellFormed([open] + t)
  {
    PlainWellFormed([open]);
    PlainWellFormed([close]);
    WellFormedAppend([open], t);
    WellFormedAppend([open] + t, [close]);
  }

  lemma QuoteWellFormed(s: Text)
    ensures WellFormed(Quote(s))
  {
    EscapeWellFormed(s);
    Wrap(QUOTE, Escape(s), QUOTE);
  }

  lemma PrefixedIs(parts: seq<Text>)
    requires parts != []
    ensures Prefixed(parts) == [COMMA] + Join(parts) && Join(parts) == parts[0] + Prefixed(parts[1..])
  {
  }

  lemma {:induction false} JoinWellFormed(parts: seq<Text>)
    requires forall i :: 0 <= i < |parts| ==> WellFormed(parts[i])
    ensures WellFormed(Prefixed(parts)) && WellFormed(Join(parts))
  {
    if parts != [] {
      var tail := Prefixed(parts[1..]);
      JoinWellFormed(parts[1..]);
      WellFormedAppend(parts[0], tail);
      Wrap(COMMA, parts[0] + tail, COMMA);
      PrefixedIs(parts);
    }
  }

  lemma {:induction false} CanonicalWellFormed(v: Json)
    ensures WellFormed(Canonical(v))
    decreases v, 1
  {
    match v {
      case Null => PlainWellFormed(NULL_TEXT);
      case Bool(b) => PlainWellFormed(Canonical(v));
      case Num(n) =>
        DigitsRoundTrip(if n < 0 then -n else n);
        PlainWellFormed(Decimal(n));
      case Str(s) => QuoteWellFormed(s);
      case Arr(members) =>
        MembersWellFormed(members);
        JoinWellFormed(CanonicalMembers(members));
        Wrap(LBRACKET, Join(CanonicalMembers(members)), RBRACKET);
      case Obj(entries) =>
        var s := SortByKey(entries);
        SortedEntriesAreInside(entries, v);
        EntriesWellFormed(s, v);
        JoinWellFormed(CanonicalEntries(s, v));
        Wrap(LBRACE, Join(CanonicalEntries(s, v)), RBRACE);
    }
  }

  lemma {:induction false} MembersWellFormed(members: seq<Json>)
    ensures forall i :: 0 <= i < |CanonicalMembers(members)| ==> WellFormed(CanonicalMembers(members)[i])
    decreases members, 0
  {
    if members != [] {
      CanonicalWellFormed(members[0]);
      MembersWellFormed(members[1..]);
    }
  }

  lemma {:induction false} EntriesWellFormed(s: seq<Entry>, whole: Json)
    requires Inside(s, whole)
    ensures forall i :: 0 <= i < |CanonicalEntries(s, whole)| ==> WellFormed(CanonicalEntries(s, whole)[i])
    decreases whole, 0, |s|
  {
    if s != [] {
      QuoteWellFormed(s[0].key);
      CanonicalWellFormed(s[0].value);
      WellFormedAppend(Quote(s[0].key), [COLON]);
      WellFormedAppend(Quote(s[0].key) + [COLON], Canonical(s[0].value));
      EntriesWellFormed(s[1..], whole);
    }
  }

  // ----- the signed payload -----

  datatype Envelope = Envelope(
    body: Json,
    bodyDigest: Text,
    expiresAt: int,
    issuedAt: int,
    nonce: Text,
    requestId: Text,
    sequence: int)

  function PayloadEntries(e: Envelope): seq<Entry> {
    [ Entry(Ascii("body"), e.body),
      Entry(Ascii("bodyDigest"), Str(e.bodyDigest)),
      Entry(Ascii("expiresAt"), Num(e.expiresAt)),
      Entry(Ascii("issuedAt"), Num(e.issuedAt)),
      Entry(Ascii("nonce"), Str(e.nonce)),
      Entry(Ascii("requestId"), Str(e.requestId)),
      Entry(Ascii("schemaVersion"), Str(DEVICE_ENVELOPE_SCHEMA)),
      Entry(Ascii("sequence"), Num(e.sequence)) ]
  }

  function SignaturePayload(e: Envelope): seq<Byte> {
    Utf8(SIGNATURE_DOMAIN + Canonical(Obj(PayloadEntries(e))))
  }

  lemma PayloadKeysUnique(e: Envelope)
    ensures UniqueKeys(PayloadEntries(e))
  {
    var es := PayloadEntries(e);
    assert |es[0].key| == 4 && |es[1].key| == 10 && |es[2].key| == 9 && |es[3].key| == 8;
    assert |es[4].key| == 5 && |es[5].key| == 9 && |es[6].key| == 13 && |es[7].key| == 8;
    assert es[2].key[0] != es[5].key[0] && es[3].key[0] != es[7].key[0];
  }

  lemma PayloadValid(e: Envelope)
    requires Valid(e.body)
    ensures Valid(Obj(PayloadEntries(e)))
  {
    PayloadKeysUnique(e);
    var es := PayloadEntries(e);
    assert forall i :: 1 <= i < 8 ==> es[i].value.Str? || es[i].value.Num?;
  }

  /** With the same keys in the same places, objects are compared place by place. */
  lemma SameByPosition(es: seq<Entry>, fs: seq<Entry>)
    requires |es| == |fs| && UniqueKeys(fs)
    requires forall i :: 0 <= i < |es| ==> es[i].key == fs[i].key
    ensures Same(Obj(es), Obj(fs)) <==> forall i :: 0 <= i < |es| ==> Same(es[i].value, fs[i].value)
  {
  }

  lemma FieldsAgree(e: Envelope, f: Envelope)
    ensures (forall i :: 0 <= i < 8 ==> Same(PayloadEntries(e)[i].value, PayloadEntries(f)[i].value))
      <==> Same(e.body, f.body) && e.(body := f.body) == f
  {
    var es, fs := PayloadEntries(e), PayloadEntries(f);
    assert es[0].value == e.body && es[1].value == Str(e.bodyDigest) && es[2].value == Num(e.expiresAt);
    assert es[3].value == Num(e.issuedAt) && es[4].value == Str(e.nonce) && es[5].value == Str(e.requestId);
    assert es[7].value == Num(e.sequence);
  }

  lemma PayloadSame(e: Envelope, f: Envelope)
    ensures Same(Obj(PayloadEntries(e)), Obj(PayloadEntries(f))) <==> Same(e.body, f.body) && e.(body := f.body) == f
  {
    PayloadKeysUnique(f);
    SameByPosition(PayloadEntries(e), PayloadEntries(f));
    FieldsAgree(e, f);
  }

  /** Equal bytes come from equal canonical texts only. */
  lemma PayloadBytesInjective(a: Json, b: Json)
    requires Utf8(SIGNATURE_DOMAIN + Canonical(a)) == Utf8(SIGNATURE_DOMAIN + Canonical(b))
    ensures Canonical(a) == Canonical(b)
  {
    PlainWellFormed(SIGNATURE_DOMAIN);
    CanonicalWellFormed(a);
    CanonicalWellFormed(b);
    WellFormedAppend(SIGNATURE_DOMAIN, Canonical(a));
    WellFormedAppend(SIGNATURE_DOMAIN, Canonical(b));
    Utf8Injective(SIGNATURE_DOMAIN + Canonical(a), SIGNATURE_DOMAIN + Canonical(b));
    SplitAt(SIGNATURE_DOMAIN, SIGNATURE_DOMAIN, Canonical(a), Canonical(b));
  }

  /** What a signature covers: every field of the envelope, and its body up to the order of object keys. */
  lemma SignaturePayloadBindsEnvelope(e: Envelope, f: Envelope)
    requires Valid(e.body) && Valid(f.body)
    ensures SignaturePayload(e) == SignaturePayload(f) <==> Same(e.body, f.body) && e.(body := f.body) == f
  {
    var a, b := Obj(PayloadEntries(e)), Obj(PayloadEntries(f));
    PayloadValid(e);
    PayloadValid(f);
    CanonicalInjective(a, b);
    PayloadSame(e, f);
    if SignaturePayload(e) == SignaturePayload(f) {
      PayloadBytesInjective(a, b);
    }
  }

}

/**
What can be read out of the bytes a device signs: a UTF-8 decoder (section 3 of RFC 3629) written apart from the
encoder gives the signed text back, and a JSON reader finds every field of the envelope in it under its name.
*/
module SignedBytes {
  import opened Common
  import opened CanonicalJson
  import opened CanonicalJsonInjective
  import opened SignedPayload
  import R = JsonReader

  // ----- the decoder -----

  /** The six bits of a continuation byte. */
  function Six(b: Byte): Option<int> {
    if 0x80 <= b < 0xC0 then Some(b - 0x80) else None
  }

  /** One code point and the bytes after it. */
  function ReadPoint(b: seq<Byte>): (r: Option<(int, seq<Byte>)>)
    ensures r.Some? ==> |r.value.1| < |b|
  {
    if b == [] then None
    else if b[0] < 0x80 then Some((b[0], b[1..]))
    else if 0xC0 <= b[0] < 0xE0 && |b| >= 2 then
      var x := Six(b[1]);
      if x.None? then None else Some((64 * (b[0] - 0xC0) + x.value, b[2..]))
    else if 0xE0 <= b[0] < 0xF0 && |b| >= 3 then
      var x, y := Six(b[1]), Six(b[2]);
      if x.None? || y.None? then None else Some((4096 * (b[0] - 0xE0) + 64 * x.value + y.value, b[3..]))
    else if 0xF0 <= b[0] < 0xF8 && |b| >= 4 then
      var x, y, z := Six(b[1]), Six(b[2]), Six(b[3]);
      if x.None? || y.None? || z.None? then None
      else Some((262144 * (b[0] - 0xF0) + 4096 * x.value + 64 * y.value + z.value, b[4..]))
    else None
  }

  /** A code point as UTF-16 code units (section 2.1 of RFC 2781). */
  function Units(c: int): Option<Text> {
    if 0 <= c < 0x10000 then Some([c])
    else if 0x10000 <= c < 0x110000 then Some([0xD800 + (c - 0x10000) / 0x400, 0xDC00 + (c - 0x10000) % 0x400])
    else None
  }

  function Decode(b: seq<Byte>): Option<Text>
    decreases |b|
  {
    if b == [] then Some([])
    else
      var p := ReadPoint(b);
      if p.None? || Units(p.value.0).None? then None
      else
        match Decode(p.value.1)
        case None => None
        case Some(rest) => Some(Units(p.value.0).value + rest)
  }

  // ----- it reads back what the encoder wrote -----

  lemma ContinuationStep(c: nat, n: nat)
    ensures Continuation(c, n + 1) == Continuation(c / 64, n) + [0x80 + c % 64]
  {
  }

  lemma LeadStep(c: nat, n: nat)
    ensures Lead(c, n + 1) == Lead(c / 64, n)
  {
  }

  /** The bytes of a code point, one to four of them. */
  lemma PointBytes(c: nat)
    requires c < 0x110000
    ensures EncodePoint(c) ==
      if c < 0x80 then [c]
      else if c < 0x800 then [0xC0 + c / 64, 0x80 + c % 64]
      else if c < 0x10000 then [0xE0 + c / 64 / 64, 0x80 + c / 64 % 64, 0x80 + c % 64]
      else [0xF0 + c / 64 / 64 / 64, 0x80 + c / 64 / 64 % 64, 0x80 + c / 64 % 64, 0x80 + c % 64]
  {
    LeadBound(c);
    if c >= 0x80 {
      ContinuationStep(c, Extra(c) - 1);
      LeadStep(c, Extra(c) - 1);
    }
    if c >= 0x800 {
      ContinuationStep(c / 64, Extra(c) - 2);
      LeadStep(c / 64, Extra(c) - 2);
    }
    if c >= 0x10000 {
      ContinuationStep(c / 64 / 64, 0);
      LeadStep(c / 64 / 64, 0);
    }
  }

  lemma PointReads(c: nat, rest: seq<Byte>)
    requires c < 0x110000
    ensures ReadPoint(EncodePoint(c) + rest) == Some((c, rest))
  {
    PointBytes(c);
    var b := EncodePoint(c) + rest;
    assert b[|EncodePoint(c)|..] == rest;
    if c >= 0x10000 {
      assert c == 262144 * (c / 64 / 64 / 64) + 4096 * (c / 64 / 64 % 64) + 64 * (c / 64 % 64) + c % 64;
    } else if c >= 0x800 {
      assert c == 4096 * (c / 64 / 64) + 64 * (c / 64 % 64) + c % 64;
    }
  }

  lemma PairUnits(high: CodeUnit, low: CodeUnit)
    requires IsHigh(high) && IsLow(low)
    ensures Units(PairPoint(high, low)) == Some([high, low])
  {
  }

  lemma DecodeStep(c: nat, rest: seq<Byte>, units: Text, text: Text)
    requires c < 0x110000 && Units(c) == Some(units) && Decode(rest) == Some(text)
    ensures Decode(EncodePoint(c) + rest) == Some(units + text)
  {
    PointReads(c, rest);
  }

  /** UTF-8 of well-formed text decodes to the text. */
  lemma {:induction false} DecodesBack(t: Text)
    requires WellFormed(t)
    ensures Decode(Utf8(t)) == Some(t)
  {
    if t != [] {
      if StartsWithPair(t) {
        DecodesBack(t[2..]);
        PairUnits(t[0], t[1]);
        DecodeStep(PairPoint(t[0], t[1]), Utf8(t[2..]), [t[0], t[1]], t[2..]);
        assert t == [t[0], t[1]] + t[2..];
      } else {
        DecodesBack(t[1..]);
        DecodeStep(t[0], Utf8(t[1..]), [t[0]], t[1..]);
        assert t == [t[0]] + t[1..];
      }
    }
  }

  // ----- the fields of the envelope -----

  ghost predicate HasField(v: Json, name: string, value: Json) {
    v.Obj? && exists j :: 0 <= j < |v.entries| && v.entries[j].key == Ascii(name) && Same(value, v.entries[j].value)
  }

  /** The object holds the eight fields of the envelope, each under its name, and nothing else. */
  ghost predicate DescribesEnvelope(v: Json, e: Envelope) {
    && v.Obj? && |v.entries| == 8
    && HasField(v, "body", e.body) && HasField(v, "bodyDigest", Str(e.bodyDigest))
    && HasField(v, "expiresAt", Num(e.expiresAt)) && HasField(v, "issuedAt", Num(e.issuedAt))
    && HasField(v, "nonce", Str(e.nonce)) && HasField(v, "requestId", Str(e.requestId))
    && HasField(v, "schemaVersion", Str(Ascii("foldweave-device-envelope.v1")))
    && HasField(v, "sequence", Num(e.sequence))
  }

  lemma EntryIsField(es: seq<Entry>, v: Json, i: nat, name: string, value: Json)
    requires Same(Obj(es), v) && i < |es| && es[i] == Entry(Ascii(name), value)
    ensures HasField(v, name, value)
  {
    assert SameEntry(es[i], v.entries);
  }

  lemma PayloadDescribes(e: Envelope, v: Json)
    requires Same(Obj(PayloadEntries(e)), v)
    ensures DescribesEnvelope(v, e)
  {
    EarlyFields(e, v);
    LateFields(e, v);
  }

  lemma EarlyFields(e: Envelope, v: Json)
    requires Same(Obj(PayloadEntries(e)), v)
    ensures HasField(v, "body", e.body) && HasField(v, "bodyDigest", Str(e.bodyDigest))
    ensures HasField(v, "expiresAt", Num(e.expiresAt)) && HasField(v, "issuedAt", Num(e.issuedAt))
  {
    var es := PayloadEntries(e);
    EntryIsField(es, v, 0, "body", e.body);
    EntryIsField(es, v, 1, "bodyDigest", Str(e.bodyDigest));
    EntryIsField(es, v, 2, "expiresAt", Num(e.expiresAt));
    EntryIsField(es, v, 3, "issuedAt", Num(e.issuedAt));
  }

  lemma LateFields(e: Envelope, v: Json)
    requires Same(Obj(PayloadEntries(e)), v)
    ensures HasField(v, "nonce", Str(e.nonce)) && HasField(v, "requestId", Str(e.requestId))
    ensures HasField(v, "schemaVersion", Str(Ascii("foldweave-device-envelope.v1")))
    ensures HasField(v, "sequence", Num(e.sequence))
  {
    var es := PayloadEntries(e);
    EntryIsField(es, v, 4, "nonce", Str(e.nonce));
    EntryIsField(es, v, 5, "requestId", Str(e.requestId));
    EntryIsField(es, v, 6, "schemaVersion", Str(Ascii("foldweave-device-envelope.v1")));
    EntryIsField(es, v, 7, "sequence", Num(e.sequence));
  }

  /**
  Whoever holds the signed bytes can read the envelope out of them: the signature's own domain, a zero, and a JSON
  object with its fields.
  */
  lemma SignedBytesRead(e: Envelope)
    requires Valid(e.body)
    ensures
      var domain := Ascii("foldweave-device-envelope-signature.v1") + [0];
      var text := Decode(SignaturePayload(e));
      && text.Some? && domain <= text.value
      && var read := R.Parse(text.value[|domain|..]);
        read.Some? && DescribesEnvelope(read.value, e)
  {
    var v := Obj(PayloadEntries(e));
    var domain := Ascii("foldweave-device-envelope-signature.v1") + [0];
    PlainWellFormed(domain);
    CanonicalWellFormed(v);
    WellFormedAppend(domain, Canonical(v));
    DecodesBack(domain + Canonical(v));
    assert (domain + Canonical(v))[|domain|..] == Canonical(v);
    PayloadValid(e);
    R.CanonicalReadsBack(v);
    PayloadDescribes(e, R.Parse(Canonical(v)).value);
  }
}

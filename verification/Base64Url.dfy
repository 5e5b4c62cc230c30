/**
Unpadded base64url (section 5 of RFC 4648) as the gateway writes and reads it through the platform's
padded standard codec (gateway/src/canonical.ts), and as the companion does in Python
(src/name_atlas/foldweave_companion.py).
*/
module Base64Url {
  import opened Common
  import opened Constants

  type Byte = b: int | 0 <= b < 256 witness 0

  type Sextet = s: int | 0 <= s < 64 witness 0

  // ----- the two alphabets -----

  function StandardChar(v: Sextet): char {
    if v < 26 then ('A' as int + v) as char
    else if v < 52 then ('a' as int + (v - 26)) as char
    else if v < 62 then ('0' as int + (v - 52)) as char
    else if v == 62 then '+' else '/'
  }

  function StandardValue(c: char): Option<Sextet> {
    if 'A' <= c <= 'Z' then Some(c as int - 'A' as int)
    else if 'a' <= c <= 'z' then Some(c as int - 'a' as int + 26)
    else if '0' <= c <= '9' then Some(c as int - '0' as int + 52)
    else if c == '+' then Some(62) else if c == '/' then Some(63) else None
  }

  function UrlChar(v: Sextet): char {
    if v == 62 then '-' else if v == 63 then '_' else StandardChar(v)
  }

  function UrlValue(c: char): Option<Sextet> {
    if c == '-' then Some(62) else if c == '_' then Some(63)
    else if c == '+' || c == '/' then None else StandardValue(c)
  }

  // ----- the platform's padded codec -----

  /** Three bytes as four sextets; missing bytes read as zero. */
  function Group(a: Byte, b: Byte, c: Byte): (Sextet, Sextet, Sextet, Sextet) {
    (a / 4, a % 4 * 16 + b / 16, b % 16 * 4 + c / 64, c % 64)
  }

  function Ungroup(p: Sextet, q: Sextet, r: Sextet, s: Sextet): (Byte, Byte, Byte) {
    (p * 4 + q / 16, q % 16 * 16 + r / 4, r % 4 * 64 + s)
  }

  function StandardText(sextets: seq<Sextet>): string {
    if sextets == [] then "" else [StandardChar(sextets[0])] + StandardText(sextets[1..])
  }

  function Btoa(bytes: seq<Byte>): string {
    if bytes == [] then ""
    else if |bytes| == 1 then
      var g := Group(bytes[0], 0, 0);
      StandardText([g.0, g.1]) + "=="
    else if |bytes| == 2 then
      var g := Group(bytes[0], bytes[1], 0);
      StandardText([g.0, g.1, g.2]) + "="
    else
      var g := Group(bytes[0], bytes[1], bytes[2]);
      StandardText([g.0, g.1, g.2, g.3]) + Btoa(bytes[3..])
  }

  /** Complete groups, then what a shorter last group determines; left-over bits are dropped. */
  function Unpack(sextets: seq<Sextet>): seq<Byte> {
    if |sextets| < 2 then []
    else if |sextets| == 2 then [Ungroup(sextets[0], sextets[1], 0, 0).0]
    else if |sextets| == 3 then
      var u := Ungroup(sextets[0], sextets[1], sextets[2], 0);
      [u.0, u.1]
    else
      var u := Ungroup(sextets[0], sextets[1], sextets[2], sextets[3]);
      [u.0, u.1, u.2] + Unpack(sextets[4..])
  }

  predicate AllStandard(s: string) {
    forall i :: 0 <= i < |s| ==> StandardValue(s[i]).Some?
  }

  function StandardSextets(s: string): seq<Sextet>
    requires AllStandard(s)
  {
    if s == "" then [] else [StandardValue(s[0]).value] + StandardSextets(s[1..])
  }

  /** At most two padding characters, and only from a text whose length is a multiple of four. */
  function Unpad(s: string): string {
    if s == "" || |s| % 4 != 0 || s[|s| - 1] != '=' then s
    else if s[|s| - 2] != '=' then s[..|s| - 1]
    else s[..|s| - 2]
  }

  function Atob(s: string): Option<seq<Byte>> {
    var t := Unpad(s);
    if |t| % 4 == 1 || !AllStandard(t) then None else Some(Unpack(StandardSextets(t)))
  }

  // ----- the gateway's functions -----

  function ReplaceAll(s: string, a: char, b: char): string {
    if s == "" then "" else [if s[0] == a then b else s[0]] + ReplaceAll(s[1..], a, b)
  }

  function StripEquals(s: string): string {
    if s != "" && s[|s| - 1] == '=' then StripEquals(s[..|s| - 1]) else s
  }

  function Encode(bytes: seq<Byte>): string {
    StripEquals(ReplaceAll(ReplaceAll(Btoa(bytes), '+', '-'), '/', '_'))
  }

  /** A binary string: one character per byte. */
  predicate Binary(s: string) {
    forall i :: 0 <= i < |s| ==> s[i] as int < 256
  }

  function CharCodes(s: string): seq<Byte>
    requires Binary(s)
  {
    if s == "" then [] else CharCodes(s[..|s| - 1]) + [s[|s| - 1] as int]
  }

  predicate AllUrl(s: string) {
    forall i :: 0 <= i < |s| ==> UrlValue(s[i]).Some?
  }

  /** Padding to the next multiple of four. */
  function PadEnd(s: string): string {
    s + match |s| % 4 case 0 => "" case 1 => "===" case 2 => "==" case _ => "="
  }

  function Base64UrlToBytes(value: string): Option<seq<Byte>> {
    if value == "" || !AllUrl(value) then None
    else Atob(PadEnd(ReplaceAll(ReplaceAll(value, '-', '+'), '_', '/')))
  }

  /** The response parser's check: decodable, and re-encoding gives the same text. */
  function GatewayDecode(value: string): Option<seq<Byte>> {
    var bytes := Base64UrlToBytes(value);
    if bytes.Some? && Encode(bytes.value) == value then bytes else None
  }

  /**
  The companion's decoder: pad, translate the URL characters, validate as standard characters followed
  by at most two padding characters, decode, and require the same text back.
  */
  function CompanionDecode(value: string): Option<seq<Byte>> {
    if exists i :: 0 <= i < |value| && value[i] as int >= 128 then None
    else
      var padded := ReplaceAll(ReplaceAll(PadEnd(value), '-', '+'), '_', '/');
      var body := Unpad(padded);
      if !AllStandard(body) || |body| % 4 == 1 then None
      else
        var bytes := Unpack(StandardSextets(body));
        if Encode(bytes) == value then Some(bytes) else None
  }
}

/** What the codec guarantees. */
module Base64UrlLaws {
  import opened Common
  import opened Constants
  import opened Base64Url

  // ----- a direct definition of the encoding -----

  function Sextets(bytes: seq<Byte>): seq<Sextet> {
    if bytes == [] then []
    else if |bytes| == 1 then var g := Group(bytes[0], 0, 0); [g.0, g.1]
    else if |bytes| == 2 then var g := Group(bytes[0], bytes[1], 0); [g.0, g.1, g.2]
    else var g := Group(bytes[0], bytes[1], bytes[2]); [g.0, g.1, g.2, g.3] + Sextets(bytes[3..])
  }

  function UrlText(sextets: seq<Sextet>): string {
    if sextets == [] then "" else [UrlChar(sextets[0])] + UrlText(sextets[1..])
  }

  function UrlSextets(s: string): seq<Sextet>
    requires AllUrl(s)
  {
    if s == "" then [] else [UrlValue(s[0]).value] + UrlSextets(s[1..])
  }

  lemma Join4(x: int, y: int)
    requires 0 <= y < 4
    ensures (x * 4 + y) / 4 == x && (x * 4 + y) % 4 == y
  {
  }

  lemma Join16(x: int, y: int)
    requires 0 <= y < 16
    ensures (x * 16 + y) / 16 == x && (x * 16 + y) % 16 == y
  {
  }

  lemma Join64(x: int, y: int)
    requires 0 <= y < 64
    ensures (x * 64 + y) / 64 == x && (x * 64 + y) % 64 == y
  {
  }

  lemma GroupInverse(a: Byte, b: Byte, c: Byte)
    ensures var g := Group(a, b, c); Ungroup(g.0, g.1, g.2, g.3) == (a, b, c)
  {
    Join16(a % 4, b / 16);
    Join4(b % 16, c / 64);
  }

  lemma UngroupInverse(p: Sextet, q: Sextet, r: Sextet, s: Sextet)
    ensures var u := Ungroup(p, q, r, s); Group(u.0, u.1, u.2) == (p, q, r, s)
  {
    Join4(p, q / 16);
    Join16(q % 16, r / 4);
    Join64(r % 4, s);
  }

  lemma UrlCharInverse(v: Sextet)
    ensures UrlValue(UrlChar(v)) == Some(v) && UrlChar(v) != '='
  {
  }

  lemma UrlValueInverse(c: char)
    ensures UrlValue(c).Some? ==> UrlChar(UrlValue(c).value) == c
  {
  }

  /** The bytes come back from their sextets. */
  lemma {:induction false} UnpackSextets(bytes: seq<Byte>)
    ensures Unpack(Sextets(bytes)) == bytes && |Sextets(bytes)| % 4 != 1
  {
    if |bytes| == 1 {
      GroupInverse(bytes[0], 0, 0);
    } else if |bytes| == 2 {
      GroupInverse(bytes[0], bytes[1], 0);
    } else if |bytes| > 2 {
      GroupInverse(bytes[0], bytes[1], bytes[2]);
      UnpackSextets(bytes[3..]);
      assert Sextets(bytes)[4..] == Sextets(bytes[3..]);
      assert bytes == [bytes[0], bytes[1], bytes[2]] + bytes[3..];
    }
  }

  /** The unused low bits of a shorter last group are zero. */
  predicate NoSpareBits(sextets: seq<Sextet>) {
    && (|sextets| % 4 == 2 ==> sextets[|sextets| - 1] % 16 == 0)
    && (|sextets| % 4 == 3 ==> sextets[|sextets| - 1] % 4 == 0)
  }

  /** Sextets survive being packed into bytes and taken apart again. */
  ghost predicate Survives(sextets: seq<Sextet>) {
    Sextets(Unpack(sextets)) == sextets
  }

  lemma TwoSextets(sextets: seq<Sextet>)
    requires |sextets| == 2
    ensures Survives(sextets) <==> sextets[1] % 16 == 0
  {
  }

  lemma ThreeSextets(sextets: seq<Sextet>)
    requires |sextets| == 3
    ensures Survives(sextets) <==> sextets[2] % 4 == 0
  {
    var p, q, r := sextets[0], sextets[1], sextets[2];
    var u := Ungroup(p, q, r, 0);
    assert Unpack(sextets) == [u.0, u.1];
    UngroupInverse(p, q, r / 4 * 4, 0);
    assert Sextets(Unpack(sextets)) == [p, q, r / 4 * 4];
    assert sextets == [p, q, r];
  }

  lemma SextetsOfMore(a: Byte, b: Byte, c: Byte, rest: seq<Byte>)
    ensures var g := Group(a, b, c); Sextets([a, b, c] + rest) == [g.0, g.1, g.2, g.3] + Sextets(rest)
  {
  }

  lemma FourSextets(sextets: seq<Sextet>)
    requires |sextets| >= 4
    ensures Sextets(Unpack(sextets)) == sextets[..4] + Sextets(Unpack(sextets[4..]))
  {
    var p, q, r, s := sextets[0], sextets[1], sextets[2], sextets[3];
    var u := Ungroup(p, q, r, s);
    UngroupInverse(p, q, r, s);
    SextetsOfMore(u.0, u.1, u.2, Unpack(sextets[4..]));
    assert sextets[..4] == [p, q, r, s];
  }

  lemma SpareBitsOfTail(sextets: seq<Sextet>)
    requires |sextets| >= 4
    ensures NoSpareBits(sextets) <==> NoSpareBits(sextets[4..])
  {
  }

  lemma SamePrefix(a: seq<Sextet>, b: seq<Sextet>, c: seq<Sextet>)
    ensures a + b == a + c <==> b == c
  {
    assert (a + b)[|a|..] == b && (a + c)[|a|..] == c;
  }

  lemma MoreSextets(sextets: seq<Sextet>)
    requires |sextets| >= 4
    ensures Survives(sextets) <==> Survives(sextets[4..])
  {
    FourSextets(sextets);
    SamePrefix(sextets[..4], Sextets(Unpack(sextets[4..])), sextets[4..]);
    assert sextets == sextets[..4] + sextets[4..];
  }

  lemma FewSextets(sextets: seq<Sextet>)
    requires |sextets| < 4 && |sextets| != 1
    ensures Survives(sextets) <==> NoSpareBits(sextets)
  {
    if |sextets| == 2 {
      TwoSextets(sextets);
    } else if |sextets| == 3 {
      ThreeSextets(sextets);
    }
  }

  lemma TailDecides(sextets: seq<Sextet>)
    requires |sextets| >= 4 && (Survives(sextets[4..]) <==> NoSpareBits(sextets[4..]))
    ensures Survives(sextets) <==> NoSpareBits(sextets)
  {
    MoreSextets(sextets);
    SpareBitsOfTail(sextets);
  }

  /** Sextets come back from their bytes exactly when no spare bit is set. */
  lemma {:induction false} SextetsUnpack(sextets: seq<Sextet>)
    requires |sextets| % 4 != 1
    ensures Survives(sextets) <==> NoSpareBits(sextets)
  {
    if |sextets| < 4 {
      FewSextets(sextets);
    } else {
      SextetsUnpack(sextets[4..]);
      TailDecides(sextets);
    }
  }

  lemma {:induction false} UrlTextInverse(sextets: seq<Sextet>)
    ensures AllUrl(UrlText(sextets)) && |UrlText(sextets)| == |sextets| && UrlSextets(UrlText(sextets)) == sextets
    ensures forall i :: 0 <= i < |sextets| ==> UrlText(sextets)[i] == UrlChar(sextets[i])
  {
    if sextets != [] {
      UrlTextInverse(sextets[1..]);
      UrlCharInverse(sextets[0]);
    }
  }

  lemma {:induction false} UrlSextetsInverse(s: string)
    requires AllUrl(s)
    ensures UrlText(UrlSextets(s)) == s && |UrlSextets(s)| == |s|
  {
    if s != "" {
      UrlSextetsInverse(s[1..]);
      UrlValueInverse(s[0]);
    }
  }

  // ----- the platform codec in those terms -----

  function Padding(n: nat): string {
    if n % 3 == 1 then "==" else if n % 3 == 2 then "=" else ""
  }

  lemma {:induction false} StandardTextAt(sextets: seq<Sextet>)
    ensures |StandardText(sextets)| == |sextets|
    ensures forall i :: 0 <= i < |sextets| ==> StandardText(sextets)[i] == StandardChar(sextets[i])
  {
    if sextets != [] {
      StandardTextAt(sextets[1..]);
    }
  }

  lemma StandardTextOver(a: seq<Sextet>, b: seq<Sextet>)
    ensures StandardText(a + b) == StandardText(a) + StandardText(b)
  {
    StandardTextAt(a);
    StandardTextAt(b);
    StandardTextAt(a + b);
    var whole, parts := StandardText(a + b), StandardText(a) + StandardText(b);
    assert |whole| == |parts| && forall i :: 0 <= i < |whole| ==> whole[i] == parts[i];
  }

  lemma JoinText(first: seq<Sextet>, others: seq<Sextet>, padding: string)
    ensures StandardText(first) + (StandardText(others) + padding) == StandardText(first + others) + padding
  {
    StandardTextOver(first, others);
  }

  lemma {:induction false} BtoaIsPadded(bytes: seq<Byte>)
    ensures Btoa(bytes) == StandardText(Sextets(bytes)) + Padding(|bytes|)
  {
    if |bytes| > 2 {
      BtoaIsPadded(bytes[3..]);
      var g := Group(bytes[0], bytes[1], bytes[2]);
      JoinText([g.0, g.1, g.2, g.3], Sextets(bytes[3..]), Padding(|bytes|));
      assert Padding(|bytes[3..]|) == Padding(|bytes|);
    }
  }

  lemma {:induction false} ReplaceAt(s: string, a: char, b: char)
    ensures |ReplaceAll(s, a, b)| == |s|
    ensures forall i :: 0 <= i < |s| ==> ReplaceAll(s, a, b)[i] == if s[i] == a then b else s[i]
  {
    if s != "" {
      ReplaceAt(s[1..], a, b);
    }
  }

  function Swapped(s: string): string {
    ReplaceAll(ReplaceAll(s, '+', '-'), '/', '_')
  }

  function Unswapped(s: string): string {
    ReplaceAll(ReplaceAll(s, '-', '+'), '_', '/')
  }

  lemma SwappedText(sextets: seq<Sextet>, padding: string)
    requires forall i :: 0 <= i < |padding| ==> padding[i] == '='
    ensures Swapped(StandardText(sextets) + padding) == UrlText(sextets) + padding
    ensures Unswapped(UrlText(sextets) + padding) == StandardText(sextets) + padding
  {
    StandardTextAt(sextets);
    UrlTextInverse(sextets);
    var s, u := StandardText(sextets) + padding, UrlText(sextets) + padding;
    ReplaceAt(s, '+', '-');
    ReplaceAt(ReplaceAll(s, '+', '-'), '/', '_');
    ReplaceAt(u, '-', '+');
    ReplaceAt(ReplaceAll(u, '-', '+'), '_', '/');
    assert |Swapped(s)| == |u| && |Unswapped(u)| == |s|;
  }

  lemma StripPadding(text: string, n: nat)
    requires text == "" || text[|text| - 1] != '='
    ensures StripEquals(text + Padding(n)) == text
  {
    assert text + "" == text && StripEquals(text) == text;
    assert (text + "=")[..|text|] == text;
    assert StripEquals(text + "=") == text;
    assert (text + "==")[..|text| + 1] == text + "=";
    assert StripEquals(text + "==") == text;
  }

  /** The gateway's encoder writes the sextets in the URL alphabet, without padding. */
  lemma EncodeIsUrlText(bytes: seq<Byte>)
    ensures Encode(bytes) == UrlText(Sextets(bytes))
  {
    var sextets := Sextets(bytes);
    BtoaIsPadded(bytes);
    SwappedText(sextets, Padding(|bytes|));
    UrlTextInverse(sextets);
    if sextets != [] {
      UrlCharInverse(sextets[|sextets| - 1]);
    }
    StripPadding(UrlText(sextets), |bytes|);
  }

  lemma {:induction false} StandardSextetsInverse(sextets: seq<Sextet>)
    ensures AllStandard(StandardText(sextets)) && StandardSextets(StandardText(sextets)) == sextets
  {
    if sextets != [] {
      StandardSextetsInverse(sextets[1..]);
    }
  }

  lemma UnpadTwo(t: string)
    ensures |t| % 4 == 2 || |t| % 4 == 1 ==>
      Unpad(t + if |t| % 4 == 2 then "==" else "===") == t + if |t| % 4 == 2 then "" else "="
  {
  }

  lemma UnpadOne(t: string)
    requires t != "" && t[|t| - 1] != '='
    ensures |t| % 4 == 3 ==> Unpad(t + "=") == t
    ensures |t| % 4 == 0 ==> Unpad(t) == t
  {
  }

  lemma NotStandard(t: string)
    ensures !AllStandard(t + "=")
  {
    assert (t + "=")[|t|] == '=';
  }

  lemma UnpadPadded(sextets: seq<Sextet>)
    ensures var t := StandardText(sextets); var p := PadEnd(t);
      if |t| % 4 == 1 then Unpad(p) == t + "=" && !AllStandard(Unpad(p)) else Unpad(p) == t
  {
    var t := StandardText(sextets);
    StandardTextAt(sextets);
    NotStandard(t);
    UnpadTwo(t);
    if t != "" {
      assert t[|t| - 1] == StandardChar(sextets[|t| - 1]);
      UnpadOne(t);
    }
    assert t + "" == t;
  }

  /** What the gateway's decoder accepts and returns, in terms of the URL alphabet alone. */
  lemma DecodeIsUnpack(value: string)
    ensures Base64UrlToBytes(value) ==
      if value != "" && AllUrl(value) && |value| % 4 != 1 then Some(Unpack(UrlSextets(value))) else None
  {
    if value != "" && AllUrl(value) {
      var sextets := UrlSextets(value);
      UrlSextetsInverse(value);
      SwappedText(sextets, "");
      assert value + "" == value && StandardText(sextets) + "" == StandardText(sextets);
      StandardTextAt(sextets);
      UnpadPadded(sextets);
      StandardSextetsInverse(sextets);
    }
  }

  // ----- the guarantees -----

  /** Decoding what was encoded gives the bytes back, except that the gateway refuses the empty text. */
  lemma GatewayRoundTrip(bytes: seq<Byte>)
    ensures Base64UrlToBytes(Encode(bytes)) == if bytes == [] then None else Some(bytes)
  {
    EncodeIsUrlText(bytes);
    UrlTextInverse(Sextets(bytes));
    UnpackSextets(bytes);
    DecodeIsUnpack(Encode(bytes));
  }

  /** The re-encoding check accepts exactly the encoder's image: texts of the alphabet with no spare bit set. */
  lemma GatewayAcceptsImage(value: string)
    ensures GatewayDecode(value).Some? <==> exists bytes: seq<Byte> :: bytes != [] && Encode(bytes) == value
    ensures GatewayDecode(value).Some? <==>
      value != "" && AllUrl(value) && |value| % 4 != 1 && NoSpareBits(UrlSextets(value))
    ensures forall bytes: seq<Byte> :: bytes != [] && Encode(bytes) == value ==> GatewayDecode(value) == Some(bytes)
  {
    forall bytes: seq<Byte> | bytes != [] && Encode(bytes) == value ensures GatewayDecode(value) == Some(bytes) {
      GatewayRoundTrip(bytes);
    }
    DecodeIsUnpack(value);
    if value != "" && AllUrl(value) && |value| % 4 != 1 {
      var sextets := UrlSextets(value);
      UrlSextetsInverse(value);
      SextetsUnpack(sextets);
      EncodeIsUrlText(Unpack(sextets));
      UrlTextInverse(Sextets(Unpack(sextets)));
    }
  }

  lemma CompanionReads(bytes: seq<Byte>)
    ensures CompanionDecode(Encode(bytes)) == Some(bytes)
  {
    var sextets := Sextets(bytes);
    var value := Encode(bytes);
    EncodeIsUrlText(bytes);
    UrlTextInverse(sextets);
    UnpackSextets(bytes);
    forall i | 0 <= i < |value| ensures value[i] as int < 128 {
      assert value[i] == UrlChar(sextets[i]);
    }
    StandardTextAt(sextets);
    var padding := PadEnd(value)[|value|..];
    assert PadEnd(value) == value + padding && PadEnd(StandardText(sextets)) == StandardText(sextets) + padding;
    SwappedText(sextets, padding);
    UnpadPadded(sextets);
    StandardSextetsInverse(sextets);
  }

  /** The companion's decoder accepts exactly the encoder's image too, the empty text included. */
  lemma CompanionAcceptsImage(value: string, bytes: seq<Byte>)
    ensures CompanionDecode(value) == Some(bytes) <==> Encode(bytes) == value
  {
    CompanionReads(bytes);
  }

  /**
  Both sides read a text alike exactly when it is not empty: the gateway refuses the empty text, the companion
  reads it as no bytes.
  */
  lemma DecodersAgree(value: string)
    ensures GatewayDecode(value) == CompanionDecode(value) <==> value != ""
  {
    if CompanionDecode(value).Some? {
      var bytes := CompanionDecode(value).value;
      CompanionAcceptsImage(value, bytes);
      GatewayRoundTrip(bytes);
      EncodeIsUrlText(bytes);
    }
    if GatewayDecode(value).Some? {
      CompanionAcceptsImage(value, GatewayDecode(value).value);
    }
    CompanionReads([]);
    EncodeIsUrlText([]);
  }

  lemma {:induction false} SextetCount(bytes: seq<Byte>)
    ensures |Sextets(bytes)| == (4 * |bytes| + 2) / 3
  {
    if |bytes| > 2 {
      SextetCount(bytes[3..]);
    }
  }

  /** n bytes take ceil(4n/3) characters, so the character limit admits exactly the byte limit. */
  lemma EncodedLimitIsByteLimit(bytes: seq<Byte>)
    ensures |Encode(bytes)| == (4 * |bytes| + 2) / 3
    ensures |Encode(bytes)| <= MAX_MCP_RESPONSE_ENCODED_CHARACTERS <==> |bytes| <= MAX_MCP_RESPONSE_COMPRESSED_BYTES
  {
    EncodeIsUrlText(bytes);
    UrlTextInverse(Sextets(bytes));
    SextetCount(bytes);
  }

  // ----- the encoder as the gateway runs it -----

  /**
  The bytes become a binary string one character at a time before the platform encodes it. The text is the
  sextets in the URL alphabet, of the length the limits count on, and both decoders give the bytes back.
  */
  method BytesToBase64Url(bytes: seq<Byte>) returns (text: string)
    ensures text == UrlText(Sextets(bytes)) && |text| == (4 * |bytes| + 2) / 3
    ensures CompanionDecode(text) == Some(bytes)
    ensures GatewayDecode(text) == if bytes == [] then None else Some(bytes)
  {
    var binary := "";
    for i := 0 to |bytes|
      invariant |binary| == i && Binary(binary) && CharCodes(binary) == bytes[..i]
    {
      assert (binary + [bytes[i] as char])[..i] == binary;
      binary := binary + [bytes[i] as char];
    }
    assert bytes[..|bytes|] == bytes;
    text := StripEquals(ReplaceAll(ReplaceAll(Btoa(CharCodes(binary)), '+', '-'), '/', '_'));
    EncodeIsUrlText(bytes);
    EncodedLimitIsByteLimit(bytes);
    CompanionReads(bytes);
    GatewayRoundTrip(bytes);
  }
}

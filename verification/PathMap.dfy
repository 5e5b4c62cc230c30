/**
Forward and reverse path maps: rows to CSV text and back (src/name_atlas/artifacts.py). Text stands for its
UTF-8 bytes.
*/
module PathMap {
  import opened Common
  import opened Csv

  datatype Role = Original | Access | Preservation

  datatype Row = Row(familyId: string, identifier: string, role: Role, source: string, target: string, size: nat,
    sha256: string)

  datatype MapError = Malformed | InvalidHeader | NoRows | FieldCount | SizeText | UnsupportedSize | DataContract

  /** The interpreter refuses to convert more decimal digits than this, in either direction. */
  const DIGIT_LIMIT := 4300

  predicate Hex64(s: string) {
    |s| == 64 && forall i :: 0 <= i < |s| ==> '0' <= s[i] <= '9' || 'a' <= s[i] <= 'f'
  }

  predicate ValidRow(r: Row) {
    Hex64(r.familyId) && 1 <= |r.identifier| <= 64 && Hex64(r.sha256)
  }

  /** Two SHA-256 digests in lower-case hexadecimal and an identifier of one to sixty-four characters. */
  lemma ValidRowIff(r: Row)
    ensures ValidRow(r) <==>
      && |r.familyId| == 64 && (forall i :: 0 <= i < 64 ==> r.familyId[i] in "0123456789abcdef")
      && |r.sha256| == 64 && (forall i :: 0 <= i < 64 ==> r.sha256[i] in "0123456789abcdef")
      && 0 < |r.identifier| < 65
  {
    forall c: char ensures c in "0123456789abcdef" <==> '0' <= c <= '9' || 'a' <= c <= 'f' {
      HexCharacter(c);
    }
  }

  lemma HexCharacter(c: char)
    ensures c in "0123456789abcdef" <==> '0' <= c <= '9' || 'a' <= c <= 'f'
  {
    var all := "0123456789abcdef";
    if '0' <= c <= '9' {
      assert all[c as int - '0' as int] == c;
    } else if 'a' <= c <= 'f' {
      assert all[c as int - 'a' as int + 10] == c;
    }
  }

  function RoleText(role: Role): string {
    match role
    case Original => "original"
    case Access => "access"
    case Preservation => "preservation"
  }

  function RoleOf(s: string): Option<Role> {
    if s == "original" then Some(Original) else if s == "access" then Some(Access)
      else if s == "preservation" then Some(Preservation) else None
  }

  // ----- decimal sizes -----

  function Digit(d: nat): char
    requires d < 10
  {
    "0123456789"[d]
  }

  function Digits(n: nat): string {
    if n < 10 then [Digit(n)] else Digits(n / 10) + [Digit(n % 10)]
  }

  predicate Decimal(s: string) {
    s != "" && forall i :: 0 <= i < |s| ==> '0' <= s[i] <= '9'
  }

  function Value(s: string): nat
    requires forall i :: 0 <= i < |s| ==> '0' <= s[i] <= '9'
  {
    if s == "" then 0 else Value(s[..|s| - 1]) * 10 + (s[|s| - 1] as int - '0' as int)
  }

  /** A size is read back from its canonical decimal text. */
  lemma {:induction false} ValueOfDigits(n: nat)
    ensures Decimal(Digits(n)) && Value(Digits(n)) == n
  {
    if n >= 10 {
      ValueOfDigits(n / 10);
      assert Digits(n)[..|Digits(n)| - 1] == Digits(n / 10);
    }
  }

  // ----- the map as text -----

  function Header(reverse: bool): seq<string> {
    if reverse then ["family_id", "canonical_identifier", "role", "target_path", "source_path", "size", "sha256"]
    else ["family_id", "canonical_identifier", "role", "source_path", "target_path", "size", "sha256"]
  }

  function Fields(r: Row, reverse: bool): seq<string> {
    var first, second := if reverse then r.target else r.source, if reverse then r.source else r.target;
    [r.familyId, r.identifier, RoleText(r.role), first, second, Digits(r.size), r.sha256]
  }

  /** Each column of a row stands under its own name; the path a map is looked up by comes first. */
  lemma ColumnsUnderNames(r: Row, reverse: bool)
    ensures
      var names, fields := Header(reverse), Fields(r, reverse);
      && |names| == |fields| == 7
      && names[..3] == ["family_id", "canonical_identifier", "role"] && names[5..] == ["size", "sha256"]
      && names[3] == (if reverse then "target_path" else "source_path")
      && names[4] == (if reverse then "source_path" else "target_path")
      && (forall k :: 0 <= k < 7 && names[k] == "source_path" ==> fields[k] == r.source)
      && (forall k :: 0 <= k < 7 && names[k] == "target_path" ==> fields[k] == r.target)
      && fields[0] == r.familyId && fields[1] == r.identifier && fields[6] == r.sha256
      && fields[2] in {"original", "access", "preservation"}
      && (fields[2] == "original" <==> r.role == Original) && (fields[2] == "access" <==> r.role == Access)
      && Decimal(fields[5]) && Value(fields[5]) == r.size
  {
    ValueOfDigits(r.size);
    RoleNames(r.role);
    assert "source_path"[0] == 's' && "target_path"[0] == 't' && "family_id"[0] == 'f'
      && "canonical_identifier"[0] == 'c';
    assert "role"[0] == 'r' && "size"[1] == 'i' && "source_path"[1] == 'o' && "sha256"[1] == 'h';
  }

  lemma RoleNames(role: Role)
    ensures RoleText(role) ==
      if role == Original then "original" else if role == Access then "access" else "preservation"
    ensures "original" != "access" && "access" != "preservation" && "original" != "preservation"
  {
    assert "original"[0] == 'o' && "access"[0] == 'a' && "preservation"[0] == 'p';
  }

  function RowsText(rows: seq<Row>, reverse: bool): string {
    if rows == [] then "" else RowText(Fields(rows[0], reverse)) + RowsText(rows[1..], reverse)
  }

  function PathMapText(rows: seq<Row>, reverse: bool): string {
    RowText(Header(reverse)) + RowsText(rows, reverse)
  }

  predicate Writable(rows: seq<Row>) {
    forall i :: 0 <= i < |rows| ==> |Digits(rows[i].size)| <= DIGIT_LIMIT
  }

  // ----- parsing -----

  function ParseRow(values: seq<string>, reverse: bool): Result<Row, MapError> {
    if |values| != 7 then Err(FieldCount)
    else if !Decimal(values[5]) then Err(SizeText)
    else if |values[5]| > DIGIT_LIMIT then Err(UnsupportedSize)
    else if values[5] != Digits(Value(values[5])) then Err(SizeText)
    else
      var role := RoleOf(values[2]);
      var source, target := if reverse then values[4] else values[3], if reverse then values[3] else values[4];
      if role.None? then Err(DataContract)
      else
        var row := Row(values[0], values[1], role.value, source, target, Value(values[5]), values[6]);
        if ValidRow(row) then Ok(row) else Err(DataContract)
  }

  lemma RoleReadBack(s: string, role: Role)
    ensures RoleOf(s) == Some(role) <==> s == RoleText(role)
  {
    RoleNames(Original);
  }

  /** The parser accepts, as this row, exactly the seven fields the writer gives a valid row of printable size. */
  lemma RowAcceptedIff(values: seq<string>, reverse: bool, row: Row)
    ensures ParseRow(values, reverse) == Ok(row) <==>
      values == Fields(row, reverse) && ValidRow(row) && |Digits(row.size)| <= 4300
  {
    ValueOfDigits(row.size);
    RoleReadBack(RoleText(row.role), row.role);
    if ParseRow(values, reverse) == Ok(row) {
      RoleReadBack(values[2], row.role);
    }
  }

  /** Why a row is refused: its number of fields, then its size, then anything else about it. */
  lemma RowRefusedBecause(values: seq<string>, reverse: bool)
    requires ParseRow(values, reverse).Err?
    ensures
      var error := ParseRow(values, reverse).error;
      && (error == FieldCount <==> |values| != 7)
      && (error == UnsupportedSize <==> |values| == 7 && Decimal(values[5]) && |values[5]| > 4300)
      && (error == SizeText <==> |values| == 7 && (Decimal(values[5]) ==>
        |values[5]| <= 4300 && Digits(Value(values[5])) != values[5]))
      && (error == DataContract <==>
        |values| == 7 && Decimal(values[5]) && |values[5]| <= 4300 && Digits(Value(values[5])) == values[5])
  {
  }

  function ParseRows(raw: seq<seq<string>>, reverse: bool): Result<seq<Row>, MapError> {
    if raw == [] then Ok([])
    else
      var first := ParseRow(raw[0], reverse);
      if first.Err? then Err(first.error)
      else
        var others := ParseRows(raw[1..], reverse);
        if others.Err? then others else Ok([first.value] + others.value)
  }

  function Parse(text: string, reverse: bool): Result<seq<Row>, MapError> {
    var raw := Read(text, INITIAL);
    if raw.Err? then Err(Malformed)
    else if raw.value == [] || raw.value[0] != Header(reverse) then Err(InvalidHeader)
    else if |raw.value| == 1 then Err(NoRows)
    else ParseRows(raw.value[1..], reverse)
  }

  /** The text of the rows from index i on, one row at a time. */
  lemma RowsTextAt(rows: seq<Row>, reverse: bool, i: nat)
    requires i < |rows|
    ensures RowsText(rows[i..], reverse) == RowText(Fields(rows[i], reverse)) + RowsText(rows[i + 1..], reverse)
  {
  }

  /** Rows written one at a time after the header. */
  method WritePathMap(rows: seq<Row>, reverse: bool) returns (r: Result<string, MapError>)
    ensures r == if Writable(rows) then Ok(PathMapText(rows, reverse)) else Err(UnsupportedSize)
  {
    var stream := RowText(Header(reverse));
    assert rows[0..] == rows;
    for i := 0 to |rows|
      invariant stream + RowsText(rows[i..], reverse) == PathMapText(rows, reverse)
      invariant forall j :: 0 <= j < i ==> |Digits(rows[j].size)| <= DIGIT_LIMIT
    {
      if |Digits(rows[i].size)| > DIGIT_LIMIT {
        return Err(UnsupportedSize);
      }
      RowsTextAt(rows, reverse, i);
      var row := RowText(Fields(rows[i], reverse));
      assert stream + (row + RowsText(rows[i + 1..], reverse)) == stream + row + RowsText(rows[i + 1..], reverse);
      stream := stream + row;
    }
    assert stream + "" == stream;
    return Ok(stream);
  }

  /** What is still to come, joined to what has been parsed. */
  function Joined(parsed: seq<Row>, others: Result<seq<Row>, MapError>): Result<seq<Row>, MapError> {
    if others.Err? then others else Ok(parsed + others.value)
  }

  lemma ParseRowsAt(raw: seq<seq<string>>, reverse: bool, i: nat, parsed: seq<Row>)
    requires i < |raw|
    ensures var first := ParseRow(raw[i], reverse);
      Joined(parsed, ParseRows(raw[i..], reverse)) ==
        if first.Err? then Err(first.error) else Joined(parsed + [first.value], ParseRows(raw[i + 1..], reverse))
  {
    assert raw[i..][1..] == raw[i + 1..];
    var others := ParseRows(raw[i + 1..], reverse);
    if ParseRow(raw[i], reverse).Ok? && others.Ok? {
      var first := ParseRow(raw[i], reverse).value;
      assert parsed + ([first] + others.value) == parsed + [first] + others.value;
    }
  }

  /** Rows parsed one at a time, stopping at the first that is not canonical. */
  method ParsePathMap(text: string, reverse: bool) returns (r: Result<seq<Row>, MapError>)
    ensures r == Parse(text, reverse)
  {
    var raw := Read(text, INITIAL);
    if raw.Err? {
      return Err(Malformed);
    }
    if raw.value == [] || raw.value[0] != Header(reverse) {
      return Err(InvalidHeader);
    }
    if |raw.value| == 1 {
      return Err(NoRows);
    }
    r := ParseEach(raw.value[1..], reverse);
  }

  method ParseEach(rows: seq<seq<string>>, reverse: bool) returns (r: Result<seq<Row>, MapError>)
    ensures r == ParseRows(rows, reverse)
  {
    var parsed := [];
    assert rows[0..] == rows;
    assert ParseRows(rows, reverse).Ok? ==> [] + ParseRows(rows, reverse).value == ParseRows(rows, reverse).value;
    for i := 0 to |rows|
      invariant ParseRows(rows, reverse) == Joined(parsed, ParseRows(rows[i..], reverse))
    {
      var row := ParseRow(rows[i], reverse);
      ParseRowsAt(rows, reverse, i, parsed);
      if row.Err? {
        return Err(row.error);
      }
      parsed := parsed + [row.value];
    }
    assert parsed + [] == parsed;
    return Ok(parsed);
  }

  // ----- one row -----

  /** The free-text fields come back from the reader. */
  predicate PrintableRow(r: Row) {
    Printable(r.identifier) && Printable(r.source) && Printable(r.target)
  }

  lemma PlainIsPrintable(s: string)
    requires |s| <= FIELD_LIMIT && forall i :: 0 <= i < |s| ==> s[i] != '\r'
    ensures Printable(s)
  {
  }

  lemma FixedFieldsPrintable(r: Row, reverse: bool)
    requires ValidRow(r) && |Digits(r.size)| <= DIGIT_LIMIT
    ensures var f := Fields(r, reverse);
      f[0] != "" && Printable(f[0]) && Printable(f[2]) && Printable(f[5]) && Printable(f[6])
  {
    ValueOfDigits(r.size);
    PlainIsPrintable(r.familyId);
    PlainIsPrintable(RoleText(r.role));
    PlainIsPrintable(Digits(r.size));
    PlainIsPrintable(r.sha256);
  }

  lemma RowPrintableIff(r: Row, reverse: bool)
    requires ValidRow(r) && |Digits(r.size)| <= DIGIT_LIMIT
    ensures AllPrintable(Fields(r, reverse)) <==> PrintableRow(r)
  {
    FixedFieldsPrintable(r, reverse);
    var f := Fields(r, reverse);
    assert AllPrintable(f) ==> Printable(f[1]) && Printable(f[3]) && Printable(f[4]);
  }

  lemma ParsesBack(r: Row, reverse: bool)
    requires ValidRow(r) && |Digits(r.size)| <= DIGIT_LIMIT
    ensures ParseRow(Fields(r, reverse), reverse) == Ok(r)
  {
    ValueOfDigits(r.size);
  }

  /** A row with a field the reader does not give back makes the reader fail or leaves a row of at most five fields. */
  lemma UnprintableRowIsCut(r: Row, reverse: bool, rest: string, rows: seq<seq<string>>)
    requires ValidRow(r) && |Digits(r.size)| <= DIGIT_LIMIT && !PrintableRow(r)
    ensures CutShort(Read(RowText(Fields(r, reverse)) + rest, Machine(StartRecord, "", [], rows)), rows, 5)
  {
    FixedFieldsPrintable(r, reverse);
    var f := Fields(r, reverse);
    var bad := if !Printable(f[1]) then 1 else if !Printable(f[3]) then 3 else 4;
    CutInRow(f, rest, Machine(StartRecord, "", [], rows), bad);
  }

  // ----- whole maps -----

  function AllFields(rows: seq<Row>, reverse: bool): seq<seq<string>> {
    if rows == [] then [] else [Fields(rows[0], reverse)] + AllFields(rows[1..], reverse)
  }

  ghost predicate Good(rows: seq<Row>) {
    forall i :: 0 <= i < |rows| ==> ValidRow(rows[i]) && |Digits(rows[i].size)| <= DIGIT_LIMIT
  }

  lemma {:induction false} ReadRows(rows: seq<Row>, reverse: bool, before: seq<seq<string>>)
    requires Good(rows) && forall i :: 0 <= i < |rows| ==> PrintableRow(rows[i])
    ensures Read(RowsText(rows, reverse), Machine(StartRecord, "", [], before)) == Ok(before + AllFields(rows, reverse))
  {
    if rows != [] {
      FixedFieldsPrintable(rows[0], reverse);
      RowPrintableIff(rows[0], reverse);
      ReadRow(Fields(rows[0], reverse), RowsText(rows[1..], reverse), before);
      ReadRows(rows[1..], reverse, before + [Fields(rows[0], reverse)]);
      assert before + [Fields(rows[0], reverse)] + AllFields(rows[1..], reverse) == before + AllFields(rows, reverse);
    } else {
      assert before + [] == before;
    }
  }

  lemma {:induction false} ParseAllFields(rows: seq<Row>, reverse: bool)
    requires Good(rows)
    ensures ParseRows(AllFields(rows, reverse), reverse) == Ok(rows)
  {
    if rows != [] {
      ParsesBack(rows[0], reverse);
      ParseAllFields(rows[1..], reverse);
      assert AllFields(rows, reverse)[1..] == AllFields(rows[1..], reverse);
      assert [rows[0]] + rows[1..] == rows;
    }
  }

  /** Somewhere after the rows already read there is a row without its seven fields. */
  ghost predicate HasShortRow(r: Result<seq<seq<string>>, CsvError>, before: seq<seq<string>>) {
    r.Ok? ==> before <= r.value && exists k :: |before| <= k < |r.value| && |r.value[k]| <= 5
  }

  lemma {:induction false} UnprintableIsCut(rows: seq<Row>, reverse: bool, before: seq<seq<string>>, bad: nat)
    requires Good(rows) && bad < |rows| && !PrintableRow(rows[bad])
    ensures HasShortRow(Read(RowsText(rows, reverse), Machine(StartRecord, "", [], before)), before)
    decreases |rows|
  {
    if PrintableRow(rows[0]) {
      FixedFieldsPrintable(rows[0], reverse);
      RowPrintableIff(rows[0], reverse);
      ReadRow(Fields(rows[0], reverse), RowsText(rows[1..], reverse), before);
      UnprintableIsCut(rows[1..], reverse, before + [Fields(rows[0], reverse)], bad - 1);
    } else {
      UnprintableRowIsCut(rows[0], reverse, RowsText(rows[1..], reverse), before);
    }
  }

  lemma {:induction false} ShortRowFails(raw: seq<seq<string>>, reverse: bool, k: nat)
    requires k < |raw| && |raw[k]| != 7
    ensures ParseRows(raw, reverse).Err?
  {
    if k > 0 {
      ShortRowFails(raw[1..], reverse, k - 1);
    }
  }

  lemma HeaderPrintable(reverse: bool, i: nat)
    requires i < 7
    ensures Printable(Header(reverse)[i])
  {
    PlainIsPrintable(Header(reverse)[i]);
  }

  lemma ReadHeader(reverse: bool, rest: string)
    ensures Read(RowText(Header(reverse)) + rest, INITIAL)
      == Read(rest, Machine(StartRecord, "", [], [Header(reverse)]))
  {
    var header := Header(reverse);
    forall i | 0 <= i < 7 ensures Printable(header[i]) {
      HeaderPrintable(reverse, i);
    }
    ReadRow(header, rest, []);
    assert [] + [header] == [header];
  }

  lemma PrintableRoundTrip(rows: seq<Row>, reverse: bool)
    requires rows != [] && Good(rows) && forall i :: 0 <= i < |rows| ==> PrintableRow(rows[i])
    ensures Parse(PathMapText(rows, reverse), reverse) == Ok(rows)
  {
    var head := [Header(reverse)];
    ReadHeader(reverse, RowsText(rows, reverse));
    ReadRows(rows, reverse, head);
    ParseAllFields(rows, reverse);
    assert (head + AllFields(rows, reverse))[1..] == AllFields(rows, reverse);
  }

  lemma ShortRowRefused(text: string, reverse: bool)
    requires HasShortRow(Read(text, INITIAL), [Header(reverse)])
    ensures Parse(text, reverse).Err?
  {
    var r := Read(text, INITIAL);
    if r.Ok? {
      var k :| 1 <= k < |r.value| && |r.value[k]| <= 5;
      ShortRowFails(r.value[1..], reverse, k - 1);
    }
  }

  lemma UnprintableFails(rows: seq<Row>, reverse: bool, bad: nat)
    requires Good(rows) && bad < |rows| && !PrintableRow(rows[bad])
    ensures Parse(PathMapText(rows, reverse), reverse).Err?
  {
    ReadHeader(reverse, RowsText(rows, reverse));
    UnprintableIsCut(rows, reverse, [Header(reverse)], bad);
    ShortRowRefused(PathMapText(rows, reverse), reverse);
  }

  /**
  Writing and parsing either map gives the rows back exactly when every identifier and path fits the
  reader's field limit and holds no carriage return, or one inside quotes forced by another character.
  */
  lemma RoundTripIff(rows: seq<Row>, reverse: bool)
    requires rows != [] && Good(rows)
    ensures Parse(PathMapText(rows, reverse), reverse) == Ok(rows)
      <==> forall i :: 0 <= i < |rows| ==> PrintableRow(rows[i])
  {
    if forall i :: 0 <= i < |rows| ==> PrintableRow(rows[i]) {
      PrintableRoundTrip(rows, reverse);
    } else {
      var bad :| 0 <= bad < |rows| && !PrintableRow(rows[bad]);
      UnprintableFails(rows, reverse, bad);
    }
  }

  /** Whatever is accepted is a non-empty list of valid rows. */
  lemma {:induction false} ParsedRowsValid(raw: seq<seq<string>>, reverse: bool)
    requires ParseRows(raw, reverse).Ok?
    ensures |ParseRows(raw, reverse).value| == |raw| && Good(ParseRows(raw, reverse).value)
  {
    if raw != [] {
      ParsedRowsValid(raw[1..], reverse);
      assert Decimal(raw[0][5]) && raw[0][5] == Digits(Value(raw[0][5]));
    }
  }

  lemma AcceptedIsValid(text: string, reverse: bool)
    requires Parse(text, reverse).Ok?
    ensures Parse(text, reverse).value != [] && Good(Parse(text, reverse).value)
  {
    ParsedRowsValid(Read(text, INITIAL).value[1..], reverse);
  }
}

/**
The CSV dialect of the path maps (section 2 of RFC 4180): a writer that quotes only where it must and
ends lines with a line feed, and the standard library's strict reader as its state machine, fed line by line.
*/
module Csv {
  import opened Common

  const FIELD_LIMIT := 131072

  // ----- writing -----

  /** Only the delimiter, the quote and the line feed force quotes; a lone carriage return does not. */
  predicate NeedsQuotes(field: string) {
    ',' in field || '"' in field || '\n' in field
  }

  function Doubled(field: string): string {
    if field == "" then "" else (if field[0] == '"' then "\"\"" else [field[0]]) + Doubled(field[1..])
  }

  function FieldText(field: string): string {
    if NeedsQuotes(field) then "\"" + Doubled(field) + "\"" else field
  }

  /** Fields joined by commas, then a line feed. Rows have several fields, so an empty one needs no quotes. */
  function RowText(fields: seq<string>): string
    requires fields != []
  {
    if |fields| == 1 then FieldText(fields[0]) + "\n" else FieldText(fields[0]) + "," + RowText(fields[1..])
  }

  // ----- reading -----

  datatype State = StartRecord | StartField | InField | InQuoted | QuoteInQuoted | EatNewline

  datatype Machine = Machine(state: State, field: string, fields: seq<string>, rows: seq<seq<string>>)

  datatype CsvError = FieldTooLong | CommaExpected | NewlineInField | UnexpectedEnd

  predicate Newline(c: char) {
    c == '\n' || c == '\r'
  }

  function Save(m: Machine, state: State): Machine {
    m.(state := state, field := "", fields := m.fields + [m.field])
  }

  function Add(m: Machine, c: char, state: State): Result<Machine, CsvError> {
    if |m.field| >= FIELD_LIMIT then Err(FieldTooLong) else Ok(m.(state := state, field := m.field + [c]))
  }

  function Feed(m: Machine, c: char): Result<Machine, CsvError> {
    match m.state
    case StartRecord => if Newline(c) then Ok(m.(state := EatNewline)) else FeedStart(m, c)
    case StartField => FeedStart(m, c)
    case InField =>
      if Newline(c) then Ok(Save(m, EatNewline)) else if c == ',' then Ok(Save(m, StartField)) else Add(m, c, InField)
    case InQuoted => if c == '"' then Ok(m.(state := QuoteInQuoted)) else Add(m, c, InQuoted)
    case QuoteInQuoted =>
      if c == '"' then Add(m, c, InQuoted)
      else if c == ',' then Ok(Save(m, StartField))
      else if Newline(c) then Ok(Save(m, EatNewline))
      else Err(CommaExpected)
    case EatNewline => if Newline(c) then Ok(m) else Err(NewlineInField)
  }

  function FeedStart(m: Machine, c: char): Result<Machine, CsvError> {
    if Newline(c) then Ok(Save(m, EatNewline))
    else if c == '"' then Ok(m.(state := InQuoted))
    else if c == ',' then Ok(Save(m, StartField))
    else Add(m, c, InField)
  }

  /** The end of a line: it closes a record everywhere except inside quotes. */
  function EndLine(m: Machine): Machine {
    var closed := if m.state.StartField? || m.state.InField? || m.state.QuoteInQuoted? then Save(m, StartRecord) else m;
    if m.state.InQuoted? then m else Machine(StartRecord, "", [], closed.rows + [closed.fields])
  }

  /** Lines end after a line feed, a carriage return not followed by one, or the last character. */
  predicate LineEnds(text: string)
    requires text != ""
  {
    text[0] == '\n' || |text| == 1 || (text[0] == '\r' && text[1] != '\n')
  }

  function Read(text: string, m: Machine): Result<seq<seq<string>>, CsvError> {
    if text == "" then
      if m.state.InQuoted? then Err(UnexpectedEnd) else Ok(m.rows)
    else
      match Feed(m, text[0])
      case Err(e) => Err(e)
      case Ok(next) => Read(text[1..], if LineEnds(text) then EndLine(next) else next)
  }

  const INITIAL := Machine(StartRecord, "", [], [])

  // ----- what the writer's text does to the reader -----

  /** The reader gets this field back: short enough, and no carriage return outside quotes. */
  predicate Printable(field: string) {
    |field| <= FIELD_LIMIT && ('\r' in field ==> NeedsQuotes(field))
  }

  /** The machine about to read a field: at the start of a record or after a comma. */
  predicate AtField(m: Machine) {
    m.field == "" && (m.state.StartField? || m.state.StartRecord?)
  }

  function After(r: Result<Machine, CsvError>, rest: string): Result<seq<seq<string>>, CsvError> {
    if r.Err? then Err(r.error) else Read(rest, r.value)
  }

  /** One ordinary character. */
  lemma ReadOne(c: char, rest: string, m: Machine)
    requires rest != "" && !Newline(c)
    ensures Read([c] + rest, m) == After(Feed(m, c), rest)
  {
  }

  /** Outside quotes the reader takes a carriage return and line feed for a line feed. */
  lemma EitherLineEnd(rest: string, m: Machine)
    requires !m.state.InQuoted? && !m.state.EatNewline?
    ensures Read("\r\n" + rest, m) == Read("\n" + rest, m)
  {
    assert ("\r\n" + rest)[1..] == "\n" + rest && ("\n" + rest)[1..] == rest;
  }

  predicate Plain(field: string) {
    !NeedsQuotes(field) && '\r' !in field
  }

  lemma {:induction false} ReadPlain(field: string, rest: string, m: Machine)
    requires Plain(field) && rest != "" && m.state.InField?
    ensures |m.field| + |field| <= FIELD_LIMIT ==> Read(field + rest, m) == Read(rest, m.(field := m.field + field))
    ensures |m.field| + |field| > FIELD_LIMIT && |m.field| <= FIELD_LIMIT ==> Read(field + rest, m).Err?
  {
    if field == "" {
      assert field + rest == rest && m.field + field == m.field;
    } else {
      var c := field[0];
      assert c in field;
      assert field + rest == [c] + (field[1..] + rest);
      ReadOne(c, field[1..] + rest, m);
      if |m.field| < FIELD_LIMIT {
        ReadPlain(field[1..], rest, m.(field := m.field + [c]));
        assert m.field + [c] + field[1..] == m.field + field;
      }
    }
  }

  /** Inside quotes line ends change nothing, and a doubled quote is one. */
  lemma ReadQuotedOne(c: char, rest: string, m: Machine)
    requires rest != "" && m.state.InQuoted?
    ensures Read((if c == '"' then ['"', '"'] else [c]) + rest, m)
         == if |m.field| >= FIELD_LIMIT then Err(FieldTooLong) else Read(rest, m.(field := m.field + [c]))
  {
  }

  lemma {:induction false} ReadDoubled(field: string, rest: string, m: Machine)
    requires rest != "" && m.state.InQuoted?
    ensures |m.field| + |field| <= FIELD_LIMIT ==>
      Read(Doubled(field) + "\"" + rest, m) == Read(rest, m.(state := QuoteInQuoted, field := m.field + field))
    ensures |m.field| + |field| > FIELD_LIMIT && |m.field| <= FIELD_LIMIT ==> Read(Doubled(field) + "\"" + rest, m).Err?
  {
    if field == "" {
      assert Doubled(field) + "\"" + rest == ['"'] + rest && m.field + field == m.field;
      ReadOne('"', rest, m);
    } else {
      var c := field[0];
      var more := Doubled(field[1..]) + "\"" + rest;
      assert Doubled(field) + "\"" + rest == (if c == '"' then ['"', '"'] else [c]) + more;
      ReadQuotedOne(c, more, m);
      if |m.field| < FIELD_LIMIT {
        ReadDoubled(field[1..], rest, m.(field := m.field + [c]));
        assert m.field + [c] + field[1..] == m.field + field;
      }
    }
  }

  /** The machine after a whole field and before its separator. */
  function Loaded(m: Machine, field: string): Machine {
    m.(state := if NeedsQuotes(field) then QuoteInQuoted else if field == "" then m.state else InField, field := field)
  }

  lemma ReadPlainField(field: string, tail: string, m: Machine)
    requires tail != "" && AtField(m) && Plain(field) && field != ""
    ensures |field| <= FIELD_LIMIT ==> Read(field + tail, m) == Read(tail, m.(state := InField, field := field))
    ensures |field| > FIELD_LIMIT ==> Read(field + tail, m).Err?
  {
    var c := field[0];
    assert c in field;
    assert field + tail == [c] + (field[1..] + tail);
    ReadOne(c, field[1..] + tail, m);
    assert m.field + [c] == [c];
    assert Feed(m, c) == Ok(m.(state := InField, field := [c]));
    ReadPlain(field[1..], tail, m.(state := InField, field := [c]));
    assert [c] + field[1..] == field;
  }

  lemma ReadQuotedField(field: string, tail: string, m: Machine)
    requires tail != "" && AtField(m)
    ensures |field| <= FIELD_LIMIT ==>
      Read("\"" + Doubled(field) + "\"" + tail, m) == Read(tail, m.(state := QuoteInQuoted, field := field))
    ensures |field| > FIELD_LIMIT ==> Read("\"" + Doubled(field) + "\"" + tail, m).Err?
  {
    assert "\"" + Doubled(field) + "\"" + tail == ['"'] + (Doubled(field) + "\"" + tail);
    ReadOne('"', Doubled(field) + "\"" + tail, m);
    ReadDoubled(field, tail, m.(state := InQuoted));
    assert "" + field == field;
  }

  lemma ReadFieldText(field: string, tail: string, m: Machine)
    requires tail != "" && AtField(m) && ('\r' in field ==> NeedsQuotes(field))
    ensures |field| <= FIELD_LIMIT ==> Read(FieldText(field) + tail, m) == Read(tail, Loaded(m, field))
    ensures |field| > FIELD_LIMIT ==> Read(FieldText(field) + tail, m).Err?
  {
    if NeedsQuotes(field) {
      ReadQuotedField(field, tail, m);
    } else if field == "" {
      assert FieldText(field) + tail == tail;
    } else {
      ReadPlainField(field, tail, m);
    }
  }

  lemma ReadComma(rest: string, m: Machine)
    requires rest != "" && (m.state.StartField? || m.state.InField? || m.state.QuoteInQuoted?)
    ensures Read("," + rest, m) == Read(rest, Machine(StartField, "", m.fields + [m.field], m.rows))
  {
  }

  lemma ReadLineFeed(rest: string, m: Machine)
    requires m.state.StartField? || m.state.InField? || m.state.QuoteInQuoted?
    ensures Read("\n" + rest, m) == Read(rest, Machine(StartRecord, "", [], m.rows + [m.fields + [m.field]]))
  {
  }

  predicate AllPrintable(fields: seq<string>) {
    forall i :: 0 <= i < |fields| ==> Printable(fields[i])
  }

  lemma ReadFieldThenComma(field: string, tail: string, m: Machine)
    requires Printable(field) && AtField(m) && (m.state.StartField? || field != "") && tail != ""
    ensures Read(FieldText(field) + ("," + tail), m) == Read(tail, Machine(StartField, "", m.fields + [field], m.rows))
  {
    ReadFieldText(field, "," + tail, m);
    ReadComma(tail, Loaded(m, field));
  }

  lemma ReadFieldThenLineFeed(field: string, rest: string, m: Machine)
    requires Printable(field) && AtField(m) && (m.state.StartField? || field != "")
    ensures Read(FieldText(field) + ("\n" + rest), m)
      == Read(rest, Machine(StartRecord, "", [], m.rows + [m.fields + [field]]))
  {
    ReadFieldText(field, "\n" + rest, m);
    ReadLineFeed(rest, Loaded(m, field));
  }

  lemma RowSplit(fields: seq<string>, rest: string)
    requires fields != []
    ensures RowText(fields) + rest == FieldText(fields[0])
      + if |fields| == 1 then "\n" + rest else "," + (RowText(fields[1..]) + rest)
  {
    if |fields| == 1 {
      Regroup(FieldText(fields[0]), "\n", rest);
    } else {
      Regroup(FieldText(fields[0]) + ",", RowText(fields[1..]), rest);
      Regroup(FieldText(fields[0]), ",", RowText(fields[1..]) + rest);
    }
  }

  lemma Regroup(a: string, b: string, c: string)
    ensures (a + b) + c == a + (b + c)
  {
  }

  lemma ReadFirst(fields: seq<string>, rest: string, m: Machine)
    requires |fields| > 1 && Printable(fields[0]) && AtField(m) && (m.state.StartField? || fields[0] != "")
    ensures Read(RowText(fields) + rest, m)
      == Read(RowText(fields[1..]) + rest, Machine(StartField, "", m.fields + [fields[0]], m.rows))
  {
    RowSplit(fields, rest);
    ReadFieldThenComma(fields[0], RowText(fields[1..]) + rest, m);
  }

  lemma ReadLast(field: string, rest: string, m: Machine)
    requires Printable(field) && AtField(m) && (m.state.StartField? || field != "")
    ensures Read(RowText([field]) + rest, m) == Read(rest, Machine(StartRecord, "", [], m.rows + [m.fields + [field]]))
  {
    RowSplit([field], rest);
    ReadFieldThenLineFeed(field, rest, m);
  }

  lemma {:induction false} ReadRest(fields: seq<string>, rest: string, m: Machine)
    requires fields != [] && AllPrintable(fields) && AtField(m) && (m.state.StartField? || fields[0] != "")
    ensures Read(RowText(fields) + rest, m) == Read(rest, Machine(StartRecord, "", [], m.rows + [m.fields + fields]))
  {
    if |fields| == 1 {
      assert fields == [fields[0]];
      ReadLast(fields[0], rest, m);
    } else {
      ReadFirst(fields, rest, m);
      var next := Machine(StartField, "", m.fields + [fields[0]], m.rows);
      ReadRest(fields[1..], rest, next);
      assert next.fields + fields[1..] == m.fields + fields;
    }
  }

  /** A row of printable fields is read back exactly, whatever follows it. */
  lemma ReadRow(fields: seq<string>, rest: string, rows: seq<seq<string>>)
    requires fields != [] && AllPrintable(fields) && fields[0] != ""
    ensures Read(RowText(fields) + rest, Machine(StartRecord, "", [], rows))
      == Read(rest, Machine(StartRecord, "", [], rows + [fields]))
  {
    ReadRest(fields, rest, Machine(StartRecord, "", [], rows));
    assert [] + fields == fields;
  }

  // ----- a field the reader does not give back -----

  /** Rows already closed are never reopened. */
  lemma {:induction false} RowsStay(text: string, m: Machine)
    requires Read(text, m).Ok?
    ensures m.rows <= Read(text, m).value
  {
    if text != "" {
      var next := Feed(m, text[0]).value;
      RowsStay(text[1..], if LineEnds(text) then EndLine(next) else next);
    }
  }

  /** Reading fails, or closes a next row with no more than this many fields. */
  ghost predicate CutShort(r: Result<seq<seq<string>>, CsvError>, rows: seq<seq<string>>, most: nat) {
    r.Ok? ==> |rows| < |r.value| && r.value[..|rows|] == rows && |r.value[|rows|]| <= most
  }

  /** A carriage return outside quotes ends the record at the field that holds it. */
  lemma {:induction false} CutInPlain(field: string, rest: string, m: Machine)
    requires !NeedsQuotes(field) && '\r' in field && rest != "" && rest[0] != '\n'
      && (m.state.InField? || m.state.StartField?)
    ensures CutShort(Read(field + rest, m), m.rows, |m.fields| + 1)
  {
    var c, tail := field[0], field[1..] + rest;
    assert c in field;
    assert (field + rest)[1..] == tail;
    if c == '\r' {
      var next := EndLine(Feed(m, c).value);
      assert field[1..] != "" ==> field[1..][0] in field;
      assert LineEnds(field + rest);
      if Read(tail, next).Ok? {
        RowsStay(tail, next);
        assert next.rows[|m.rows|] == m.fields + [m.field];
      }
    } else if |m.field| < FIELD_LIMIT {
      assert '\r' in field[1..];
      CutInPlain(field[1..], rest, m.(state := InField, field := m.field + [c]));
    }
  }

  /** The first field that is not printable spoils the row: the reader fails or the row comes out short. */
  lemma {:induction false} CutInRow(fields: seq<string>, rest: string, m: Machine, bad: nat)
    requires bad < |fields| - 1 && !Printable(fields[bad]) && forall i :: 0 <= i < bad ==> Printable(fields[i])
    requires AtField(m) && (m.state.StartField? || (bad > 0 && fields[0] != ""))
    ensures CutShort(Read(RowText(fields) + rest, m), m.rows, |m.fields| + bad + 1)
    decreases bad
  {
    var field := fields[0];
    var tail := RowText(fields[1..]) + rest;
    RowSplit(fields, rest);
    if bad > 0 {
      ReadFieldThenComma(field, tail, m);
      CutInRow(fields[1..], rest, Machine(StartField, "", m.fields + [field], m.rows), bad - 1);
    } else if '\r' in field && !NeedsQuotes(field) {
      CutInPlain(field, "," + tail, m);
    } else {
      ReadFieldText(field, "," + tail, m);
    }
  }
}

/**
 * CSV export: cells are guarded against being taken for formulas, always
 * quoted, and joined by commas and line feeds behind a byte order mark. The
 * reader follows section 2 of RFC 4180, with a line feed as the row break.
 */
module Csv {
  import opened Common

  const BOM := '\U{FEFF}'

  // -------------------------------------------------------------- the program

  predicate Dangerous(text: string) {
    text != []
    && (text[0] == '=' || text[0] == '+' || text[0] == '-' || text[0] == '@' || text[0] == '\t' || text[0] == '\r')
  }

  function Guard(text: string): string { if Dangerous(text) then "'" + text else text }

  function DoubleQuotes(text: string): string {
    if text == [] then []
    else (if text[0] == '"' then ['"', '"'] else [text[0]]) + DoubleQuotes(text[1..])
  }

  function CsvCell(text: string): string { ['"'] + DoubleQuotes(Guard(text)) + ['"'] }

  function Join(parts: seq<string>, separator: char): string {
    if parts == [] then []
    else if |parts| == 1 then parts[0]
    else parts[0] + [separator] + Join(parts[1..], separator)
  }

  function CsvRow(row: seq<string>): string { Join(seq(|row|, i requires 0 <= i < |row| => CsvCell(row[i])), ',') }

  function ToCsv(rows: seq<seq<string>>): string {
    [BOM] + Join(seq(|rows|, i requires 0 <= i < |rows| => CsvRow(rows[i])), '\n')
  }

  // --------------------------------------------------------------- the reader

  datatype Read<T> = Malformed | Read(value: T, rest: string)

  /** Behind the opening quote: up to the closing one, a doubled quote standing for one. */
  function ReadQuoted(s: string): (r: Read<string>)
    ensures r.Read? ==> |r.rest| < |s|
  {
    if s == [] then Malformed
    else if s[0] != '"' then
      (match ReadQuoted(s[1..])
       case Malformed => Malformed
       case Read(text, rest) => Read([s[0]] + text, rest))
    else if |s| > 1 && s[1] == '"' then
      (match ReadQuoted(s[2..])
       case Malformed => Malformed
       case Read(text, rest) => Read(['"'] + text, rest))
    else Read([], s[1..])
  }

  /** An unquoted field: up to a comma or a line feed, and no quote inside. */
  function ReadPlain(s: string): (r: Read<string>)
    ensures r.Read? ==> |r.rest| <= |s|
  {
    if s == [] || s[0] == ',' || s[0] == '\n' then Read([], s)
    else if s[0] == '"' then Malformed
    else match ReadPlain(s[1..])
      case Malformed => Malformed
      case Read(text, rest) => Read([s[0]] + text, rest)
  }

  function ReadField(s: string): (r: Read<string>)
    ensures r.Read? ==> |r.rest| <= |s|
  {
    if s != [] && s[0] == '"' then ReadQuoted(s[1..]) else ReadPlain(s)
  }

  /** Fields up to a line feed or the end. */
  function ReadRecord(s: string): (r: Read<seq<string>>)
    ensures r.Read? ==> |r.rest| <= |s|
    decreases |s|
  {
    match ReadField(s)
    case Malformed => Malformed
    case Read(field, rest) =>
      if rest == [] || rest[0] == '\n' then Read([field], rest)
      else if rest[0] != ',' then Malformed
      else match ReadRecord(rest[1..])
        case Malformed => Malformed
        case Read(fields, end) => Read([field] + fields, end)
  }

  function ReadRecords(s: string): Option<seq<seq<string>>>
    decreases |s|
  {
    match ReadRecord(s)
    case Malformed => None
    case Read(record, rest) =>
      if rest == [] then Some([record])
      else match ReadRecords(rest[1..])
        case None => None
        case Some(records) => Some([record] + records)
  }

  /** Skips the byte order mark; an empty text has no rows. */
  function ReadCsv(text: string): Option<seq<seq<string>>> {
    var s := if text != [] && text[0] == BOM then text[1..] else text;
    if s == [] then Some([]) else ReadRecords(s)
  }

  // --------------------------------------------------------------- round trip

  /** What stands behind a cell: the end, a comma or a line feed. */
  predicate Delimited(rest: string) { rest == [] || rest[0] == ',' || rest[0] == '\n' }

  lemma {:induction false} QuotedReadsBack(text: string, rest: string)
    requires Delimited(rest)
    ensures ReadQuoted(DoubleQuotes(text) + ['"'] + rest) == Read(text, rest)
    decreases |text|
  {
    var s := DoubleQuotes(text) + ['"'] + rest;
    if text == [] {
      assert s == ['"'] + rest && s[1..] == rest;
    } else {
      QuotedReadsBack(text[1..], rest);
      var tail := DoubleQuotes(text[1..]) + ['"'] + rest;
      if text[0] == '"' {
        assert s == ['"', '"'] + tail && s[2..] == tail;
      } else {
        assert s == [text[0]] + tail && s[1..] == tail;
      }
      assert text == [text[0]] + text[1..];
    }
  }

  lemma CellReadsBack(text: string, rest: string)
    requires Delimited(rest)
    ensures ReadField(CsvCell(text) + rest) == Read(Guard(text), rest)
    ensures CsvCell(text) != [] && CsvCell(text)[0] == '"'
  {
    QuotedReadsBack(Guard(text), rest);
    assert (CsvCell(text) + rest)[1..] == DoubleQuotes(Guard(text)) + ['"'] + rest;
  }

  function Guarded(row: seq<string>): seq<string> {
    seq(|row|, i requires 0 <= i < |row| => Guard(row[i]))
  }

  function GuardedRows(rows: seq<seq<string>>): seq<seq<string>> {
    seq(|rows|, i requires 0 <= i < |rows| => Guarded(rows[i]))
  }

  lemma JoinStep(parts: seq<string>, separator: char)
    requires |parts| > 1
    ensures Join(parts, separator) == parts[0] + [separator] + Join(parts[1..], separator)
  {
  }

  lemma RowStep(row: seq<string>)
    requires row != []
    ensures CsvRow(row) == CsvCell(row[0]) + if |row| == 1 then [] else [','] + CsvRow(row[1..])
  {
    hide CsvCell;
    var parts := seq(|row|, i requires 0 <= i < |row| => CsvCell(row[i]));
    if |row| > 1 {
      JoinStep(parts, ',');
      assert parts[1..] == seq(|row[1..]|, i requires 0 <= i < |row[1..]| => CsvCell(row[1..][i]));
      assert parts[0] + [','] + Join(parts[1..], ',') == parts[0] + ([','] + Join(parts[1..], ','));
    }
  }

  lemma {:induction false} RowReadsBack(row: seq<string>, rest: string)
    requires row != [] && (rest == [] || rest[0] == '\n')
    ensures ReadRecord(CsvRow(row) + rest) == Read(Guarded(row), rest)
    decreases |row|
  {
    hide CsvCell, CsvRow, Guard, ReadField, Guarded;
    RowStep(row);
    GuardedStep(row);
    var after := if |row| == 1 then rest else [','] + (CsvRow(row[1..]) + rest);
    assert CsvRow(row) + rest == CsvCell(row[0]) + after;
    CellReadsBack(row[0], after);
    if |row| > 1 {
      assert after[1..] == CsvRow(row[1..]) + rest;
      RowReadsBack(row[1..], rest);
    }
  }

  lemma GuardedStep(row: seq<string>)
    requires row != []
    ensures Guarded(row) == if |row| == 1 then [Guard(row[0])] else [Guard(row[0])] + Guarded(row[1..])
  {
    hide Guard;
  }

  function Lines(rows: seq<seq<string>>): string {
    Join(seq(|rows|, i requires 0 <= i < |rows| => CsvRow(rows[i])), '\n')
  }

  lemma LinesStep(rows: seq<seq<string>>)
    requires rows != []
    ensures Lines(rows) == CsvRow(rows[0]) + if |rows| == 1 then [] else ['\n'] + Lines(rows[1..])
  {
    hide CsvRow;
    var parts := seq(|rows|, i requires 0 <= i < |rows| => CsvRow(rows[i]));
    if |rows| > 1 {
      JoinStep(parts, '\n');
      assert parts[1..] == seq(|rows[1..]|, i requires 0 <= i < |rows[1..]| => CsvRow(rows[1..][i]));
      assert parts[0] + ['\n'] + Join(parts[1..], '\n') == parts[0] + (['\n'] + Join(parts[1..], '\n'));
    }
  }

  lemma {:induction false} LinesReadBack(rows: seq<seq<string>>)
    requires rows != [] && forall i :: 0 <= i < |rows| ==> rows[i] != []
    ensures ReadRecords(Lines(rows)) == Some(GuardedRows(rows))
    decreases |rows|
  {
    hide CsvRow, Lines, ReadRecord, Guarded, GuardedRows;
    LinesStep(rows);
    GuardedRowsStep(rows);
    var after := if |rows| == 1 then [] else ['\n'] + Lines(rows[1..]);
    RowReadsBack(rows[0], after);
    if |rows| > 1 {
      assert after[1..] == Lines(rows[1..]);
      LinesReadBack(rows[1..]);
    }
  }

  lemma GuardedRowsStep(rows: seq<seq<string>>)
    requires rows != []
    ensures GuardedRows(rows) == if |rows| == 1 then [Guarded(rows[0])] else [Guarded(rows[0])] + GuardedRows(rows[1..])
  {
    hide Guarded;
  }

  /** Reading an export returns every cell, guarded, whatever quotes, commas or line feeds it holds. */
  lemma ExportReadsBack(rows: seq<seq<string>>)
    requires forall i :: 0 <= i < |rows| ==> rows[i] != []
    ensures ReadCsv(ToCsv(rows)) == Some(GuardedRows(rows)) && ToCsv(rows)[0] == '\U{FEFF}'
  {
    assert ToCsv(rows)[1..] == Lines(rows);
    if rows == [] {
      assert GuardedRows(rows) == [];
    } else {
      LinesReadBack(rows);
      LinesStep(rows);
      RowStep(rows[0]);
      assert CsvCell(rows[0][0]) != [];
      hide CsvCell, CsvRow, Lines, ReadRecords, Guarded;
      assert Lines(rows) != [];
    }
  }

  /** No exported cell starts like a formula; two texts come out alike only when one is the other's guarded form. */
  lemma GuardLaws(a: string, b: string)
    ensures Guard(a) == if a != [] && a[0] in {'=', '+', '-', '@', '\t', '\r'} then "'" + a else a
    ensures !Dangerous(Guard(a))
    ensures Guard(a) == Guard(b) <==>
              a == b || (Dangerous(a) && b == "'" + a) || (Dangerous(b) && a == "'" + b)
  {
    if Dangerous(a) && Dangerous(b) && Guard(a) == Guard(b) {
      assert Guard(a)[1..] == a && Guard(b)[1..] == b;
    }
  }
}

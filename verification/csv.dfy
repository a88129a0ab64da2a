/**
 The CSV text written for a list of records by Go's `encoding/csv` Writer
 with its default settings (comma delimiter, "\n" line ends), as main.go
 uses it. A field is written bare unless it needs quoting; a quoted field is
 wrapped in double quotes with every inner double quote doubled, the escape
 of section 2 of RFC 4180. A reader for the same format is used to state
 the round trip: reading the written text gives the records back.
 */
module CsvText {
  import opened GoText
  import opened Wrappers

  /** The writer's quoting rule: never the empty field; always the field `\.`;
      otherwise exactly the fields holding a comma, a double quote, a carriage
      return or a line feed, or starting with white space. */
  predicate NeedsQuotes(field: string)
  {
    if field == [] then false
    else if field == ['\\', '.'] then true
    else ',' in field || '"' in field || '\r' in field || '\n' in field || IsSpace(field[0])
  }

  /** The inside of a quoted field: every double quote doubled, every other
      character (line breaks included) copied. */
  function Escape(field: string): (r: string)
    ensures |r| >= |field|
  {
    if field == [] then []
    else (if field[0] == '"' then ['"', '"'] else [field[0]]) + Escape(field[1..])
  }

  function EncodeField(field: string): string
  {
    if NeedsQuotes(field) then ['"'] + Escape(field) + ['"'] else field
  }

  /** The fields of one record, encoded and separated by commas. */
  function EncodeFields(record: seq<string>): string
  {
    if |record| == 0 then []
    else if |record| == 1 then EncodeField(record[0])
    else EncodeField(record[0]) + [','] + EncodeFields(record[1..])
  }

  /** `Writer.Write(record)`: the encoded fields and a line feed. */
  function WriteRecord(record: seq<string>): string
  {
    EncodeFields(record) + ['\n']
  }

  /** The text of a list of records, one line each, in order. */
  function WriteAll(records: seq<seq<string>>): string
  {
    if |records| == 0 then [] else WriteRecord(records[0]) + WriteAll(records[1..])
  }

  /** Writing one more record appends its line. */
  lemma {:induction false} WriteAllSnoc(records: seq<seq<string>>, record: seq<string>)
    ensures WriteAll(records + [record]) == WriteAll(records) + WriteRecord(record)
    decreases |records|
  {
    if |records| == 0 {
      assert records + [record] == [record];
    } else {
      assert (records + [record])[1..] == records[1..] + [record];
      WriteAllSnoc(records[1..], record);
    }
  }

  /** The writing loop of main.go:266-279: each record in turn through the
      writer, then one flush. */
  method WriteRecords(records: seq<seq<string>>) returns (text: string)
    ensures text == WriteAll(records)
  {
    text := [];
    for i := 0 to |records|
      invariant text == WriteAll(records[..i])
    {
      WriteAllSnoc(records[..i], records[i]);
      assert records[..i + 1] == records[..i] + [records[i]];
      text := text + WriteRecord(records[i]);
    }
    assert records[..|records|] == records;
  }

  /** The inside of a quoted field, read up to its closing quote: a doubled
      quote stands for one quote, and every other character for itself. The
      remainder after the closing quote is returned; None when the quote is
      never closed. */
  function ReadQuoted(s: string): (r: Option<(string, string)>)
    ensures r.Some? ==> |r.value.1| < |s|
  {
    if s == [] then None
    else if s[0] == '"' then
      if |s| > 1 && s[1] == '"' then
        match ReadQuoted(s[2..])
        case None => None
        case Some(p) => Some((['"'] + p.0, p.1))
      else Some(([], s[1..]))
    else
      match ReadQuoted(s[1..])
      case None => None
      case Some(p) => Some(([s[0]] + p.0, p.1))
  }

  /** A bare field: everything up to the next comma, line feed or the end. */
  function ReadBare(s: string): (r: (string, string))
    ensures r.0 + r.1 == s
  {
    if s == [] || s[0] == ',' || s[0] == '\n' then ([], s)
    else
      var p := ReadBare(s[1..]);
      ([s[0]] + p.0, p.1)
  }

  function ReadField(s: string): (r: Option<(string, string)>)
    ensures r.Some? ==> |r.value.1| <= |s|
  {
    if s != [] && s[0] == '"' then ReadQuoted(s[1..]) else Some(ReadBare(s))
  }

  /** The fields of one line, up to and including its line feed (or the end
      of the text); None when a quoted field is not closed or is followed by
      anything but a comma or a line feed. A line that is not empty is always
      consumed by at least one character. */
  function ReadFields(s: string): (r: Option<(seq<string>, string)>)
    ensures r.Some? ==> |r.value.1| <= |s| && (s != [] ==> |r.value.1| < |s|)
    decreases |s|
  {
    match ReadField(s)
    case None => None
    case Some(p) =>
      var (field, rest) := p;
      if rest == [] then Some(([field], []))
      else if rest[0] == '\n' then Some(([field], rest[1..]))
      else if rest[0] == ',' then
        match ReadFields(rest[1..])
        case None => None
        case Some(q) => Some(([field] + q.0, q.1))
      else None
  }

  /** Every line of the text as a record. */
  function ReadAll(s: string): Option<seq<seq<string>>>
    decreases |s|
  {
    if s == [] then Some([])
    else
      match ReadFields(s)
      case None => None
      case Some(p) =>
        match ReadAll(p.1)
        case None => None
        case Some(records) => Some([p.0] + records)
  }

  /** A field ends where a comma, a line feed or the end of the text follows. */
  predicate FieldEnd(t: string)
  {
    t == [] || t[0] == ',' || t[0] == '\n'
  }

  /** The inside of a quoted field reads back to the field, stopping at the
      closing quote. */
  lemma {:induction false} ReadEscape(field: string, t: string)
    requires t == [] || t[0] != '"'
    ensures ReadQuoted(Escape(field) + ['"'] + t) == Some((field, t))
    decreases |field|
  {
    var s := Escape(field) + ['"'] + t;
    if field == [] {
      assert s == ['"'] + t;
      assert s[1..] == t;
    } else if field[0] == '"' {
      assert s == ['"', '"'] + (Escape(field[1..]) + ['"'] + t);
      assert s[2..] == Escape(field[1..]) + ['"'] + t;
      ReadEscape(field[1..], t);
      assert ['"'] + field[1..] == field;
    } else {
      assert s == [field[0]] + (Escape(field[1..]) + ['"'] + t);
      assert s[1..] == Escape(field[1..]) + ['"'] + t;
      ReadEscape(field[1..], t);
      assert [field[0]] + field[1..] == field;
    }
  }

  /** A field without commas or line feeds reads back bare. */
  lemma {:induction false} ReadBarePlain(field: string, t: string)
    requires ',' !in field && '\n' !in field && FieldEnd(t)
    ensures ReadBare(field + t) == (field, t)
    decreases |field|
  {
    if field == [] {
      assert field + t == t;
    } else {
      assert (field + t)[1..] == field[1..] + t;
      ReadBarePlain(field[1..], t);
      assert [field[0]] + field[1..] == field;
    }
  }

  /** Every encoded field reads back to itself, quoted or not. */
  lemma ReadEncodedField(field: string, t: string)
    requires FieldEnd(t)
    ensures ReadField(EncodeField(field) + t) == Some((field, t))
  {
    if NeedsQuotes(field) {
      var s := ['"'] + Escape(field) + ['"'] + t;
      assert s[1..] == Escape(field) + ['"'] + t;
      ReadEscape(field, t);
    } else {
      ReadBarePlain(field, t);
      assert field != [] ==> field[0] != '"';
    }
  }

  /** The line of a record with at least one field reads back to the record,
      leaving the text after its line feed. */
  lemma {:induction false} ReadWrittenRecord(record: seq<string>, t: string)
    requires |record| > 0
    ensures ReadFields(WriteRecord(record) + t) == Some((record, t))
    decreases |record|
  {
    var after := ['\n'] + t;
    if |record| == 1 {
      assert WriteRecord(record) + t == EncodeField(record[0]) + after;
      ReadEncodedField(record[0], after);
      assert after[1..] == t;
      assert [record[0]] == record;
    } else {
      var tail := WriteRecord(record[1..]) + t;
      assert WriteRecord(record) + t == EncodeField(record[0]) + ([','] + tail);
      ReadEncodedField(record[0], [','] + tail);
      assert ([','] + tail)[1..] == tail;
      ReadWrittenRecord(record[1..], t);
      assert [record[0]] + record[1..] == record;
    }
  }

  /** Round trip: reading the written text gives back every record, in
      order, provided no record is empty (the empty record writes the same
      blank line as the record of one empty field). */
  lemma {:induction false} ReadWriteAll(records: seq<seq<string>>)
    requires forall j :: 0 <= j < |records| ==> |records[j]| > 0
    ensures ReadAll(WriteAll(records)) == Some(records)
    decreases |records|
  {
    if |records| > 0 {
      var rest := WriteAll(records[1..]);
      ReadWrittenRecord(records[0], rest);
      ReadWriteAll(records[1..]);
      assert [records[0]] + records[1..] == records;
    }
  }

  /** The one record the round trip cannot tell apart: a record with no
      fields and a record of one empty field are both written as a blank
      line. */
  lemma EmptyRecordIsBlankLine()
    ensures WriteRecord([]) == WriteRecord([""]) == "\n"
  {
  }

  /** Fields that need no quoting are written verbatim, so a record of such
      fields is its fields joined by commas. */
  lemma {:induction false} PlainRecord(record: seq<string>)
    requires forall j :: 0 <= j < |record| ==> !NeedsQuotes(record[j])
    ensures EncodeFields(record) == Join(record, ',')
    decreases |record|
  {
    if |record| > 1 {
      PlainRecord(record[1..]);
    }
  }

  /** Records without fields are written as blank lines, one per record. */
  lemma {:induction false} EmptyRecordsBlankLines(records: seq<seq<string>>)
    requires forall j :: 0 <= j < |records| ==> |records[j]| == 0
    ensures WriteAll(records) == seq(|records|, _ => '\n')
    decreases |records|
  {
    if |records| > 0 {
      EmptyRecordsBlankLines(records[1..]);
      assert records[0] == [];
    }
  }
}

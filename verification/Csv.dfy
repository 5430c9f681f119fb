// The exported CSV text and a decoder for it after section 2 of RFC 4180.
module Csv {
  import opened Wrappers
  import opened Text

  const BOM := "\U{FEFF}"
  const HEADER := ["audit_id", "event", "object_key", "record_id", "actor_id", "role_key", "request_id", "result",
                   "reason", "created_at"]

  // ---------- encoding/csv's writer: comma separated, lines end in LF ----------

  predicate Structural(c: char) {
    c == ',' || c == '"' || c == '\r' || c == '\n'
  }

  predicate NeedsQuotes(field: string) {
    field != "" && (field == "\\." || (exists i :: 0 <= i < |field| && Structural(field[i])) || IsSpace(field[0]))
  }

  // Every double quote twice.
  function Doubled(field: string): string {
    if field == "" then "" else (if field[0] == '"' then "\"\"" else [field[0]]) + Doubled(field[1..])
  }

  function FieldText(field: string): string {
    if NeedsQuotes(field) then "\"" + Doubled(field) + "\"" else field
  }

  // The fields of one line from the first on, and the line end.
  function RecordText(fields: seq<string>): string {
    if fields == [] then "\n"
    else FieldText(fields[0]) + (if |fields| == 1 then "\n" else "," + RecordText(fields[1..]))
  }

  function RecordsText(records: seq<seq<string>>): string {
    if records == [] then "" else RecordText(records[0]) + RecordsText(records[1..])
  }

  function ExportText(rows: seq<seq<string>>): string {
    BOM + RecordText(HEADER) + RecordsText(rows)
  }

  lemma {:induction false} RecordsTextAppend(records: seq<seq<string>>, last: seq<string>)
    ensures RecordsText(records + [last]) == RecordsText(records) + RecordText(last)
  {
    if records == [] {
      assert RecordsText([last]) == RecordText(last) + RecordsText([]);
    } else {
      assert (records + [last])[1..] == records[1..] + [last];
      RecordsTextAppend(records[1..], last);
    }
  }

  lemma {:induction false} HeaderWidth()
    ensures |HEADER| == 10
  {
  }

  // csv.Writer.Write.
  method WriteRecord(buffer: string, fields: seq<string>) returns (out: string)
    ensures |fields| > 0 ==> out == buffer + RecordText(fields)
  {
    hide FieldText;
    out := buffer;
    for i := 0 to |fields|
      invariant i < |fields| ==>
                out + (if i == 0 then "" else ",") + RecordText(fields[i..]) == buffer + RecordText(fields)
      invariant i == |fields| && i > 0 ==> out + "\n" == buffer + RecordText(fields)
    {
      if i > 0 {
        out := out + ",";
      }
      assert fields[i..][1..] == fields[i + 1..];
      out := out + FieldText(fields[i]);
    }
    out := out + "\n";
  }

  method EncodeExportCSV(rows: seq<seq<string>>) returns (b: string)
    requires forall r :: r in rows ==> |r| > 0
    ensures b == ExportText(rows)
  {
    hide RecordText, HEADER;
    assert |HEADER| > 0 by { HeaderWidth(); }
    b := WriteRecord(BOM, HEADER);
    assert RecordsText(rows[..0]) == "";
    for i := 0 to |rows|
      invariant b == ExportText(rows[..i])
    {
      assert rows[..i + 1] == rows[..i] + [rows[i]] && rows[i] in rows;
      RecordsTextAppend(rows[..i], rows[i]);
      b := WriteRecord(b, rows[i]);
    }
    assert rows[..|rows|] == rows;
  }

  // ---------- the decoder ----------

  // Unquoted text runs up to a comma, a line end or the end of the file; a quote may not occur in it.
  function DecodePlain(s: string): Option<(string, string)> {
    if s == "" || s[0] == ',' || s[0] == '\r' || s[0] == '\n' then Some(("", s))
    else if s[0] == '"' then None
    else
      var (tail, rest) :- DecodePlain(s[1..]);
      Some(([s[0]] + tail, rest))
  }

  // Quoted text runs up to a quote that is not doubled.
  function DecodeQuoted(s: string): Option<(string, string)> {
    if s == "" then None
    else if s[0] == '"' then
      if |s| > 1 && s[1] == '"' then
        var (tail, rest) :- DecodeQuoted(s[2..]);
        Some(("\"" + tail, rest))
      else Some(("", s[1..]))
    else
      var (tail, rest) :- DecodeQuoted(s[1..]);
      Some(([s[0]] + tail, rest))
  }

  function DecodeField(s: string): (r: Option<(string, string)>)
    ensures r.Some? ==> |r.value.1| <= |s|
  {
    if s != "" && s[0] == '"' then (QuotedShrinks(s[1..]); DecodeQuoted(s[1..])) else (PlainShrinks(s); DecodePlain(s))
  }

  lemma {:induction false} PlainShrinks(s: string)
    ensures var r := DecodePlain(s); r.Some? ==> |r.value.1| <= |s|
  {
    if s != "" {
      PlainShrinks(s[1..]);
    }
  }

  lemma {:induction false} QuotedShrinks(s: string)
    ensures var r := DecodeQuoted(s); r.Some? ==> |r.value.1| <= |s|
    decreases |s|
  {
    if s != "" {
      QuotedShrinks(s[1..]);
      if |s| > 1 {
        QuotedShrinks(s[2..]);
      }
    }
  }

  // One record and the text after its line end.
  function DecodeRecord(s: string): (r: Option<(seq<string>, string)>)
    ensures r.Some? ==> |r.value.1| <= |s| && (s != "" ==> |r.value.1| < |s|)
    decreases |s|
  {
    var (field, rest) :- DecodeField(s);
    if rest == "" then Some(([field], ""))
    else if rest[0] == ',' then
      var (fields, after) :- DecodeRecord(rest[1..]);
      Some(([field] + fields, after))
    else if rest[0] == '\n' then Some(([field], rest[1..]))
    else if rest[0] == '\r' && |rest| > 1 && rest[1] == '\n' then Some(([field], rest[2..]))
    else None
  }

  function DecodeRecords(s: string): Option<seq<seq<string>>>
    decreases |s|
  {
    if s == "" then Some([])
    else
      var (record, rest) :- DecodeRecord(s);
      var records :- DecodeRecords(rest);
      Some([record] + records)
  }

  // The records of an export, its byte-order mark removed.
  function Decode(content: string): Option<seq<seq<string>>> {
    if HasPrefix(content, BOM) then DecodeRecords(content[|BOM|..]) else None
  }

  // ---------- round trip ----------

  lemma {:induction false} QuotedRoundTrip(field: string, rest: string)
    requires rest == "" || rest[0] != '"'
    ensures DecodeQuoted(Doubled(field) + "\"" + rest) == Some((field, rest))
  {
    var s := Doubled(field) + "\"" + rest;
    if field == "" {
      assert s == "\"" + rest && s[1..] == rest;
    } else {
      var tail := Doubled(field[1..]) + "\"" + rest;
      QuotedRoundTrip(field[1..], rest);
      if field[0] == '"' {
        assert s == "\"\"" + tail && s[2..] == tail;
      } else {
        assert s == [field[0]] + tail && s[1..] == tail;
      }
      assert field == [field[0]] + field[1..];
    }
  }

  lemma {:induction false} PlainRoundTrip(field: string, rest: string)
    requires forall i :: 0 <= i < |field| ==> !Structural(field[i])
    requires rest != "" && (rest[0] == ',' || rest[0] == '\n')
    ensures DecodePlain(field + rest) == Some((field, rest))
  {
    if field == "" {
      assert field + rest == rest;
    } else {
      assert (field + rest)[1..] == field[1..] + rest;
      PlainRoundTrip(field[1..], rest);
      assert field == [field[0]] + field[1..];
    }
  }

  lemma {:induction false} FieldRoundTrip(field: string, rest: string)
    requires rest != "" && (rest[0] == ',' || rest[0] == '\n')
    ensures DecodeField(FieldText(field) + rest) == Some((field, rest))
  {
    hide Doubled, DecodeQuoted, DecodePlain;
    if NeedsQuotes(field) {
      QuotedRoundTrip(field, rest);
      var s := FieldText(field) + rest;
      assert s == "\"" + (Doubled(field) + "\"" + rest);
      assert s[0] == '"' && s[1..] == Doubled(field) + "\"" + rest;
    } else {
      PlainRoundTrip(field, rest);
      var s := field + rest;
      assert s[0] != '"' by {
        if field != "" {
          assert !Structural(field[0]);
        }
      }
    }
  }

  lemma {:induction false} DecodeLast(s: string, field: string, rest: string)
    requires DecodeField(s) == Some((field, "\n" + rest))
    ensures DecodeRecord(s) == Some(([field], rest))
  {
    assert ("\n" + rest)[1..] == rest;
  }

  lemma {:induction false} DecodeNext(s: string, field: string, after: string, fields: seq<string>, rest: string)
    requires DecodeField(s) == Some((field, "," + after)) && DecodeRecord(after) == Some((fields, rest))
    ensures DecodeRecord(s) == Some(([field] + fields, rest))
  {
    assert ("," + after)[1..] == after;
  }

  lemma {:induction false} RecordRoundTrip(fields: seq<string>, rest: string)
    requires |fields| > 0
    ensures DecodeRecord(RecordText(fields) + rest) == Some((fields, rest))
  {
    hide DecodeField, DecodeRecord, FieldText;
    var s := RecordText(fields) + rest;
    if |fields| == 1 {
      assert s == FieldText(fields[0]) + ("\n" + rest);
      FieldRoundTrip(fields[0], "\n" + rest);
      DecodeLast(s, fields[0], rest);
      assert fields == [fields[0]];
    } else {
      var after := RecordText(fields[1..]) + rest;
      assert s == FieldText(fields[0]) + ("," + after);
      FieldRoundTrip(fields[0], "," + after);
      RecordRoundTrip(fields[1..], rest);
      DecodeNext(s, fields[0], after, fields[1..], rest);
      assert fields == [fields[0]] + fields[1..];
    }
  }

  lemma {:induction false} RecordsRoundTrip(records: seq<seq<string>>)
    requires forall r :: r in records ==> |r| > 0
    ensures DecodeRecords(RecordsText(records)) == Some(records)
  {
    if records != [] {
      assert records[0] in records;
      var rest := RecordsText(records[1..]);
      RecordRoundTrip(records[0], rest);
      RecordIsNotEmpty(records[0]);
      RecordsRoundTrip(records[1..]);
      assert records == [records[0]] + records[1..];
    }
  }

  lemma {:induction false} RecordIsNotEmpty(fields: seq<string>)
    ensures RecordText(fields) != ""
  {
  }

  // The decoder recovers the header and every row exactly, whatever the fields hold, so it also tells
  // how many rows were exported.
  lemma {:induction false} ExportRoundTrip(rows: seq<seq<string>>)
    requires forall r :: r in rows ==> |r| > 0
    ensures Decode(ExportText(rows)) == Some([HEADER] + rows)
  {
    hide RecordText, HEADER, DecodeRecords;
    HeaderWidth();
    var text := ExportText(rows);
    assert text == BOM + (RecordText(HEADER) + RecordsText(rows));
    assert text[..|BOM|] == BOM && text[|BOM|..] == RecordText(HEADER) + RecordsText(rows);
    assert ([HEADER] + rows)[1..] == rows;
    assert RecordsText([HEADER] + rows) == RecordText(HEADER) + RecordsText(rows);
    RecordsRoundTrip([HEADER] + rows);
  }

  // Different rows are never exported as the same text.
  lemma {:induction false} ExportIsInjective(a: seq<seq<string>>, b: seq<seq<string>>)
    requires forall r :: r in a + b ==> |r| > 0
    requires ExportText(a) == ExportText(b)
    ensures a == b
  {
    assert forall r :: r in a || r in b ==> r in a + b;
    ExportRoundTrip(a);
    ExportRoundTrip(b);
    assert ([HEADER] + a)[1..] == a && ([HEADER] + b)[1..] == b;
  }

  // How a field is written: as it is, or quoted with its quotes doubled if it holds a comma, a quote or a line
  // break, starts with white space, or is a backslash and a dot.
  lemma {:induction false} FieldInFull(field: string)
    ensures var special := field == "\\." || (field != "" && IsSpace(field[0])) ||
                           ',' in field || '"' in field || '\r' in field || '\n' in field;
            FieldText(field) == if special then "\"" + Doubled(field) + "\"" else field
  {
    assert (exists i :: 0 <= i < |field| && Structural(field[i])) <==>
           ',' in field || '"' in field || '\r' in field || '\n' in field;
  }

  // Fields are separated by commas and a line feed ends the record.
  lemma {:induction false} RecordInFull(fields: seq<string>, last: string)
    ensures RecordText([last]) == FieldText(last) + "\n"
    ensures fields != [] ==> RecordText([last] + fields) == FieldText(last) + "," + RecordText(fields)
  {
    hide FieldText;
    assert ([last] + fields)[1..] == fields;
  }

  // What a reader of the export finds: the byte-order mark, the header's names, and the rows.
  lemma {:induction false} ExportReads(rows: seq<seq<string>>)
    requires forall r :: r in rows ==> |r| > 0
    ensures ExportText(rows) != "" && ExportText(rows)[0] == '\U{FEFF}'
    ensures Decode(ExportText(rows)) ==
            Some([["audit_id", "event", "object_key", "record_id", "actor_id", "role_key", "request_id", "result",
                   "reason", "created_at"]] + rows)
  {
    hide Decode, RecordText, RecordsText;
    ExportRoundTrip(rows);
  }
}

/** CSV export with spreadsheet-formula neutralization, checked against the grammar of
    section 2 of RFC 4180 (with LF record ends, as the exporter writes them). */
module Csv {
  import opened Wrappers
  import opened Text

  datatype CsvError = NoRows

  type Record = seq<string>

  // ---------------------------------------------------------------- exporter

  predicate IsTrigger(c: char) {
    c in {'=', '+', '-', '@', '\t', '\r'}
  }

  function NeutralizeCell(raw: string): string {
    var trimmed := TrimStart(raw);
    if trimmed != "" && IsTrigger(trimmed[0]) then "'" + raw else raw
  }

  /** The characters that force a field into quotes. */
  predicate IsSpecial(c: char) {
    c == ',' || c == '"' || c == '\n' || c == '\r'
  }

  predicate IsPlain(s: string) {
    forall i :: 0 <= i < |s| ==> !IsSpecial(s[i])
  }

  /** Every quote doubled. */
  function Escape(s: string): string {
    if s == "" then "" else (if s[0] == '"' then "\"\"" else [s[0]]) + Escape(s[1..])
  }

  function QuoteCell(cell: string): string {
    if IsPlain(cell) then cell else "\"" + Escape(cell) + "\""
  }

  function NeutralizeRecord(cells: Record): (r: Record)
    ensures |r| == |cells|
  {
    seq(|cells|, i requires 0 <= i < |cells| => NeutralizeCell(cells[i]))
  }

  function NeutralizeAll(records: seq<Record>): (r: seq<Record>)
    ensures |r| == |records|
  {
    seq(|records|, i requires 0 <= i < |records| => NeutralizeRecord(records[i]))
  }

  function QuoteRecord(cells: Record): (r: Record)
    ensures |r| == |cells|
  {
    seq(|cells|, i requires 0 <= i < |cells| => QuoteCell(cells[i]))
  }

  function Line(cells: Record): string {
    Join(QuoteRecord(NeutralizeRecord(cells)), ",")
  }

  function Export(records: seq<Record>): string {
    if records == [] then "" else Line(records[0]) + "\n" + Export(records[1..])
  }

  predicate NoEmptyRecord(records: seq<Record>) {
    forall i :: 0 <= i < |records| ==> records[i] != []
  }

  lemma ExportNext(out: string, records: seq<Record>)
    requires records != []
    ensures out + Export(records) == out + Line(records[0]) + "\n" + Export(records[1..])
  {
  }

  /** The export of a non-empty table reads back, under the grammar, as the neutralized
      table exactly when no record is without cells. */
  method RowsToCsv(header: Record, rows: seq<Record>) returns (r: Result<string, CsvError>)
    ensures r.Err? <==> rows == []
    ensures r.Ok? ==> (ParseFile(r.value) == Some(NeutralizeAll([header] + rows)) <==> NoEmptyRecord([header] + rows))
    ensures r.Ok? ==> r.value == Export([header] + rows)
  {
    if rows == [] {
      return Err(NoRows);
    }
    ghost var whole := Export([header] + rows);
    assert ([header] + rows)[1..] == rows;
    var out := Line(header) + "\n";
    for k := 0 to |rows|
      invariant whole == out + Export(rows[k..])
    {
      ExportNext(out, rows[k..]);
      assert rows[k..][1..] == rows[k + 1..];
      out := out + Line(rows[k]);
      out := out + "\n";
    }
    assert rows[|rows|..] == [];
    assert out == whole;
    ExportReadsBackExactly([header] + rows);
    return Ok(out);
  }

  // ---------------------------------------------------------------- grammar

  /** `text` is an escaped or a non-escaped field holding `value`. */
  predicate FieldForm(text: string, value: string) {
    (text == value && IsPlain(value)) || text == "\"" + Escape(value) + "\""
  }

  predicate FieldForms(fields: seq<string>, cells: Record) {
    |fields| == |cells| && forall i :: 0 <= i < |cells| ==> FieldForm(fields[i], cells[i])
  }

  /** record = field *(COMMA field) */
  ghost predicate RecordForm(line: string, cells: Record) {
    cells != [] && exists fields: seq<string> :: FieldForms(fields, cells) && line == Join(fields, ",")
  }

  ghost predicate RecordForms(lines: seq<string>, records: seq<Record>) {
    |lines| == |records| && forall i :: 0 <= i < |records| ==> RecordForm(lines[i], records[i])
  }

  function EndLines(lines: seq<string>): string {
    if lines == [] then "" else lines[0] + "\n" + EndLines(lines[1..])
  }

  /** file = *(record LF) */
  ghost predicate FileForm(text: string, records: seq<Record>) {
    exists lines: seq<string> :: RecordForms(lines, records) && text == EndLines(lines)
  }

  // ---------------------------------------------------------------- reader

  predicate AtSeparator(s: string) {
    s != "" && (s[0] == ',' || s[0] == '\n')
  }

  function ParsePlain(s: string): (r: Option<(string, string)>)
    ensures r.Some? ==> AtSeparator(r.value.1) && |r.value.1| <= |s|
  {
    if AtSeparator(s) then Some(("", s))
    else if s == "" || IsSpecial(s[0]) then None
    else
      var r := ParsePlain(s[1..]);
      if r.None? then None else Some(([s[0]] + r.value.0, r.value.1))
  }

  /** Reads the rest of an escaped field, after its opening quote. */
  function ParseQuoted(s: string): (r: Option<(string, string)>)
    ensures r.Some? ==> AtSeparator(r.value.1) && |r.value.1| <= |s|
  {
    if s == "" then None
    else if s[0] != '"' then
      var r := ParseQuoted(s[1..]);
      if r.None? then None else Some(([s[0]] + r.value.0, r.value.1))
    else if |s| > 1 && s[1] == '"' then
      var r := ParseQuoted(s[2..]);
      if r.None? then None else Some((['"'] + r.value.0, r.value.1))
    else if AtSeparator(s[1..]) then Some(("", s[1..]))
    else None
  }

  function ParseField(s: string): (r: Option<(string, string)>)
    ensures r.Some? ==> AtSeparator(r.value.1) && |r.value.1| <= |s|
  {
    if s != "" && s[0] == '"' then ParseQuoted(s[1..]) else ParsePlain(s)
  }

  /** The cells of the first record, and the text after the LF that ends it. */
  function ParseRecord(s: string): (r: Option<(Record, string)>)
    ensures r.Some? ==> |r.value.1| < |s|
    decreases |s|
  {
    var f := ParseField(s);
    if f.None? then None
    else if f.value.1[0] == '\n' then Some(([f.value.0], f.value.1[1..]))
    else
      var tail := ParseRecord(f.value.1[1..]);
      if tail.None? then None else Some(([f.value.0] + tail.value.0, tail.value.1))
  }

  function ParseFile(s: string): Option<seq<Record>>
    decreases |s|
  {
    if s == "" then Some([])
    else
      var first := ParseRecord(s);
      if first.None? then None
      else
        var rest := ParseFile(first.value.1);
        if rest.None? then None else Some([first.value.0] + rest.value)
  }

  // ---------------------------------------------------------------- reader against grammar

  lemma {:induction false} ParsePlainIsSound(s: string)
    requires ParsePlain(s).Some?
    ensures var (value, rest) := ParsePlain(s).value; s == value + rest && IsPlain(value)
  {
    if !AtSeparator(s) {
      ParsePlainIsSound(s[1..]);
    }
  }

  lemma {:induction false} ParseQuotedIsSound(s: string)
    requires ParseQuoted(s).Some?
    ensures var (value, rest) := ParseQuoted(s).value; s == Escape(value) + "\"" + rest
  {
    if s[0] != '"' {
      ParseQuotedIsSound(s[1..]);
    } else if |s| > 1 && s[1] == '"' {
      ParseQuotedIsSound(s[2..]);
    }
  }

  lemma ParseFieldIsSound(s: string) returns (field: string)
    requires ParseField(s).Some?
    ensures FieldForm(field, ParseField(s).value.0) && s == field + ParseField(s).value.1
  {
    var (value, rest) := ParseField(s).value;
    if s != "" && s[0] == '"' {
      ParseQuotedIsSound(s[1..]);
      field := "\"" + Escape(value) + "\"";
    } else {
      ParsePlainIsSound(s);
      field := value;
    }
  }

  lemma FieldFormsCons(field: string, value: string, fields: seq<string>, cells: Record)
    requires FieldForm(field, value) && FieldForms(fields, cells)
    ensures FieldForms([field] + fields, [value] + cells)
  {
  }

  lemma ParseNextField(s: string, field: string, value: string, more: string)
    requires ParseField(s) == Some((value, "," + more))
    requires ParseRecord(more).Some?
    ensures ParseRecord(s) == Some(([value] + ParseRecord(more).value.0, ParseRecord(more).value.1))
  {
    assert ("," + more)[1..] == more;
  }

  lemma JoinLast(field: string, tail: string)
    ensures Join([field], ",") + "\n" + tail == field + ("\n" + tail)
  {
    assert field + "\n" + tail == field + ("\n" + tail);
  }

  lemma JoinNext(field: string, more: seq<string>, tail: string)
    requires more != []
    ensures Join([field] + more, ",") + "\n" + tail == field + ("," + (Join(more, ",") + "\n" + tail))
  {
    var fields := [field] + more;
    assert fields[1..] == more;
    var joined := Join(more, ",");
    assert field + "," + joined + "\n" + tail == field + ("," + (joined + "\n" + tail));
  }

  lemma {:induction false} ParseRecordIsSound(s: string) returns (fields: seq<string>)
    requires ParseRecord(s).Some?
    ensures s == Join(fields, ",") + "\n" + ParseRecord(s).value.1
    ensures fields != [] && FieldForms(fields, ParseRecord(s).value.0)
    decreases |s|
  {
    var f := ParseField(s).value;
    var field := ParseFieldIsSound(s);
    var rest := f.1[1..];
    if f.1[0] == '\n' {
      fields := [field];
      JoinLast(field, rest);
      assert f.1 == "\n" + rest;
    } else {
      var more := ParseRecordIsSound(rest);
      fields := [field] + more;
      assert f.1 == "," + rest;
      var r := ParseRecord(rest).value;
      JoinNext(field, more, r.1);
      FieldFormsCons(field, f.0, more, r.0);
      assert ParseRecord(s).value == ([f.0] + r.0, r.1);
    }
  }

  /** Whatever the reader returns is derivable from the grammar. */
  lemma {:induction false} ParseIsSound(s: string)
    requires ParseFile(s).Some?
    ensures FileForm(s, ParseFile(s).value)
    decreases |s|
  {
    if s == "" {
      assert RecordForms([], []) && s == EndLines([]);
    } else {
      var (cells, rest) := ParseRecord(s).value;
      var fields := ParseRecordIsSound(s);
      ParseIsSound(rest);
      var lines :| RecordForms(lines, ParseFile(rest).value) && rest == EndLines(lines);
      var all := [Join(fields, ",")] + lines;
      assert all[1..] == lines;
      assert RecordForms(all, ParseFile(s).value) && s == EndLines(all);
    }
  }

  lemma {:induction false} ParsePlainComplete(value: string, rest: string)
    requires IsPlain(value) && AtSeparator(rest)
    ensures ParsePlain(value + rest) == Some((value, rest))
  {
    if value == "" {
      assert value + rest == rest;
    } else {
      assert !IsSpecial(value[0]);
      assert (value + rest)[1..] == value[1..] + rest;
      ParsePlainComplete(value[1..], rest);
      assert [value[0]] + value[1..] == value;
    }
  }

  lemma {:induction false} ParseQuotedComplete(value: string, rest: string)
    requires AtSeparator(rest)
    ensures ParseQuoted(Escape(value) + "\"" + rest) == Some((value, rest))
  {
    var s := Escape(value) + "\"" + rest;
    if value == "" {
      assert s == "\"" + rest && s[1..] == rest;
    } else {
      ParseQuotedComplete(value[1..], rest);
      var tail := Escape(value[1..]) + "\"" + rest;
      assert [value[0]] + value[1..] == value;
      if value[0] == '"' {
        assert s == "\"\"" + tail && s[2..] == tail;
      } else {
        assert s == [value[0]] + tail && s[1..] == tail;
      }
    }
  }

  lemma ParseFieldComplete(text: string, value: string, rest: string)
    requires FieldForm(text, value) && AtSeparator(rest)
    ensures ParseField(text + rest) == Some((value, rest))
  {
    var s := text + rest;
    if text == "\"" + Escape(value) + "\"" {
      ParseQuotedComplete(value, rest);
      assert s[0] == '"' && s[1..] == Escape(value) + "\"" + rest;
    } else {
      ParsePlainComplete(value, rest);
      assert s[0] != '"' by {
        if text != "" { assert !IsSpecial(value[0]); }
      }
    }
  }

  lemma ParseLastField(s: string, field: string, value: string, rest: string)
    requires s == field + "\n" + rest
    requires ParseField(field + ("\n" + rest)) == Some((value, "\n" + rest))
    ensures ParseRecord(s) == Some(([value], rest))
  {
    assert s == field + ("\n" + rest);
    assert ("\n" + rest)[1..] == rest;
  }

  lemma {:induction false} ParseRecordComplete(fields: seq<string>, cells: Record, rest: string)
    requires cells != [] && FieldForms(fields, cells)
    ensures ParseRecord(Join(fields, ",") + "\n" + rest) == Some((cells, rest))
    decreases |cells|
  {
    var s := Join(fields, ",") + "\n" + rest;
    var field, value := fields[0], cells[0];
    if |cells| == 1 {
      ParseFieldComplete(field, value, "\n" + rest);
      ParseLastField(s, field, value, rest);
      assert cells == [value];
    } else {
      var more := Join(fields[1..], ",") + "\n" + rest;
      ParseFieldComplete(field, value, "," + more);
      assert s == field + ("," + more);
      ParseRecordComplete(fields[1..], cells[1..], rest);
      ParseNextField(s, field, value, more);
      assert cells == [value] + cells[1..];
    }
  }

  lemma {:induction false} ParseLinesComplete(lines: seq<string>, records: seq<Record>)
    requires RecordForms(lines, records)
    ensures ParseFile(EndLines(lines)) == Some(records)
    decreases |records|
  {
    if records != [] {
      var s := EndLines(lines);
      var fields :| FieldForms(fields, records[0]) && lines[0] == Join(fields, ",");
      ParseRecordComplete(fields, records[0], EndLines(lines[1..]));
      ParseLinesComplete(lines[1..], records[1..]);
      assert records == [records[0]] + records[1..];
    }
  }

  /** Whatever the grammar derives, the reader returns: no text has two readings. */
  lemma ParseIsComplete(s: string, records: seq<Record>)
    requires FileForm(s, records)
    ensures ParseFile(s) == Some(records)
  {
    var lines :| RecordForms(lines, records) && s == EndLines(lines);
    ParseLinesComplete(lines, records);
  }

  /** The grammar is unambiguous. */
  lemma GrammarIsUnambiguous(s: string, a: seq<Record>, b: seq<Record>)
    requires FileForm(s, a) && FileForm(s, b)
    ensures a == b
  {
    ParseIsComplete(s, a);
    ParseIsComplete(s, b);
  }

  // ---------------------------------------------------------------- round trip

  lemma {:induction false} ExportIsLines(records: seq<Record>) returns (lines: seq<string>)
    ensures |lines| == |records| && Export(records) == EndLines(lines)
    ensures forall i :: 0 <= i < |records| ==> lines[i] == Line(records[i])
  {
    lines := [];
    if records != [] {
      var more := ExportIsLines(records[1..]);
      lines := [Line(records[0])] + more;
      assert lines[1..] == more;
    }
  }

  lemma ExportForm(records: seq<Record>)
    requires NoEmptyRecord(records)
    ensures FileForm(Export(records), NeutralizeAll(records))
  {
    var lines := ExportIsLines(records);
    forall i | 0 <= i < |records|
      ensures RecordForm(lines[i], NeutralizeAll(records)[i])
    {
      var cells := NeutralizeRecord(records[i]);
      assert FieldForms(QuoteRecord(cells), cells);
    }
    assert RecordForms(lines, NeutralizeAll(records));
  }

  /** The exported text reads back as the neutralized table if and only if every record has
      a cell: a record without cells is written as an empty line, which is one empty cell. */
  lemma ExportReadsBackExactly(records: seq<Record>)
    ensures ParseFile(Export(records)) == Some(NeutralizeAll(records)) <==> NoEmptyRecord(records)
  {
    if NoEmptyRecord(records) {
      ExportForm(records);
      ParseIsComplete(Export(records), NeutralizeAll(records));
    } else if ParseFile(Export(records)) == Some(NeutralizeAll(records)) {
      ParseIsSound(Export(records));
      forall i | 0 <= i < |records|
        ensures records[i] != []
      {
        assert NeutralizeAll(records)[i] != [];
      }
    }
  }

  lemma TrimStartStops(s: string)
    requires s != "" && !IsWhitespace(s[0])
    ensures TrimStart(s) == s
  {
  }

  /** No exported cell opens, after leading white space, with a formula character. */
  lemma NeutralizedIsInert(raw: string)
    ensures var t := TrimStart(NeutralizeCell(raw)); t == "" || t[0] !in {'=', '+', '-', '@'}
    ensures NeutralizeCell(NeutralizeCell(raw)) == NeutralizeCell(raw)
  {
    if NeutralizeCell(raw) != raw {
      TrimStartStops("'" + raw);
    }
  }

  /** What is read back can be exported again without change, and holds no formula. */
  lemma ReexportIsIdentity(records: seq<Record>)
    requires NoEmptyRecord(records)
    ensures ParseFile(Export(records)).Some?
    ensures Export(ParseFile(Export(records)).value) == Export(records)
    ensures forall i, j ::
        var read := ParseFile(Export(records)).value;
        0 <= i < |read| && 0 <= j < |read[i]| ==>
          var t := TrimStart(read[i][j]); t == "" || t[0] !in {'=', '+', '-', '@'}
  {
    ExportReadsBackExactly(records);
    NeutralizedExportsAlike(records);
    forall i, j | 0 <= i < |records| && 0 <= j < |records[i]|
      ensures var t := TrimStart(NeutralizeAll(records)[i][j]); t == "" || t[0] !in {'=', '+', '-', '@'}
    {
      NeutralizedIsInert(records[i][j]);
    }
  }

  lemma {:induction false} NeutralizedExportsAlike(records: seq<Record>)
    ensures Export(NeutralizeAll(records)) == Export(records)
  {
    if records != [] {
      forall c: string {
        NeutralizedIsInert(c);
      }
      assert NeutralizeRecord(NeutralizeRecord(records[0])) == NeutralizeRecord(records[0]);
      assert NeutralizeAll(records)[1..] == NeutralizeAll(records[1..]);
      NeutralizedExportsAlike(records[1..]);
    }
  }

  /** The module comment promises that a leading tab or carriage return is neutralized too.
      Both are white space, so they are trimmed before the check: a cell is changed exactly
      when its first character that is not white space is one of the four visible ones. */
  lemma ChangedExactlyWhen(raw: string)
    ensures NeutralizeCell(raw) != raw <==>
      var t := TrimStart(raw); t != "" && t[0] in {'=', '+', '-', '@'}
  {
    assert |"'" + raw| != |raw|;
  }

  lemma LeadingTabIsNotNeutralized()
    ensures IsTrigger('\t') && NeutralizeCell("\tplain") == "\tplain"
  {
    assert "\tplain"[1..] == "plain";
    TrimStartStops("plain");
  }
}

/** The CSV download of fs_ui/src/pages/SearchPage.tsx, read back by the quoting rules of
    section 2 of RFC 4180 with a line feed between records. */
module CsvExport {
  import opened Text

  // ----- the writer ------------------------------------------------------------------

  /** Characters that make a spreadsheet evaluate a cell. */
  predicate StartsFormula(s: string) {
    s != "" && FormulaStart(s[0])
  }

  predicate FormulaStart(c: char) {
    c == '=' || c == '+' || c == '-' || c == '@' || c == '\t' || c == '\r'
  }

  function Guarded(s: string): (r: string)
    ensures r == "" || r[0] !in {'=', '+', '-', '@', '\t', '\r'}
    ensures r == s || (s != "" && s[0] in {'=', '+', '-', '@', '\t', '\r'} && r == "'" + s)
  {
    if StartsFormula(s) then "'" + s else s
  }

  predicate NeedsQuotes(s: string) {
    ',' in s || '"' in s || '\n' in s
  }

  function Doubled(s: string): string {
    if s == "" then "" else (if s[0] == '"' then [s[0], s[0]] else [s[0]]) + Doubled(s[1..])
  }

  function Quoted(s: string): string {
    "\"" + Doubled(s) + "\""
  }

  function Escape(v: string): string {
    var s := Guarded(v);
    if NeedsQuotes(s) then Quoted(s) else s
  }

  function EscapeAll(cells: seq<string>): (r: seq<string>)
    ensures |r| == |cells|
  {
    if cells == [] then [] else [Escape(cells[0])] + EscapeAll(cells[1..])
  }

  function GuardAll(cells: seq<string>): (r: seq<string>)
    ensures |r| == |cells|
  {
    if cells == [] then [] else [Guarded(cells[0])] + GuardAll(cells[1..])
  }

  function Lines(rows: seq<seq<string>>): (r: seq<string>)
    ensures |r| == |rows|
  {
    if rows == [] then [] else [Join(EscapeAll(rows[0]), ",")] + Lines(rows[1..])
  }

  function GuardRows(rows: seq<seq<string>>): (r: seq<seq<string>>)
    ensures |r| == |rows|
  {
    if rows == [] then [] else [GuardAll(rows[0])] + GuardRows(rows[1..])
  }

  /** The exported text. Headers are the column labels and are not escaped. */
  function Export(headers: seq<string>, rows: seq<seq<string>>): string {
    Join([Join(headers, ",")] + Lines(rows), "\n")
  }

  // ----- the reader ------------------------------------------------------------------

  /** A quoted field's text after its opening quote: contents and what follows the closing quote. */
  function QuotedField(s: string): (r: Option<(string, string)>)
    ensures r.Some? ==> |r.value.1| < |s|
  {
    if s == "" then None
    else if s[0] != '"' then Push(s[0], QuotedField(s[1..]))
    else if |s| >= 2 && s[1] == '"' then Push('"', QuotedField(s[2..]))
    else Some(("", s[1..]))
  }

  function Push(c: char, r: Option<(string, string)>): (p: Option<(string, string)>)
    ensures p.Some? <==> r.Some?
    ensures r.Some? ==> p == Some(([c] + r.value.0, r.value.1))
  {
    match r
    case None => None
    case Some((field, rest)) => Some(([c] + field, rest))
  }

  /** A bare field runs up to the next comma or line feed and may hold no quote. */
  function BareField(s: string): (r: Option<(string, string)>)
    ensures r.Some? ==> |r.value.1| <= |s|
  {
    if s == "" || s[0] == ',' || s[0] == '\n' then Some(("", s))
    else if s[0] == '"' then None
    else Push(s[0], BareField(s[1..]))
  }

  function Field(s: string): (r: Option<(string, string)>)
    ensures r.Some? ==> |r.value.1| <= |s|
  {
    if s != "" && s[0] == '"' then QuotedField(s[1..]) else BareField(s)
  }

  function AddField(field: string, records: Option<seq<seq<string>>>): (r: Option<seq<seq<string>>>)
  {
    match records
    case None => None
    case Some(rs) => if rs == [] then None else Some([[field] + rs[0]] + rs[1..])
  }

  function AddRecord(field: string, records: Option<seq<seq<string>>>): Option<seq<seq<string>>> {
    match records
    case None => None
    case Some(rs) => Some([[field]] + rs)
  }

  /** All records: a field is followed by a comma, a line feed or the end of the text. */
  function Read(s: string): Option<seq<seq<string>>>
    decreases |s|
  {
    match Field(s)
    case None => None
    case Some((field, rest)) =>
      if rest == "" then Some([[field]])
      else if rest[0] == ',' then AddField(field, Read(rest[1..]))
      else if rest[0] == '\n' then AddRecord(field, Read(rest[1..]))
      else None
  }

  // ----- reading an escaped cell -------------------------------------------------------

  /** What may follow a field. */
  predicate Ends(rest: string) {
    rest == "" || rest[0] == ',' || rest[0] == '\n'
  }

  lemma DoubledStep(s: string, close: string)
    requires s != ""
    ensures Doubled(s) + close
         == (if s[0] == '"' then [s[0], s[0]] else [s[0]]) + (Doubled(s[1..]) + close)
  {}

  lemma {:induction false} QuotedReads(s: string, close: string, rest: string)
    requires Ends(rest) && close == "\"" + rest
    ensures QuotedField(Doubled(s) + close) == Some((s, rest))
  {
    if s == "" {
      assert Doubled(s) + close == close;
      assert close[1..] == rest;
    } else {
      QuotedReads(s[1..], close, rest);
      var tail := Doubled(s[1..]) + close;
      assert s == [s[0]] + s[1..];
      DoubledStep(s, close);
      if s[0] == '"' {
        assert ([s[0], s[0]] + tail)[2..] == tail;
      } else {
        assert ([s[0]] + tail)[1..] == tail;
      }
    }
  }

  lemma {:induction false} BareReads(s: string, rest: string)
    requires Ends(rest) && !NeedsQuotes(s)
    ensures BareField(s + rest) == Some((s, rest))
  {
    if s == "" {
      assert s + rest == rest;
    } else {
      assert s[0] in s;
      assert (s + rest)[1..] == s[1..] + rest;
      BareReads(s[1..], rest);
      assert s == [s[0]] + s[1..];
    }
  }

  lemma EscapedReads(v: string, rest: string)
    requires Ends(rest)
    ensures Field(Escape(v) + rest) == Some((Guarded(v), rest))
  {
    var s := Guarded(v);
    if NeedsQuotes(s) {
      QuotedReads(s, "\"" + rest, rest);
      assert (Quoted(s) + rest)[1..] == Doubled(s) + ("\"" + rest);
    } else {
      BareReads(s, rest);
      assert s != "" ==> s[0] in s;
    }
  }

  // ----- reading a record, then the file --------------------------------------------------

  /** What reading a record gives, for what follows its line. */
  function Then(record: seq<string>, more: Option<seq<seq<string>>>): Option<seq<seq<string>>> {
    match more
    case None => None
    case Some(rs) => Some([record] + rs)
  }

  lemma JoinCons(head: string, tail: seq<string>, sep: string)
    requires tail != []
    ensures Join([head] + tail, sep) == head + sep + Join(tail, sep)
  {
    assert ([head] + tail)[1..] == tail;
  }

  /** One step of the reader, once the field is known. */
  lemma ReadStep(text: string, field: string, sep: string, tail: string)
    requires Field(text + (sep + tail)) == Some((field, sep + tail)) && (sep == "," || sep == "\n")
    ensures sep == "," ==> Read(text + sep + tail) == AddField(field, Read(tail))
    ensures sep == "\n" ==> Read(text + sep + tail) == AddRecord(field, Read(tail))
  {
    assert text + sep + tail == text + (sep + tail);
    assert (sep + tail)[1..] == tail;
  }

  lemma CellReads(cell: string, sep: string, tail: string)
    requires sep == "," || sep == "\n"
    ensures sep == "," ==> Read(Escape(cell) + sep + tail) == AddField(Guarded(cell), Read(tail))
    ensures sep == "\n" ==> Read(Escape(cell) + sep + tail) == AddRecord(Guarded(cell), Read(tail))
  {
    EscapedReads(cell, sep + tail);
    ReadStep(Escape(cell), Guarded(cell), sep, tail);
  }

  lemma AddToThen(field: string, record: seq<string>, more: Option<seq<seq<string>>>)
    ensures AddField(field, Then(record, more)) == Then([field] + record, more)
    ensures AddField(field, Some([record])) == Some([[field] + record])
  {
    if more.Some? {
      assert ([record] + more.value)[1..] == more.value;
      assert [[field] + record] + [] == [[field] + record];
    }
    assert [record][1..] == [];
    assert [[field] + record] + [] == [[field] + record];
  }

  lemma Regroup(a: string, b: string, c: string, d: string, e: string)
    ensures (a + b + c) + d + e == a + b + (c + d + e)
  {}

  lemma SingleCell(row: seq<string>)
    requires |row| == 1
    ensures EscapeAll(row) == [Escape(row[0])] && GuardAll(row) == [Guarded(row[0])]
  {
    assert row[1..] == [];
  }

  lemma {:induction false} LastRecordReads(row: seq<string>, comma: string)
    requires row != [] && comma == ","
    ensures Read(Join(EscapeAll(row), comma)) == Some([GuardAll(row)])
  {
    if |row| == 1 {
      SingleCell(row);
      EscapedReads(row[0], "");
      assert Escape(row[0]) + "" == Escape(row[0]);
    } else {
      JoinCons(Escape(row[0]), EscapeAll(row[1..]), comma);
      CellReads(row[0], comma, Join(EscapeAll(row[1..]), comma));
      LastRecordReads(row[1..], comma);
      AddToThen(Guarded(row[0]), GuardAll(row[1..]), None);
    }
  }

  lemma {:induction false} RecordReads(row: seq<string>, comma: string, newline: string, next: string)
    requires row != [] && comma == "," && newline == "\n"
    ensures Read(Join(EscapeAll(row), comma) + newline + next) == Then(GuardAll(row), Read(next))
  {
    if |row| == 1 {
      SingleCell(row);
      CellReads(row[0], newline, next);
    } else {
      var tail := Join(EscapeAll(row[1..]), comma);
      JoinCons(Escape(row[0]), EscapeAll(row[1..]), comma);
      Regroup(Escape(row[0]), comma, tail, newline, next);
      CellReads(row[0], comma, tail + newline + next);
      RecordReads(row[1..], comma, newline, next);
      AddToThen(Guarded(row[0]), GuardAll(row[1..]), Read(next));
    }
  }

  predicate NoEmptyRow(rows: seq<seq<string>>) {
    forall i :: 0 <= i < |rows| ==> rows[i] != []
  }

  lemma {:induction false} LinesRead(rows: seq<seq<string>>, newline: string)
    requires rows != [] && NoEmptyRow(rows) && newline == "\n"
    ensures Read(Join(Lines(rows), newline)) == Some(GuardRows(rows))
  {
    if |rows| == 1 {
      assert rows[1..] == [];
      assert Lines(rows) == [Join(EscapeAll(rows[0]), ",")] && GuardRows(rows) == [GuardAll(rows[0])];
      LastRecordReads(rows[0], ",");
    } else {
      LinesRead(rows[1..], newline);
      JoinCons(Join(EscapeAll(rows[0]), ","), Lines(rows[1..]), newline);
      RecordReads(rows[0], ",", newline, Join(Lines(rows[1..]), newline));
    }
  }

  /** The labels of the columns a user can choose. */
  const ENTRY_LABELS := ["Path", "Type", "Size (bytes)", "Permissions"]

  const OWNER_LABELS := ["Owner", "UID", "Group", "GID"]

  const DIRECTORY_LABELS := ["Dir Total " + "Size (bytes)", "Dir: File Count"]

  const EARLIEST := "Dir: Earliest "

  const LATEST := "Dir: Latest "

  const TIMES := ["Modified", "Accessed", "Changed"]

  predicate PlainLabel(s: string) {
    s != "" && forall i :: 0 <= i < |s| ==> !FormulaStart(s[i]) && s[i] != ',' && s[i] != '"' && s[i] != '\n'
  }

  predicate AllPlain(labels: seq<string>) {
    forall i :: 0 <= i < |labels| ==> PlainLabel(labels[i])
  }

  lemma EntryLabelsArePlain()
    ensures AllPlain(ENTRY_LABELS)
  {}

  lemma OwnerLabelsArePlain()
    ensures AllPlain(OWNER_LABELS)
  {}

  lemma PlainJoined(a: string, b: string)
    requires PlainLabel(a) && PlainLabel(b)
    ensures PlainLabel(a + b)
  {}

  lemma DirectoryLabelsArePlain()
    ensures AllPlain(DIRECTORY_LABELS)
  {
    PlainJoined("Dir Total ", "Size (bytes)");
  }

  lemma TimesArePlain()
    ensures AllPlain(TIMES) && PlainLabel(EARLIEST) && PlainLabel(LATEST)
  {}

  predicate IsLabel(s: string) {
    || s in ENTRY_LABELS || s in OWNER_LABELS || s in TIMES || s in DIRECTORY_LABELS
    || exists t :: t in TIMES && (s == EARLIEST + t || s == LATEST + t)
  }

  lemma LabelsArePlain(s: string)
    requires IsLabel(s)
    ensures PlainLabel(s)
  {
    EntryLabelsArePlain();
    OwnerLabelsArePlain();
    DirectoryLabelsArePlain();
    TimesArePlain();
  }

  lemma PlainIsEscaped(s: string)
    requires PlainLabel(s)
    ensures Escape(s) == s && Guarded(s) == s
  {}

  lemma {:induction false} PlainIsUnchanged(labels: seq<string>)
    requires forall s :: s in labels ==> PlainLabel(s)
    ensures EscapeAll(labels) == labels && GuardAll(labels) == labels
  {
    if labels != [] {
      assert labels[0] in labels;
      PlainIsEscaped(labels[0]);
      PlainIsUnchanged(labels[1..]);
      assert labels == [labels[0]] + labels[1..];
    }
  }

  lemma HeadersArePlain(headers: seq<string>)
    requires forall h :: h in headers ==> IsLabel(h)
    ensures EscapeAll(headers) == headers && GuardAll(headers) == headers && headers != [""]
  {
    forall h | h in headers
      ensures PlainLabel(h)
    {
      LabelsArePlain(h);
    }
    assert headers == [""] ==> "" in headers;
    PlainIsUnchanged(headers);
  }

  lemma ExportIsLines(headers: seq<string>, rows: seq<seq<string>>)
    requires EscapeAll(headers) == headers && GuardAll(headers) == headers
    ensures Export(headers, rows) == Join(Lines([headers] + rows), "\n")
    ensures GuardRows([headers] + rows) == [headers] + GuardRows(rows)
  {
    assert ([headers] + rows)[1..] == rows;
  }

  /** Reading the download gives the headers and the guarded cells, whatever the cells hold. */
  lemma ExportReadsBack(headers: seq<string>, rows: seq<seq<string>>)
    requires headers != [] && forall h :: h in headers ==> IsLabel(h)
    requires forall i :: 0 <= i < |rows| ==> |rows[i]| == |headers|
    ensures Read(Export(headers, rows)) == Some([headers] + GuardRows(rows))
  {
    HeadersArePlain(headers);
    ExportIsLines(headers, rows);
    LinesRead([headers] + rows, "\n");
  }

  /** The guard is undone by dropping one leading apostrophe, except on a cell that began with
      an apostrophe before a formula character. */
  lemma GuardIsInjectiveUpToQuote(a: string, b: string)
    ensures Guarded(a) == Guarded(b) <==>
            a == b || (StartsFormula(a) && b == "'" + a) || (StartsFormula(b) && a == "'" + b)
  {
    assert ("'" + a)[1..] == a;
    assert ("'" + b)[1..] == b;
  }

  // ----- a reader for which a last line feed ends the last record -----------------------------

  function ReadTerminated(s: string): Option<seq<seq<string>>> {
    if s != "" && s[|s| - 1] == '\n' then Read(s[..|s| - 1]) else Read(s)
  }

  lemma {:induction false} JoinSnoc(lines: seq<string>, last: string, sep: string)
    requires lines != []
    ensures Join(lines + [last], sep) == Join(lines, sep) + sep + last
  {
    if |lines| == 1 {
      JoinCons(lines[0], [last], sep);
      assert lines + [last] == [lines[0]] + [last];
    } else {
      JoinSnoc(lines[1..], last, sep);
      assert lines + [last] == [lines[0]] + (lines[1..] + [last]);
      assert lines == [lines[0]] + lines[1..];
      JoinCons(lines[0], lines[1..] + [last], sep);
      JoinCons(lines[0], lines[1..], sep);
    }
  }

  lemma {:induction false} LinesSnoc(rows: seq<seq<string>>, last: seq<string>)
    ensures Lines(rows + [last]) == Lines(rows) + [Join(EscapeAll(last), ",")]
    ensures GuardRows(rows + [last]) == GuardRows(rows) + [GuardAll(last)]
  {
    if rows == [] {
      assert rows + [last] == [last];
      assert [last][1..] == [];
    } else {
      assert (rows + [last])[1..] == rows[1..] + [last];
      LinesSnoc(rows[1..], last);
    }
  }

  predicate EndsLine(s: string) {
    s != "" && s[|s| - 1] == '\n'
  }

  lemma EscapeEnds(v: string)
    ensures !EndsLine(Escape(v))
    ensures Escape(v) == "" <==> v == ""
  {
    var s := Guarded(v);
    if !NeedsQuotes(s) && s != "" {
      assert s[|s| - 1] in s;
    }
  }

  /** Only the line of a single empty cell is empty, and no line ends in a line feed. */
  lemma {:induction false} LineEnds(row: seq<string>, comma: string)
    requires row != [] && comma == ","
    ensures !EndsLine(Join(EscapeAll(row), comma))
    ensures Join(EscapeAll(row), comma) == "" <==> row == [""]
  {
    EscapeEnds(row[0]);
    if |row| == 1 {
      SingleCell(row);
    } else {
      LineEnds(row[1..], comma);
      JoinCons(Escape(row[0]), EscapeAll(row[1..]), comma);
    }
  }

  lemma LastLine(rows: seq<seq<string>>, last: seq<string>, newline: string)
    requires rows != [] && NoEmptyRow(rows) && last != [] && newline == "\n"
    ensures var text := Join(Lines(rows + [last]), newline);
      && (EndsLine(text) <==> last == [""])
      && (last == [""] ==> Read(text[..|text| - 1]) == Some(GuardRows(rows)))
  {
    LinesSnoc(rows, last);
    var before, line := Join(Lines(rows), newline), Join(EscapeAll(last), ",");
    JoinSnoc(Lines(rows), line, newline);
    LineEnds(last, ",");
    var text := before + newline + line;
    if line == "" {
      assert text[..|text| - 1] == before;
      LinesRead(rows, newline);
    } else {
      assert text[|text| - 1] == line[|line| - 1];
    }
  }

  lemma RowsTerminated(rows: seq<seq<string>>, last: seq<string>, newline: string)
    requires rows != [] && NoEmptyRow(rows + [last]) && newline == "\n"
    ensures ReadTerminated(Join(Lines(rows + [last]), newline)) == Some(GuardRows(rows + [last]))
      <==> last != [""]
  {
    assert (rows + [last])[|rows|] == last;
    assert forall i :: 0 <= i < |rows| ==> rows[i] == (rows + [last])[i];
    LastLine(rows, last, newline);
    LinesRead(rows + [last], newline);
  }

  /** Such a reader agrees unless the last record is a single empty cell. */
  lemma TerminatedAgreesExactly(headers: seq<string>, rows: seq<seq<string>>)
    requires headers != [] && forall h :: h in headers ==> IsLabel(h)
    requires forall i :: 0 <= i < |rows| ==> |rows[i]| == |headers|
    ensures ReadTerminated(Export(headers, rows)) == Some([headers] + GuardRows(rows))
      <==> rows == [] || rows[|rows| - 1] != [""]
  {
    HeadersArePlain(headers);
    ExportIsLines(headers, rows);
    if rows == [] {
      ExportReadsBack(headers, rows);
      LineEnds(headers, ",");
      assert Lines([headers] + rows) == [Join(headers, ",")];
    } else {
      var before, last := [headers] + rows[..|rows| - 1], rows[|rows| - 1];
      assert [headers] + rows == before + [last];
      RowsTerminated(before, last, "\n");
    }
  }
}

/** StudentStorage: the student file is a header line followed by one
    `toCsv` row per line. The file is modelled as its text, or as absent;
    each operation maps the old file to the new one. There is no key check
    here: any row is accepted, and rows are removed by full seven-field
    comparison with a Student. */
module StudentStorage {
  import opened JavaText
  import opened TextLines
  import opened CsvCodec
  import opened StudentRecord
  import opened Seqs

  /** The first line of every file the store writes: the seven column
      names joined by commas, without quotes. */
  const Header: string := JoinCommas(ColumnNames)

  /** Read through the row scanner, the header yields exactly the column
      names, and it holds no line break. */
  lemma HeaderMatchesColumns()
    ensures ParseCsvLine(Header) == ColumnNames
    ensures NoBreaks(Header, IsReaderBreak)
  {
    forall i | 0 <= i < |ColumnNames|
      ensures Plain(ColumnNames[i]) && NoBreaks(ColumnNames[i], IsReaderBreak)
    {
    }
    ParseJoinCommas(ColumnNames);
    JoinCommasNoBreaks(ColumnNames);
  }

  /** A file is "terminated" when appending text cannot merge into its
      last line: absent, empty, or ending with a line feed. */
  predicate Terminated(f: FileState)
  {
    f.Absent? || f.content == [] || f.content[|f.content| - 1] == '\n'
  }

  /** ensureHeader: a missing or empty file becomes the header line;
      any other file is left exactly as it is. */
  function EnsureHeader(f: FileState): (r: string)
    ensures f.Absent? || f.content == [] ==> r == Header + "\n"
    ensures r != []
    ensures f.Present? && f.content != [] ==> r == f.content
    ensures Terminated(f) ==> r[|r| - 1] == '\n'
  {
    if f.Absent? || f.content == [] then Header + "\n" else f.content
  }

  /** appendRow: after ensureHeader, the existing text is kept and exactly
      one encoded row and a line feed are added at its end. */
  function AppendRow(f: FileState, cols: seq<JString>): (r: string)
    ensures |r| == |EnsureHeader(f)| + |ToCsv(cols)| + 1
    ensures r[..|EnsureHeader(f)|] == EnsureHeader(f)
    ensures r[|EnsureHeader(f)|..] == ToCsv(cols) + "\n"
    ensures Terminated(Present(r))
  {
    var h := EnsureHeader(f);
    var line := ToCsv(cols) + "\n";
    ConcatAssoc(h, ToCsv(cols), "\n");
    assert (h + line)[..|h|] == h;
    assert (h + line)[|h|..] == line;
    h + line
  }

  /** The encoded rows, one string per row. */
  function EncodeRows(rows: seq<seq<JString>>): (r: seq<string>)
    ensures |r| == |rows|
    ensures forall i :: 0 <= i < |rows| ==> r[i] == ToCsv(rows[i])
  {
    seq(|rows|, i requires 0 <= i < |rows| => ToCsv(rows[i]))
  }

  /** writeAllRows: the previous content is discarded; the file becomes the
      header and then every row, each followed by a line feed. */
  function WriteAllRows(rows: seq<seq<JString>>): (r: string)
    ensures |r| > |Header| && r[..|Header| + 1] == Header + "\n"
    ensures Terminated(Present(r))
  {
    var r := Header + "\n" + JoinTerminated(EncodeRows(rows), "\n");
    assert r[..|Header| + 1] == Header + "\n";
    assert r[|r| - 1] == '\n' by { JoinEndsTerminated(EncodeRows(rows)); }
    r
  }

  lemma {:induction false} JoinEndsTerminated(ls: seq<string>)
    ensures var t := JoinTerminated(ls, "\n"); t == [] || t[|t| - 1] == '\n'
    decreases |ls|
  {
    if ls != [] {
      JoinEndsTerminated(ls[1..]);
    }
  }

  /** A row as readAllRows returns it: at least one field, no field
      holding a line break. */
  predicate Readable(row: seq<string>)
  {
    |row| >= 1 && NoBreakFields(row)
  }

  /** Each physical line parsed on its own. */
  function ParseEach(ls: seq<string>): (r: seq<seq<string>>)
    ensures |r| == |ls|
    ensures forall i :: 0 <= i < |ls| ==> r[i] == ParseCsvLine(ls[i])
  {
    seq(|ls|, i requires 0 <= i < |ls| => ParseCsvLine(ls[i]))
  }

  lemma ParseEachConcat(a: seq<string>, b: seq<string>)
    ensures ParseEach(a + b) == ParseEach(a) + ParseEach(b)
  {
  }

  /** readAllRows: nothing for a missing file; otherwise every physical
      line after the first, each parsed on its own. */
  function ReadAllRows(f: FileState): (r: seq<seq<string>>)
    ensures f.Absent? ==> r == []
    ensures forall i :: 0 <= i < |r| ==> Readable(r[i])
  {
    match f
    case Absent => []
    case Present(c) =>
      var ls := Lines(c);
      if |ls| == 0 then []
      else
        var r := ParseEach(ls[1..]);
        assert forall i :: 0 <= i < |r| ==> Readable(r[i]) by {
          forall i | 0 <= i < |r|
            ensures Readable(r[i])
          {
            ParseNoBreaks(ls[1..][i]);
          }
        }
        r
  }

  /** Objects.toString(a, "").equals(Objects.toString(b, "")) for a field
      read from the file (never null) and a Student property. */
  predicate FieldEq(a: string, b: JString)
  {
    a == OrEmpty(b)
  }

  /** `matches`: a row of at least seven fields whose first seven equal the
      Student's properties in header order; shorter rows never match. */
  function Matches(row: seq<string>, s: Student): (b: bool)
    ensures b <==> |row| >= 7 && row[..7] == OrEmptyAll(ToRow(s))
  {
    if |row| < 7 then false
    else
      && FieldEq(row[0], s.fullName)
      && FieldEq(row[1], s.academicStatus)
      && FieldEq(row[2], s.employed)
      && FieldEq(row[3], s.jobDetails)
      && FieldEq(row[4], s.programmingLanguages)
      && FieldEq(row[5], s.databases)
      && FieldEq(row[6], s.preferredRole)
  }

  /** Every row read back, as Java references again. */
  function LiftRows(rows: seq<seq<string>>): (r: seq<seq<JString>>)
    ensures |r| == |rows|
    ensures forall i :: 0 <= i < |rows| ==> r[i] == Lift(rows[i])
  {
    seq(|rows|, i requires 0 <= i < |rows| => Lift(rows[i]))
  }

  /** The delete test for one student, as a first-class predicate. */
  function RowMatcher(s: Student): seq<string> -> bool
  {
    row => Matches(row, s)
  }

  /** deleteStudent: read every row, drop the first one matching the
      student, and rewrite the whole file (even when nothing matched).
      The rewritten file starts with the header and reads back as the old
      rows minus the first one whose seven leading fields equal the
      student's; the other rows keep their order, and nothing is removed
      when no row matches. */
  function DeleteStudent(f: FileState, s: Student): (r: string)
    ensures |r| > |Header| && r[..|Header| + 1] == Header + "\n"
    ensures ReadAllRows(Present(r)) == RemoveFirstWhere(ReadAllRows(f), RowMatcher(s))
  {
    var rows := ReadAllRows(f);
    var kept := RemoveFirstWhere(rows, RowMatcher(s));
    RemovedRowsReadable(rows, RowMatcher(s), kept);
    ReadAfterRewrite(kept);
    WriteAllRows(LiftRows(kept))
  }

  // ---------------------------------------------------------------------
  // Reading back

  /** Reading a file drops exactly its first line and parses each later
      physical line independently: quotes are never balanced across lines. */
  lemma ReadPerLine(first: string, body: string)
    requires NoBreaks(first, IsReaderBreak)
    ensures ReadAllRows(Present(first + "\n" + body)) == ParseEach(Lines(body))
  {
    SplitTerminated(first, "\n", IsReaderBreak);
    SplitLinesAppend(first + "\n", body, IsReaderBreak);
    assert Lines(first + "\n" + body) == [first] + Lines(body);
  }

  /** The rows written by writeAllRows read back in the same order; a row
      survives unchanged when it is non-empty and no field holds a line
      break (an empty row comes back as one empty field). */
  lemma ReadAfterWrite(rows: seq<seq<JString>>)
    requires forall i :: 0 <= i < |rows| ==> NoBreakFields(OrEmptyAll(rows[i]))
    ensures var r := ReadAllRows(Present(WriteAllRows(rows)));
      && |r| == |rows|
      && forall i :: 0 <= i < |rows| ==>
           r[i] == (if rows[i] == [] then [""] else OrEmptyAll(rows[i]))
  {
    var enc := EncodeRows(rows);
    forall i | 0 <= i < |enc|
      ensures NoBreaks(enc[i], IsReaderBreak)
    {
      ToCsvNoBreaks(rows[i]);
    }
    SplitJoinTerminated(enc, "\n", IsReaderBreak);
    HeaderMatchesColumns();
    ReadPerLine(Header, JoinTerminated(enc, "\n"));
    forall i | 0 <= i < |rows| && rows[i] != []
      ensures ParseCsvLine(ToCsv(rows[i])) == OrEmptyAll(rows[i])
    {
      CsvRoundTrip(rows[i]);
    }
  }

  /** After appendRow on a terminated file, reading gives the old rows
      followed by the appended one, parsed from its encoding. */
  lemma ReadAfterAppend(f: FileState, cols: seq<JString>)
    requires Terminated(f)
    requires NoBreakFields(OrEmptyAll(cols))
    ensures ReadAllRows(Present(AppendRow(f, cols)))
         == ReadAllRows(f) + [ParseCsvLine(ToCsv(cols))]
  {
    var line := ToCsv(cols);
    ToCsvNoBreaks(cols);
    SplitTerminated(line, "\n", IsReaderBreak);
    ConcatAssoc(EnsureHeader(f), line, "\n");
    assert AppendRow(f, cols) == EnsureHeader(f) + line + "\n";
    if f.Absent? || f.content == [] {
      AppendToFresh(f, line);
    } else {
      AppendToExisting(f.content, line);
    }
  }

  lemma AppendToFresh(f: FileState, line: string)
    requires f.Absent? || f.content == []
    requires Lines(line + "\n") == [line]
    ensures ReadAllRows(Present(EnsureHeader(f) + line + "\n")) == ReadAllRows(f) + [ParseCsvLine(line)]
  {
    HeaderMatchesColumns();
    assert EnsureHeader(f) + line + "\n" == Header + "\n" + (line + "\n");
    ReadPerLine(Header, line + "\n");
  }

  lemma AppendToExisting(c: string, line: string)
    requires c != [] && c[|c| - 1] == '\n'
    requires Lines(line + "\n") == [line]
    ensures ReadAllRows(Present(c + line + "\n")) == ReadAllRows(Present(c)) + [ParseCsvLine(line)]
  {
    ConcatAssoc(c, line, "\n");
    SplitLinesAppend(c, line + "\n", IsReaderBreak);
    var ls := Lines(c);
    DropHeadOfConcat(ls, [line]);
    ParseEachConcat(ls[1..], [line]);
  }

  /** An appended row that is non-empty and break-free reads back as its
      fields, nulls as "". */
  lemma AppendRoundTrip(f: FileState, cols: seq<JString>)
    requires Terminated(f) && cols != []
    requires NoBreakFields(OrEmptyAll(cols))
    ensures ReadAllRows(Present(AppendRow(f, cols))) == ReadAllRows(f) + [OrEmptyAll(cols)]
  {
    ReadAfterAppend(f, cols);
    CsvRoundTrip(cols);
  }

  /** A field holding a line break does not survive the file: its row is
      read back as two rows. */
  lemma MultiLineFieldSplits()
    ensures ReadAllRows(Present(WriteAllRows([[Str("a\nb")]]))) == [["a"], ["b"]]
  {
    WriteMultiLine();
    ReadTwoLines("\"a", "b\"");
    ParseOpenQuote();
    ParseCloseQuote();
  }

  /** A file whose body is two break-free lines reads as those two lines,
      each parsed on its own. */
  lemma ReadTwoLines(first: string, second: string)
    requires NoBreaks(first, IsReaderBreak) && NoBreaks(second, IsReaderBreak)
    ensures ReadAllRows(Present(Header + "\n" + (first + "\n" + second + "\n")))
         == [ParseCsvLine(first), ParseCsvLine(second)]
  {
    HeaderMatchesColumns();
    ReadPerLine(Header, first + "\n" + second + "\n");
    TwoLines(first, second);
    assert ParseEach([first, second]) == [ParseCsvLine(first), ParseCsvLine(second)];
  }

  /** The text written for the one-row table holding "a\nb". */
  lemma WriteMultiLine()
    ensures WriteAllRows([[Str("a\nb")]]) == Header + "\n" + ("\"a" + "\n" + "b\"" + "\n")
  {
    var line := "\"a" + "\n" + "b\"";
    MultiLineRow();
    assert EncodeRows([[Str("a\nb")]]) == [line];
    assert JoinTerminated([line], "\n") == line + "\n";
  }

  /** The encoded line of the one-field row "a\nb" keeps the break. */
  lemma MultiLineRow()
    ensures ToCsv([Str("a\nb")]) == "\"a" + "\n" + "b\""
  {
    var field := "a\nb";
    assert ToCsv([Str(field)]) == QuotedField(Str(field));
    assert QuotedField(Str(field)) == "\"" + field + "\"" by {
      EscapeNoQuotes(field);
    }
    assert "\"" + field + "\"" == "\"a" + "\n" + "b\"";
  }

  lemma TwoLines(first: string, second: string)
    requires NoBreaks(first, IsReaderBreak) && NoBreaks(second, IsReaderBreak)
    ensures Lines(first + "\n" + second + "\n") == [first, second]
  {
    SplitTerminated(first, "\n", IsReaderBreak);
    SplitTerminated(second, "\n", IsReaderBreak);
    assert first + "\n" + second + "\n" == (first + "\n") + (second + "\n");
    SplitLinesAppend(first + "\n", second + "\n", IsReaderBreak);
  }

  lemma ParseOpenQuote()
    ensures ParseCsvLine("\"a") == ["a"]
  {
    var s := "\"a";
    assert s[1..] == "a";
    assert "a"[1..] == "";
    assert "" + ['a'] == "a";
    assert Scan("", true, "a", []) == ["a"];
    assert Scan("a", true, "", []) == Scan("", true, "a", []);
    assert Scan(s, false, "", []) == Scan("a", true, "", []);
  }

  lemma ParseCloseQuote()
    ensures ParseCsvLine("b\"") == ["b"]
  {
    var s := "b\"";
    assert s[1..] == "\"";
    assert "\""[1..] == "";
    assert "" + ['b'] == "b";
    assert Scan("", true, "b", []) == ["b"];
    assert Scan(s, false, "", []) == Scan("\"", false, "b", []);
    assert Scan("\"", false, "b", []) == Scan("", true, "b", []);
  }

  // ---------------------------------------------------------------------
  // Delete

  /** Removing a row keeps every remaining row readable. */
  lemma {:induction false} RemovedRowsReadable(xs: seq<seq<string>>, p: seq<string> -> bool, r: seq<seq<string>>)
    requires forall i :: 0 <= i < |xs| ==> Readable(xs[i])
    requires r == RemoveFirstWhere(xs, p)
    ensures forall i :: 0 <= i < |r| ==> Readable(r[i])
    decreases |xs|
  {
    if xs != [] {
      var tail := xs[1..];
      forall i | 0 <= i < |tail|
        ensures Readable(tail[i])
      {
        assert tail[i] == xs[i + 1];
      }
      if !p(xs[0]) {
        var rest := RemoveFirstWhere(tail, p);
        RemovedRowsReadable(tail, p, rest);
        assert r == [xs[0]] + rest;
        forall i | 0 < i < |r|
          ensures Readable(r[i])
        {
          assert r[i] == rest[i - 1];
        }
      }
    }
  }

  /** Rows as readAllRows returns them, written back by writeAllRows,
      read back unchanged. */
  lemma ReadAfterRewrite(kept: seq<seq<string>>)
    requires forall i :: 0 <= i < |kept| ==> Readable(kept[i])
    ensures ReadAllRows(Present(WriteAllRows(LiftRows(kept)))) == kept
  {
    var lifted := LiftRows(kept);
    forall i | 0 <= i < |lifted|
      ensures NoBreakFields(OrEmptyAll(lifted[i])) && lifted[i] != []
    {
      OrEmptyLift(kept[i]);
      assert Readable(kept[i]);
    }
    ReadAfterWrite(lifted);
    var r := ReadAllRows(Present(WriteAllRows(lifted)));
    forall i | 0 <= i < |kept|
      ensures r[i] == kept[i]
    {
      OrEmptyLift(kept[i]);
    }
  }

  /** The row appendRow stores for a student (columns in getter order)
      matches that student on delete. */
  lemma StoredStudentMatches(s: Student)
    requires NoBreakFields(OrEmptyAll(ToRow(s)))
    ensures Matches(ParseCsvLine(ToCsv(ToRow(s))), s)
  {
    CsvRoundTrip(ToRow(s));
  }

  /** Deleting a student right after appending its row shrinks the stored
      rows by exactly one. */
  lemma DeleteAfterAppend(f: FileState, s: Student)
    requires Terminated(f)
    requires NoBreakFields(OrEmptyAll(ToRow(s)))
    ensures |ReadAllRows(Present(DeleteStudent(Present(AppendRow(f, ToRow(s))), s)))|
         == |ReadAllRows(f)|
  {
    var g := Present(AppendRow(f, ToRow(s)));
    AppendRoundTrip(f, ToRow(s));
    var rows := ReadAllRows(g);
    StoredStudentMatches(s);
    CsvRoundTrip(ToRow(s));
    var p := RowMatcher(s);
    assert rows[|rows| - 1] == OrEmptyAll(ToRow(s));
    assert p(rows[|rows| - 1]);
    RemoveFirstWhereLength(rows, p, |rows| - 1);
  }
}

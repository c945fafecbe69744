/** The row codec of StudentStorage: `toCsv` quotes every field and doubles
    embedded quotes, `parseCsvLine` is a two-state scanner over one line.
    Quoting follows items 5-7 of section 2 of RFC 4180. */
module CsvCodec {
  import opened JavaText
  import opened TextLines

  /** A field's text with every quote doubled (String.replace): it grows
      by exactly one character per quote, and gains no line break. */
  function Escape(s: string): (r: string)
    ensures |r| == |s| + multiset(s)['"']
    ensures NoBreaks(s, IsReaderBreak) ==> NoBreaks(r, IsReaderBreak)
  {
    if s == [] then ""
    else
      assert s == [s[0]] + s[1..];
      (if s[0] == '"' then "\"\"" else [s[0]]) + Escape(s[1..])
  }

  /** A field without quotes is written as it is. */
  lemma {:induction false} EscapeNoQuotes(s: string)
    requires forall i :: 0 <= i < |s| ==> s[i] != '"'
    ensures Escape(s) == s
    decreases |s|
  {
    if s != [] {
      EscapeNoQuotes(s[1..]);
    }
  }

  /** One encoded field: null reads as "", then quoted. */
  function QuotedField(c: JString): string
  {
    "\"" + Escape(OrEmpty(c)) + "\""
  }

  /** toCsv: the quoted fields joined by commas; an empty array gives "". */
  function ToCsv(cols: seq<JString>): (r: string)
    ensures r == "" <==> cols == []
    ensures cols != [] ==> r[0] == '"' && r[|r| - 1] == '"'
  {
    if cols == [] then ""
    else if |cols| == 1 then QuotedField(cols[0])
    else QuotedField(cols[0]) + "," + ToCsv(cols[1..])
  }

  /** The scanner of parseCsvLine: `inQ` is the quoted state, `cur` the
      field being built, `out` the fields already closed by a comma. */
  function Scan(s: string, inQ: bool, cur: string, out: seq<string>): (r: seq<string>)
    ensures |r| > |out| && r[..|out|] == out
    decreases |s|
  {
    if s == [] then out + [cur]
    else if inQ then
      if s[0] == '"' then
        if |s| > 1 && s[1] == '"' then Scan(s[2..], true, cur + "\"", out)
        else Scan(s[1..], false, cur, out)
      else Scan(s[1..], true, cur + [s[0]], out)
    else if s[0] == '"' then Scan(s[1..], true, cur, out)
    else if s[0] == ',' then Scan(s[1..], false, "", out + [cur])
    else Scan(s[1..], false, cur + [s[0]], out)
  }

  /** parseCsvLine: never returns an empty array. */
  function ParseCsvLine(line: string): (r: seq<string>)
    ensures |r| >= 1
  {
    Scan(line, false, "", [])
  }

  /** The loop of parseCsvLine, index by index, with the one-character
      look-ahead for a doubled quote. */
  method ParseCsvLineLoop(line: string) returns (fields: seq<string>)
    ensures fields == ParseCsvLine(line)
  {
    var out: seq<string> := [];
    var cur := "";
    var inQ := false;
    var i := 0;
    while i < |line|
      invariant 0 <= i <= |line|
      invariant Scan(line[i..], inQ, cur, out) == ParseCsvLine(line)
    {
      var c := line[i];
      if inQ {
        if c == '"' {
          if i + 1 < |line| && line[i + 1] == '"' {
            cur := cur + "\"";
            assert line[i..][2..] == line[i + 2..];
            i := i + 1;
          } else {
            inQ := false;
          }
        } else {
          cur := cur + [c];
        }
      } else {
        if c == '"' {
          inQ := true;
        } else if c == ',' {
          out := out + [cur];
          cur := "";
        } else {
          cur := cur + [c];
        }
      }
      assert line[i..][1..] == line[i + 1..];
      i := i + 1;
    }
    fields := out + [cur];
  }

  // ---------------------------------------------------------------------
  // Round trip

  /** Scanning an escaped field and its closing quote, in quoted state,
      appends exactly the field's text; the next character must not be a
      quote (it is a comma or the end of the line). */
  lemma {:induction false} ScanEscaped(f: string, rest: string, cur: string, out: seq<string>)
    requires rest == [] || rest[0] != '"'
    ensures Scan(Escape(f) + "\"" + rest, true, cur, out) == Scan(rest, false, cur + f, out)
    decreases |f|
  {
    var s := Escape(f) + "\"" + rest;
    if f == [] {
      assert s == "\"" + rest;
      assert s[1..] == rest;
      assert cur + f == cur;
    } else {
      var tail := Escape(f[1..]) + "\"" + rest;
      if f[0] == '"' {
        assert s == "\"\"" + tail;
        assert s[2..] == tail;
        ScanEscaped(f[1..], rest, cur + "\"", out);
        assert cur + "\"" + f[1..] == cur + f;
      } else {
        assert s == [f[0]] + tail;
        assert s[1..] == tail;
        ScanEscaped(f[1..], rest, cur + [f[0]], out);
        assert cur + [f[0]] + f[1..] == cur + f;
      }
    }
  }

  /** One quoted field followed by `rest` (empty or starting with a comma)
      leaves the field's text as the current field, back in unquoted state. */
  lemma ScanQuotedField(c: JString, rest: string, out: seq<string>)
    requires rest == [] || rest[0] == ','
    ensures Scan(QuotedField(c) + rest, false, "", out) == Scan(rest, false, OrEmpty(c), out)
  {
    var f := OrEmpty(c);
    var body := Escape(f) + "\"" + rest;
    var s := QuotedField(c) + rest;
    assert s == ['"'] + body;
    assert s[1..] == body;
    ScanEscaped(f, rest, "", out);
    assert "" + f == f;
  }

  /** A comma in unquoted state closes the current field. */
  lemma ScanComma(tail: string, cur: string, out: seq<string>)
    ensures Scan([','] + tail, false, cur, out) == Scan(tail, false, "", out + [cur])
  {
    assert ([','] + tail)[1..] == tail;
  }

  lemma {:induction false} ScanToCsv(cols: seq<JString>, out: seq<string>)
    requires cols != []
    ensures Scan(ToCsv(cols), false, "", out) == out + OrEmptyAll(cols)
    decreases |cols|
  {
    var f := OrEmpty(cols[0]);
    if |cols| == 1 {
      assert ToCsv(cols) == QuotedField(cols[0]) + "";
      ScanQuotedField(cols[0], "", out);
      assert OrEmptyAll(cols) == [f];
    } else {
      ScanToCsv(cols[1..], out + [f]);
      ScanToCsvStep(cols, out);
    }
  }

  /** The inductive step of ScanToCsv: the first field, then a comma. */
  lemma ScanToCsvStep(cols: seq<JString>, out: seq<string>)
    requires |cols| > 1
    requires Scan(ToCsv(cols[1..]), false, "", out + [OrEmpty(cols[0])])
          == out + [OrEmpty(cols[0])] + OrEmptyAll(cols[1..])
    ensures Scan(ToCsv(cols), false, "", out) == out + OrEmptyAll(cols)
  {
    var f := OrEmpty(cols[0]);
    var tail := ToCsv(cols[1..]);
    ToCsvCons(cols);
    calc {
      Scan(ToCsv(cols), false, "", out);
      { ScanQuotedField(cols[0], [','] + tail, out); }
      Scan([','] + tail, false, f, out);
      { ScanComma(tail, f, out); }
      Scan(tail, false, "", out + [f]);
      out + [f] + OrEmptyAll(cols[1..]);
      { OrEmptyAllCons(cols, out); }
      out + OrEmptyAll(cols);
    }
  }

  lemma ToCsvCons(cols: seq<JString>)
    requires |cols| > 1
    ensures ToCsv(cols) == QuotedField(cols[0]) + ([','] + ToCsv(cols[1..]))
  {
    assert "," == [','];
  }

  lemma OrEmptyAllCons(cols: seq<JString>, out: seq<string>)
    requires cols != []
    ensures out + [OrEmpty(cols[0])] + OrEmptyAll(cols[1..]) == out + OrEmptyAll(cols)
  {
    assert OrEmptyAll(cols) == [OrEmpty(cols[0])] + OrEmptyAll(cols[1..]);
  }

  /** parseCsvLine(toCsv(cols)) gives back every field, nulls as "",
      whatever commas, quotes or line breaks the fields hold. */
  lemma CsvRoundTrip(cols: seq<JString>)
    requires cols != []
    ensures ParseCsvLine(ToCsv(cols)) == OrEmptyAll(cols)
  {
    ScanToCsv(cols, []);
  }

  /** An empty array encodes to the empty line, which reads back as one
      empty field. */
  lemma CsvEmptyRow()
    ensures ToCsv([]) == ""
    ensures ParseCsvLine(ToCsv([])) == [""]
  {
  }

  // ---------------------------------------------------------------------
  // Field count

  /** Commas met outside quotes when the quote state flips on every quote
      character: a doubled quote inside a quoted field flips it twice. */
  function UnquotedCommas(s: string, inQ: bool): nat
  {
    if s == [] then 0
    else
      (if s[0] == ',' && !inQ then 1 else 0)
      + UnquotedCommas(s[1..], if s[0] == '"' then !inQ else inQ)
  }

  lemma {:induction false} ScanCount(s: string, inQ: bool, cur: string, out: seq<string>)
    ensures |Scan(s, inQ, cur, out)| == |out| + 1 + UnquotedCommas(s, inQ)
    decreases |s|
  {
    if s != [] {
      if inQ && s[0] == '"' && |s| > 1 && s[1] == '"' {
        assert s[1..][1..] == s[2..];
        ScanCount(s[2..], true, cur + "\"", out);
      } else if inQ && s[0] == '"' {
        ScanCount(s[1..], false, cur, out);
      } else if inQ {
        ScanCount(s[1..], true, cur + [s[0]], out);
      } else if s[0] == '"' {
        ScanCount(s[1..], true, cur, out);
      } else if s[0] == ',' {
        ScanCount(s[1..], false, "", out + [cur]);
      } else {
        ScanCount(s[1..], false, cur + [s[0]], out);
      }
    }
  }

  /** parseCsvLine returns one more field than there are commas outside
      quoted state. */
  lemma FieldCount(line: string)
    ensures |ParseCsvLine(line)| == 1 + UnquotedCommas(line, false)
  {
    ScanCount(line, false, "", []);
  }

  /** toCsv puts one comma between neighbouring fields and hides every
      other comma inside quotes: a row of n fields has n - 1 unquoted commas. */
  lemma ToCsvCommas(cols: seq<JString>)
    requires cols != []
    ensures UnquotedCommas(ToCsv(cols), false) == |cols| - 1
  {
    FieldCount(ToCsv(cols));
    CsvRoundTrip(cols);
  }

  // ---------------------------------------------------------------------
  // Line breaks

  /** Every field is break-free. */
  predicate NoBreakFields(fields: seq<string>)
  {
    forall i :: 0 <= i < |fields| ==> NoBreaks(fields[i], IsReaderBreak)
  }

  lemma {:induction false} ScanNoBreaks(s: string, inQ: bool, cur: string, out: seq<string>)
    requires NoBreaks(s, IsReaderBreak) && NoBreaks(cur, IsReaderBreak) && NoBreakFields(out)
    ensures NoBreakFields(Scan(s, inQ, cur, out))
    decreases |s|
  {
    if s != [] {
      assert NoBreaks(s[1..], IsReaderBreak);
      assert !IsReaderBreak(s[0]);
      if inQ && s[0] == '"' && |s| > 1 && s[1] == '"' {
        assert NoBreaks(s[2..], IsReaderBreak);
        ScanNoBreaks(s[2..], true, cur + "\"", out);
      } else if inQ && s[0] == '"' {
        ScanNoBreaks(s[1..], false, cur, out);
      } else if inQ {
        ScanNoBreaks(s[1..], true, cur + [s[0]], out);
      } else if s[0] == '"' {
        ScanNoBreaks(s[1..], true, cur, out);
      } else if s[0] == ',' {
        ScanNoBreaks(s[1..], false, "", out + [cur]);
      } else {
        ScanNoBreaks(s[1..], false, cur + [s[0]], out);
      }
    }
  }

  /** A physical line yields break-free fields. */
  lemma ParseNoBreaks(line: string)
    requires NoBreaks(line, IsReaderBreak)
    ensures NoBreakFields(ParseCsvLine(line))
  {
    ScanNoBreaks(line, false, "", []);
  }

  lemma {:induction false} ToCsvNoBreaks(cols: seq<JString>)
    requires NoBreakFields(OrEmptyAll(cols))
    ensures NoBreaks(ToCsv(cols), IsReaderBreak)
    decreases |cols|
  {
    if cols != [] {
      assert NoBreaks(OrEmpty(cols[0]), IsReaderBreak) by {
        assert OrEmptyAll(cols)[0] == OrEmpty(cols[0]);
      }
      if |cols| > 1 {
        assert NoBreakFields(OrEmptyAll(cols[1..])) by {
          forall i | 0 <= i < |cols| - 1
            ensures NoBreaks(OrEmptyAll(cols[1..])[i], IsReaderBreak)
          {
            assert OrEmptyAll(cols[1..])[i] == OrEmptyAll(cols)[i + 1];
          }
        }
        ToCsvNoBreaks(cols[1..]);
      }
    }
  }

  // ---------------------------------------------------------------------
  // Quote-free lines

  /** Joining names with commas, no quoting, as the header line does. */
  function JoinCommas(names: seq<string>): string
    requires names != []
  {
    if |names| == 1 then names[0] else names[0] + "," + JoinCommas(names[1..])
  }

  /** Break-free names joined by commas give a break-free line. */
  lemma {:induction false} JoinCommasNoBreaks(names: seq<string>)
    requires names != []
    requires forall i :: 0 <= i < |names| ==> NoBreaks(names[i], IsReaderBreak)
    ensures NoBreaks(JoinCommas(names), IsReaderBreak)
    decreases |names|
  {
    if |names| > 1 {
      JoinCommasNoBreaks(names[1..]);
      var t := JoinCommas(names[1..]);
      var j := names[0] + "," + t;
      forall i | 0 <= i < |j|
        ensures !IsReaderBreak(j[i])
      {
        if i < |names[0]| {
          assert j[i] == names[0][i];
        } else if i > |names[0]| {
          assert j[i] == t[i - |names[0]| - 1];
        }
      }
    }
  }

  /** Text with neither quotes nor commas. */
  predicate Plain(s: string)
  {
    forall i :: 0 <= i < |s| ==> s[i] != '"' && s[i] != ','
  }

  lemma {:induction false} ScanPlain(s: string, rest: string, cur: string, out: seq<string>)
    requires Plain(s)
    ensures Scan(s + rest, false, cur, out) == Scan(rest, false, cur + s, out)
    decreases |s|
  {
    if s == [] {
      assert s + rest == rest;
      assert cur + s == cur;
    } else {
      assert (s + rest)[1..] == s[1..] + rest;
      ScanPlain(s[1..], rest, cur + [s[0]], out);
      assert cur + [s[0]] + s[1..] == cur + s;
    }
  }

  lemma {:induction false} ScanJoinCommas(names: seq<string>, out: seq<string>)
    requires names != []
    requires forall i :: 0 <= i < |names| ==> Plain(names[i])
    ensures Scan(JoinCommas(names), false, "", out) == out + names
    decreases |names|
  {
    if |names| == 1 {
      ScanPlain(names[0], "", "", out);
      assert names[0] + "" == names[0];
      assert "" + names[0] == names[0];
    } else {
      var rest := [','] + JoinCommas(names[1..]);
      assert JoinCommas(names) == names[0] + rest;
      ScanPlain(names[0], rest, "", out);
      assert "" + names[0] == names[0];
      ScanComma(JoinCommas(names[1..]), names[0], out);
      ScanJoinCommas(names[1..], out + [names[0]]);
      assert names == [names[0]] + names[1..];
      assert out + [names[0]] + names[1..] == out + names;
    }
  }

  /** A line of plain names joined by commas parses back to those names. */
  lemma ParseJoinCommas(names: seq<string>)
    requires names != []
    requires forall i :: 0 <= i < |names| ==> Plain(names[i])
    ensures ParseCsvLine(JoinCommas(names)) == names
  {
    ScanJoinCommas(names, []);
  }
}

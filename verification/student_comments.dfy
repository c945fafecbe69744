/** The faculty-comment log of one student: a single text value holding
    one dated entry per line. Loading splits it at every line break the
    regular expression `\R` recognises, drops blank pieces and trims the
    rest; adding appends one formatted entry after a platform line
    separator. The date and the separator are parameters. */
module StudentComments {
  import opened JavaText
  import opened TextLines
  import opened Seqs

  /** The breaks `\R` matches one at a time: LF, VT, FF, CR, NEL, LS and
      PS; a CR LF pair is a single match. */
  predicate IsAnyBreak(c: char)
  {
    var n := c as int;
    n == 0x0A || n == 0x0B || n == 0x0C || n == 0x0D || n == 0x85 || n == 0x2028 || n == 0x2029
  }

  /** `c` is the trimmed text of some non-blank piece. */
  ghost predicate ShownFrom(c: string, pieces: seq<string>)
  {
    exists j :: 0 <= j < |pieces| && ShownPiece(c, pieces[j])
  }

  /** `c` is what a non-blank piece `p` shows as. */
  predicate ShownPiece(c: string, p: string)
  {
    !IsBlank(p) && c == Trim(p)
  }

  /** The pieces worth showing: the non-blank ones, trimmed, in order.
*/
  function Kept(pieces: seq<string>): (r: seq<string>)
    ensures |r| <= |pieces|
  {
    if pieces == [] then []
    else if IsBlank(pieces[0]) then Kept(pieces[1..])
    else [Trim(pieces[0])] + Kept(pieces[1..])
  }

  /** Each shown entry is the trimmed text of a non-blank piece. */
  lemma {:induction false} KeptShownFrom(pieces: seq<string>)
    ensures forall i :: 0 <= i < |Kept(pieces)| ==> ShownFrom(Kept(pieces)[i], pieces)
    decreases |pieces|
  {
    if pieces != [] {
      KeptShownFrom(pieces[1..]);
      var rest := Kept(pieces[1..]);
      var tail := pieces[1..];
      forall i | 0 <= i < |rest|
        ensures ShownFrom(rest[i], pieces)
      {
        assert ShownFrom(rest[i], tail);
        var j :| 0 <= j < |tail| && ShownPiece(rest[i], tail[j]);
        assert tail[j] == pieces[j + 1];
      }
      if !IsBlank(pieces[0]) {
        assert ShownPiece(Kept(pieces)[0], pieces[0]);
        assert Kept(pieces) == [Trim(pieces[0])] + rest;
      } else {
        assert Kept(pieces) == rest;
      }
    }
  }

  /** Every shown entry is its own trim. */
  lemma KeptTrimmed(pieces: seq<string>)
    ensures forall i :: 0 <= i < |Kept(pieces)| ==> Trim(Kept(pieces)[i]) == Kept(pieces)[i]
  {
    KeptShownFrom(pieces);
    forall i | 0 <= i < |Kept(pieces)|
      ensures Trim(Kept(pieces)[i]) == Kept(pieces)[i]
    {
      var j :| 0 <= j < |pieces| && ShownPiece(Kept(pieces)[i], pieces[j]);
      TrimIdempotent(pieces[j]);
    }
  }

  /** A non-blank piece always shows, trimmed. */
  lemma {:induction false} KeptShowsEvery(pieces: seq<string>, j: int)
    requires 0 <= j < |pieces| && !IsBlank(pieces[j])
    ensures Trim(pieces[j]) in Kept(pieces)
    decreases |pieces|
  {
    var rest := Kept(pieces[1..]);
    if j == 0 {
      assert Kept(pieces) == [Trim(pieces[0])] + rest;
      assert Kept(pieces)[0] == Trim(pieces[j]);
    } else {
      assert pieces[1..][j - 1] == pieces[j];
      KeptShowsEvery(pieces[1..], j - 1);
      var k :| 0 <= k < |rest| && rest[k] == Trim(pieces[j]);
      if IsBlank(pieces[0]) {
        assert Kept(pieces) == rest;
      } else {
        assert Kept(pieces) == [Trim(pieces[0])] + rest;
        assert Kept(pieces)[k + 1] == rest[k];
      }
    }
  }

  lemma {:induction false} KeptConcat(a: seq<string>, b: seq<string>)
    ensures Kept(a + b) == Kept(a) + Kept(b)
    decreases |a|
  {
    if a == [] {
      assert a + b == b;
    } else {
      assert (a + b)[1..] == a[1..] + b;
      KeptConcat(a[1..], b);
    }
  }

  /** loadCommentsFromStudent: nothing for a null or blank log; otherwise
      every non-blank line, trimmed, in order. */
  function LoadComments(stored: JString): (r: seq<string>)
    ensures NullOrBlank(stored) ==> r == []
    ensures forall i :: 0 <= i < |r| ==>
      stored.Str? && ShownFrom(r[i], SplitLines(stored.value, IsAnyBreak)) && Trim(r[i]) == r[i]
  {
    if NullOrBlank(stored) then []
    else
      KeptShownFrom(SplitLines(stored.value, IsAnyBreak));
      KeptTrimmed(SplitLines(stored.value, IsAnyBreak));
      Kept(SplitLines(stored.value, IsAnyBreak))
  }

  /** The log after one more entry: the entry alone when the old log is
      null or blank, otherwise the old text, the separator and the entry. */
  function AppendEntry(existing: JString, entry: string, sep: string): (r: string)
    ensures NullOrBlank(existing) ==> r == entry
    ensures !NullOrBlank(existing) ==>
      && |r| == |existing.value| + |sep| + |entry|
      && r[..|existing.value|] == existing.value
      && r[|existing.value|..|existing.value| + |sep|] == sep
      && r[|r| - |entry|..] == entry
  {
    if NullOrBlank(existing) then entry else existing.value + sep + entry
  }

  /** The entry handleAddComment builds: the date in brackets, a space,
      and the trimmed comment. */
  function FormatEntry(today: string, text: string): (r: string)
    ensures |r| == |today| + |text| + 3
    ensures r[0] == '[' && r[|today| + 1..|today| + 3] == "] "
    ensures r[1..|today| + 1] == today && r[|today| + 3..] == text
  {
    "[" + today + "] " + text
  }

  /** What handleAddComment does to the log: an empty comment is refused
      with a warning and changes nothing. */
  datatype CommentOutcome = EmptyComment | Saved(stored: string)

  function AddComment(existing: JString, raw: string, today: string, sep: string): (r: CommentOutcome)
    ensures r.EmptyComment? <==> Trim(raw) == []
    ensures r.Saved? && NullOrBlank(existing) ==> r.stored == "[" + today + "] " + Trim(raw)
    ensures r.Saved? && !NullOrBlank(existing) ==>
      r.stored == existing.value + sep + "[" + today + "] " + Trim(raw)
  {
    var text := Trim(raw);
    if text == [] then EmptyComment
    else
      var entry := FormatEntry(today, text);
      assert entry == "[" + today + "] " + text;
      assert !NullOrBlank(existing) ==>
        existing.value + sep + entry == existing.value + sep + "[" + today + "] " + text by {
        if !NullOrBlank(existing) {
          var a := existing.value + sep;
          ConcatAssoc(a, "[" + today + "] ", text);
          ConcatAssoc(a, "[" + today, "] ");
          ConcatAssoc(a, "[", today);
        }
      }
      Saved(AppendEntry(existing, entry, sep))
  }

  // ---------------------------------------------------------------------
  // Appending then loading

  /** Adding a line separator to a text adds at most an empty last line:
      when the text ends with a lone CR and the separator is LF, the two
      merge into one CR LF break. */
  lemma {:induction false} SplitWithTerminator(x: string, sep: string, brk: char -> bool)
    requires sep == "\n" || sep == "\r\n"
    requires brk('\n') && brk('\r')
    ensures SplitLines(x + sep, brk) == SplitLines(x, brk)
         || SplitLines(x + sep, brk) == SplitLines(x, brk) + [""]
    decreases |x|
  {
    var t := x + sep;
    if x == [] {
      assert t == sep;
      assert t[..0] == [];
      BreakIndexUnique(t, 0, brk);
      assert t[BreakEnd(t, 0)..] == [];
    } else {
      var k := BreakIndex(x, brk);
      if k == |x| {
        SplitTerminated(x, sep, brk);
      } else {
        BreakIndexPrefix(x, sep, brk);
        var e := BreakEnd(x, k);
        if x[k] == '\r' && k + 1 == |x| && sep == "\n" {
          assert t[k] == '\r' && t[k + 1] == '\n';
          assert BreakEnd(t, k) == |t|;
          assert t[..k] == x[..k];
          assert t[|t|..] == [];
          assert x[e..] == [];
        } else {
          SlicesOfConcat(x, sep, k, e);
          SplitCons(t, brk);
          SplitCons(x, brk);
          SplitWithTerminator(x[e..], sep, brk);
          ConcatAssoc([x[..k]], SplitLines(x[e..], brk), [""]);
        }
      }
    }
  }

  /** A separator after the old log never changes which comments show. */
  lemma KeptWithTerminator(x: string, sep: string)
    requires sep == "\n" || sep == "\r\n"
    ensures Kept(SplitLines(x + sep, IsAnyBreak)) == Kept(SplitLines(x, IsAnyBreak))
  {
    SplitWithTerminator(x, sep, IsAnyBreak);
    var a := SplitLines(x, IsAnyBreak);
    if SplitLines(x + sep, IsAnyBreak) == a + [""] {
      KeptConcat(a, [""]);
      assert a + [] == a;
    }
  }

  /** Appending a trimmed, non-blank, single-line entry adds exactly that
      entry at the end of the loaded list, whatever the old log held. */
  lemma LoadAfterAppend(existing: JString, entry: string, sep: string)
    requires sep == "\n" || sep == "\r\n"
    requires NoBreaks(entry, IsAnyBreak) && !IsBlank(entry) && Trim(entry) == entry
    ensures LoadComments(Str(AppendEntry(existing, entry, sep))) == LoadComments(existing) + [entry]
  {
    assert entry != [];
    SplitUnterminated(entry, IsAnyBreak);
    assert Kept([entry]) == [entry];
    if NullOrBlank(existing) {
    } else {
      var x := existing.value;
      var log := x + sep + entry;
      BlankConcat(x + sep, entry);
      SplitLinesAppend(x + sep, entry, IsAnyBreak);
      KeptConcat(SplitLines(x + sep, IsAnyBreak), [entry]);
      KeptWithTerminator(x, sep);
    }
  }

  /** handleAddComment followed by a reload: a non-empty single-line
      comment appears once, formatted, after all earlier comments. */
  lemma LoadAfterAdd(existing: JString, raw: string, today: string, sep: string)
    requires sep == "\n" || sep == "\r\n"
    requires Trim(raw) != []
    requires NoBreaks(today, IsAnyBreak) && NoBreaks(raw, IsAnyBreak)
    ensures var r := AddComment(existing, raw, today, sep);
      && r.Saved?
      && LoadComments(Str(r.stored)) == LoadComments(existing) + [FormatEntry(today, Trim(raw))]
  {
    var text := Trim(raw);
    TrimNoBreaks(raw);
    TrimIdempotent(raw);
    FormattedEntry(today, text);
    LoadAfterAppend(existing, FormatEntry(today, text), sep);
  }

  /** Trimming cannot introduce a line break. */
  lemma TrimNoBreaks(raw: string)
    requires NoBreaks(raw, IsAnyBreak)
    ensures NoBreaks(Trim(raw), IsAnyBreak)
  {
    var text := Trim(raw);
    var i :| TrimmedAt(raw, text, i);
    forall k | 0 <= k < |text|
      ensures !IsAnyBreak(text[k])
    {
      assert text[k] == raw[i + k];
    }
  }

  /** A formatted entry is a single non-blank line that trimming leaves
      as it is, so the log shows it verbatim. */
  lemma FormattedEntry(today: string, text: string)
    requires text != [] && Trim(text) == text
    requires NoBreaks(today, IsAnyBreak) && NoBreaks(text, IsAnyBreak)
    ensures var entry := FormatEntry(today, text);
      NoBreaks(entry, IsAnyBreak) && !IsBlank(entry) && Trim(entry) == entry
  {
    var entry := FormatEntry(today, text);
    NoBreaksConcat("[", today, IsAnyBreak);
    NoBreaksConcat("[" + today, "] ", IsAnyBreak);
    NoBreaksConcat("[" + today + "] ", text, IsAnyBreak);
    assert entry[|entry| - 1] == text[|text| - 1];
    TrimOfTrimmed(entry);
    NotBlankAt(entry, 0);
  }
}

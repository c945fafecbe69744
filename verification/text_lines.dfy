/** Splitting text into lines the way BufferedReader.readLine and
    Files.readAllLines do, generalised over which characters count as a
    line break so that the `\R` split of the comment log can share it.
    A carriage return immediately followed by a line feed is one break;
    a final break does not open an extra empty line. */
module TextLines {
  import opened Seqs

  /** A file on disk: missing, or present with some text. */
  datatype FileState = Absent | Present(content: string)

  /** The terminators recognised by BufferedReader.readLine. */
  predicate IsReaderBreak(c: char)
  {
    c == '\n' || c == '\r'
  }

  /** No character of `s` is a break. */
  predicate NoBreaks(s: string, brk: char -> bool)
  {
    forall i :: 0 <= i < |s| ==> !brk(s[i])
  }

  /** A concatenation is break-free exactly when both parts are. */
  lemma NoBreaksConcat(a: string, b: string, brk: char -> bool)
    ensures NoBreaks(a + b, brk) <==> NoBreaks(a, brk) && NoBreaks(b, brk)
  {
    if NoBreaks(a + b, brk) {
      forall i | 0 <= i < |a|
        ensures !brk(a[i])
      {
        assert a[i] == (a + b)[i];
      }
      forall i | 0 <= i < |b|
        ensures !brk(b[i])
      {
        assert b[i] == (a + b)[|a| + i];
      }
    }
    if NoBreaks(a, brk) && NoBreaks(b, brk) {
      forall i | 0 <= i < |a + b|
        ensures !brk((a + b)[i])
      {
        if i < |a| {
          assert (a + b)[i] == a[i];
        } else {
          assert (a + b)[i] == b[i - |a|];
        }
      }
    }
  }

  /** Index of the first break in `t`, or |t| when there is none. */
  function BreakIndex(t: string, brk: char -> bool): (k: nat)
    ensures k <= |t|
    ensures NoBreaks(t[..k], brk)
    ensures k < |t| ==> brk(t[k])
  {
    if t == [] then 0
    else if brk(t[0]) then 0
    else
      var k := 1 + BreakIndex(t[1..], brk);
      assert t[..k] == [t[0]] + t[1..][..k - 1];
      k
  }

  /** Where the next line starts after the break at index k: one past it,
      or two past it for a CR LF pair. */
  function BreakEnd(t: string, k: nat): (e: nat)
    requires k < |t|
    ensures k < e <= |t|
  {
    if t[k] == '\r' && k + 1 < |t| && t[k + 1] == '\n' then k + 2 else k + 1
  }

  /** The lines of `t`, without their terminators. */
  function SplitLines(t: string, brk: char -> bool): (r: seq<string>)
    ensures r == [] <==> t == []
    ensures forall i :: 0 <= i < |r| ==> NoBreaks(r[i], brk)
    decreases |t|
  {
    if t == [] then []
    else
      var k := BreakIndex(t, brk);
      if k == |t| then [t]
      else [t[..k]] + SplitLines(t[BreakEnd(t, k)..], brk)
  }

  /** The line sequence BufferedReader.readLine yields for file content `t`:
      none for empty content, never a line holding a break, and the whole
      content as one line when it has no break. */
  function Lines(t: string): (r: seq<string>)
    ensures r == [] <==> t == []
    ensures forall i :: 0 <= i < |r| ==> NoBreaks(r[i], IsReaderBreak)
    ensures t != [] && NoBreaks(t, IsReaderBreak) ==> r == [t]
  {
    var r := SplitLines(t, IsReaderBreak);
    assert t != [] && NoBreaks(t, IsReaderBreak) ==> r == [t] by {
      if t != [] && NoBreaks(t, IsReaderBreak) {
        SplitUnterminated(t, IsReaderBreak);
      }
    }
    r
  }

  /** Text that ends with a break other than a lone CR splits independently
      of whatever is appended to it. */
  lemma {:induction false} SplitLinesAppend(a: string, b: string, brk: char -> bool)
    requires |a| > 0 && brk(a[|a| - 1]) && a[|a| - 1] != '\r'
    ensures SplitLines(a + b, brk) == SplitLines(a, brk) + SplitLines(b, brk)
    decreases |a|
  {
    var k := BreakIndex(a, brk);
    BreakAtOrBefore(a, |a| - 1, brk);
    assert k + 1 == |a| ==> a[k] != '\r';
    var e := BreakEnd(a, k);
    BreakIndexPrefix(a, b, brk);
    SlicesOfConcat(a, b, k, e);
    SplitCons(a + b, brk);
    SplitCons(a, brk);
    var head := [a[..k]];
    if e == |a| {
      assert a[e..] == [];
      assert a[e..] + b == b;
      assert head + [] == head;
    } else {
      assert a[e..][|a[e..]| - 1] == a[|a| - 1];
      SplitLinesAppend(a[e..], b, brk);
      ConcatAssoc(head, SplitLines(a[e..], brk), SplitLines(b, brk));
    }
  }

  /** One step of the split: the text up to the first break, then the
      lines after it. */
  lemma SplitCons(t: string, brk: char -> bool)
    requires BreakIndex(t, brk) < |t|
    ensures SplitLines(t, brk)
      == [t[..BreakIndex(t, brk)]] + SplitLines(t[BreakEnd(t, BreakIndex(t, brk))..], brk)
  {
  }

  /** Where a break inside `a` ends, and what precedes and follows it, is
      unaffected by appending `b`. */
  lemma SlicesOfConcat(a: string, b: string, k: nat, e: nat)
    requires k < |a| && e == BreakEnd(a, k)
    requires a[k] == '\r' && k + 1 == |a| ==> b == [] || b[0] != '\n'
    ensures BreakEnd(a + b, k) == e
    ensures (a + b)[..k] == a[..k]
    ensures (a + b)[e..] == a[e..] + b
  {
    var t := a + b;
    assert t[k] == a[k];
    if k + 1 < |a| {
      assert t[k + 1] == a[k + 1];
    } else if b != [] {
      assert t[k + 1] == b[0];
    }
    assert |t[e..]| == |a[e..] + b|;
    forall i | 0 <= i < |t[e..]|
      ensures t[e..][i] == (a[e..] + b)[i]
    {
      if e + i < |a| {
        assert t[e + i] == a[e + i];
      } else {
        assert t[e + i] == b[e + i - |a|];
      }
    }
  }

  /** The first-break index is determined by its two defining facts. */
  lemma BreakIndexUnique(t: string, k: nat, brk: char -> bool)
    requires k <= |t| && NoBreaks(t[..k], brk)
    requires k < |t| ==> brk(t[k])
    ensures BreakIndex(t, brk) == k
  {
    var j := BreakIndex(t, brk);
    forall i | 0 <= i < k
      ensures !brk(t[i])
    {
      assert t[..k][i] == t[i];
    }
    forall i | 0 <= i < j
      ensures !brk(t[i])
    {
      assert t[..j][i] == t[i];
    }
  }

  /** A break at index j means the first break is at j or earlier. */
  lemma BreakAtOrBefore(t: string, j: int, brk: char -> bool)
    requires 0 <= j < |t| && brk(t[j])
    ensures BreakIndex(t, brk) <= j
  {
    var k := BreakIndex(t, brk);
    forall i | 0 <= i < k
      ensures !brk(t[i])
    {
      assert t[..k][i] == t[i];
    }
  }

  /** A first break inside `a` is also the first break of `a + b`. */
  lemma BreakIndexPrefix(a: string, b: string, brk: char -> bool)
    requires BreakIndex(a, brk) < |a|
    ensures BreakIndex(a + b, brk) == BreakIndex(a, brk)
  {
    var k := BreakIndex(a, brk);
    assert (a + b)[..k] == a[..k];
    BreakIndexUnique(a + b, k, brk);
  }

  /** A break-free line followed by LF or CR LF is exactly one line. */
  lemma SplitTerminated(s: string, term: string, brk: char -> bool)
    requires NoBreaks(s, brk)
    requires term == "\n" || term == "\r\n"
    requires brk('\n') && brk('\r')
    ensures SplitLines(s + term, brk) == [s]
  {
    var t := s + term;
    assert t[..|s|] == s;
    BreakIndexUnique(t, |s|, brk);
    assert t[BreakEnd(t, |s|)..] == [];
  }

  /** A break-free non-empty string is a single line. */
  lemma SplitUnterminated(s: string, brk: char -> bool)
    requires s != [] && NoBreaks(s, brk)
    ensures SplitLines(s, brk) == [s]
  {
    assert s[..|s|] == s;
    BreakIndexUnique(s, |s|, brk);
  }

  /** Lines written one per line with LF or CR LF read back as written. */
  function JoinTerminated(ls: seq<string>, term: string): (t: string)
  {
    if ls == [] then "" else ls[0] + term + JoinTerminated(ls[1..], term)
  }

  lemma {:induction false} SplitJoinTerminated(ls: seq<string>, term: string, brk: char -> bool)
    requires forall i :: 0 <= i < |ls| ==> NoBreaks(ls[i], brk)
    requires term == "\n" || term == "\r\n"
    requires brk('\n') && brk('\r')
    ensures SplitLines(JoinTerminated(ls, term), brk) == ls
  {
    if ls != [] {
      var head := ls[0] + term;
      SplitTerminated(ls[0], term, brk);
      SplitLinesAppend(head, JoinTerminated(ls[1..], term), brk);
      assert JoinTerminated(ls, term) == head + JoinTerminated(ls[1..], term);
      SplitJoinTerminated(ls[1..], term, brk);
    }
  }

  /** A header line followed by terminated lines reads back as the header
      and then those lines. */
  lemma SplitHeaderThenLines(h: string, ls: seq<string>, term: string, brk: char -> bool)
    requires NoBreaks(h, brk)
    requires forall i :: 0 <= i < |ls| ==> NoBreaks(ls[i], brk)
    requires term == "\n" || term == "\r\n"
    requires brk('\n') && brk('\r')
    ensures SplitLines(h + term + JoinTerminated(ls, term), brk) == [h] + ls
  {
    SplitJoinTerminated(ls, term, brk);
    SplitTerminated(h, term, brk);
    SplitLinesAppend(h + term, JoinTerminated(ls, term), brk);
  }
}

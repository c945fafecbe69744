/** The handful of java.lang.String behaviours the application relies on:
    nullable references, String.trim, String.isBlank, case folding and
    String.contains. */
module JavaText {

  /** A Java String reference: either null or a character sequence. */
  datatype JString = Null | Str(value: string)

  /** Objects.toString(s, ""): a null reference reads as the empty string. */
  function OrEmpty(s: JString): string
  {
    if s.Null? then "" else s.value
  }

  /** Every element of a column array, nulls read as "". */
  function OrEmptyAll(cols: seq<JString>): (r: seq<string>)
    ensures |r| == |cols|
    ensures forall i :: 0 <= i < |cols| ==> r[i] == OrEmpty(cols[i])
  {
    seq(|cols|, i requires 0 <= i < |cols| => OrEmpty(cols[i]))
  }

  /** Lift a row of non-null strings into Java references. */
  function Lift(row: seq<string>): (r: seq<JString>)
    ensures |r| == |row|
    ensures forall i :: 0 <= i < |row| ==> r[i] == Str(row[i])
  {
    seq(|row|, i requires 0 <= i < |row| => Str(row[i]))
  }

  lemma OrEmptyLift(row: seq<string>)
    ensures OrEmptyAll(Lift(row)) == row
  {
  }

  // ---------------------------------------------------------------------
  // String.trim

  /** String.trim removes every leading and trailing code point <= U+0020. */
  predicate IsTrimmable(c: char)
  {
    c <= ' '
  }

  /** Index of the first non-trimmable character at or after `i`. */
  function LeadEnd(s: string, i: nat): (j: nat)
    requires i <= |s|
    ensures i <= j <= |s|
    ensures forall k :: i <= k < j ==> IsTrimmable(s[k])
    ensures j < |s| ==> !IsTrimmable(s[j])
    decreases |s| - i
  {
    if i < |s| && IsTrimmable(s[i]) then LeadEnd(s, i + 1) else i
  }

  /** Scanning back from `j` towards `lo`, the index where the trailing run
      of trimmable characters starts. */
  function TailStart(s: string, lo: nat, j: nat): (e: nat)
    requires lo <= j <= |s|
    ensures lo <= e <= j
    ensures forall k :: e <= k < j ==> IsTrimmable(s[k])
    ensures e > lo ==> !IsTrimmable(s[e - 1])
    decreases j
  {
    if j > lo && IsTrimmable(s[j - 1]) then TailStart(s, lo, j - 1) else j
  }

  /** String.trim: the longest slice of `s` that neither starts nor ends
      with a trimmable character, obtained by dropping trimmable ones only. */
  function Trim(s: string): (r: string)
    ensures exists i :: TrimmedAt(s, r, i)
    ensures r == [] || (!IsTrimmable(r[0]) && !IsTrimmable(r[|r| - 1]))
  {
    var i := LeadEnd(s, 0);
    var e := TailStart(s, i, |s|);
    assert TrimmedAt(s, s[i..e], i);
    s[i..e]
  }

  /** `r` is `s` with the first `i` characters and some tail removed, and
      only trimmable characters were removed. */
  ghost predicate TrimmedAt(s: string, r: string, i: int)
  {
    && 0 <= i <= i + |r| <= |s|
    && r == s[i..i + |r|]
    && (forall k :: 0 <= k < i ==> IsTrimmable(s[k]))
    && (forall k :: i + |r| <= k < |s| ==> IsTrimmable(s[k]))
  }

  /** A string that neither starts nor ends with a trimmable character is
      its own trim; in particular trimming is idempotent. */
  lemma TrimOfTrimmed(s: string)
    requires s == [] || (!IsTrimmable(s[0]) && !IsTrimmable(s[|s| - 1]))
    ensures Trim(s) == s
  {
  }

  lemma TrimIdempotent(s: string)
    ensures Trim(Trim(s)) == Trim(s)
  {
    TrimOfTrimmed(Trim(s));
  }

  // ---------------------------------------------------------------------
  // String.isBlank

  /** Character.isWhitespace: the Unicode space, line and paragraph
      separators other than the non-breaking ones (U+00A0, U+2007, U+202F),
      plus U+0009..U+000D and U+001C..U+001F. */
  predicate IsWhitespace(c: char)
  {
    var n := c as int;
    || (0x09 <= n <= 0x0D)
    || (0x1C <= n <= 0x20)
    || n == 0x1680
    || (0x2000 <= n <= 0x2006)
    || (0x2008 <= n <= 0x200A)
    || n == 0x2028 || n == 0x2029
    || n == 0x205F || n == 0x3000
  }

  /** String.isBlank: empty or only whitespace code points. */
  predicate IsBlank(s: string): (r: bool)
    ensures r <==> forall i :: 0 <= i < |s| ==> IsWhitespace(s[i])
    decreases |s|
  {
    if s == [] then true
    else
      assert forall i :: 1 <= i < |s| ==> s[i] == s[1..][i - 1];
      IsWhitespace(s[0]) && IsBlank(s[1..])
  }

  /** A string is blank exactly when both of its parts are. */
  lemma {:induction false} BlankConcat(a: string, b: string)
    ensures IsBlank(a + b) <==> IsBlank(a) && IsBlank(b)
    decreases |a|
  {
    if a == [] {
      assert a + b == b;
    } else {
      assert (a + b)[1..] == a[1..] + b;
      BlankConcat(a[1..], b);
    }
  }

  /** One non-whitespace character makes a string non-blank. */
  lemma {:induction false} NotBlankAt(s: string, j: int)
    requires 0 <= j < |s| && !IsWhitespace(s[j])
    ensures !IsBlank(s)
    decreases j
  {
    if j > 0 {
      NotBlankAt(s[1..], j - 1);
    }
  }

  /** JString view of isBlank, as in `s == null || s.isBlank()`. */
  predicate NullOrBlank(s: JString)
  {
    s.Null? || IsBlank(s.value)
  }

  // ---------------------------------------------------------------------
  // toLowerCase

  /** Case folding of one character; only A-Z are mapped. */
  function LowerChar(c: char): char
  {
    if 'A' <= c <= 'Z' then (c as int + 32) as char else c
  }

  /** Case folding to upper case of one character; only a-z are mapped. */
  function UpperChar(c: char): char
  {
    if 'a' <= c <= 'z' then (c as int - 32) as char else c
  }

  /** String.toLowerCase restricted to ASCII letters. */
  function ToLower(s: string): (r: string)
    ensures |r| == |s|
    ensures forall i :: 0 <= i < |s| ==> r[i] == LowerChar(s[i])
  {
    seq(|s|, i requires 0 <= i < |s| => LowerChar(s[i]))
  }

  lemma LowerCharTrimmable(c: char)
    ensures IsTrimmable(LowerChar(c)) <==> IsTrimmable(c)
  {
  }

  /** Lower-casing twice is lower-casing once. */
  lemma LowerIdempotent(s: string)
    ensures ToLower(ToLower(s)) == ToLower(s)
  {
    var t := ToLower(s);
    forall i | 0 <= i < |s|
      ensures ToLower(t)[i] == t[i]
    {
      assert t[i] == LowerChar(s[i]);
    }
  }

  lemma {:induction false} LeadEndLower(s: string, i: nat)
    requires i <= |s|
    ensures LeadEnd(ToLower(s), i) == LeadEnd(s, i)
    decreases |s| - i
  {
    if i < |s| {
      LowerCharTrimmable(s[i]);
      if IsTrimmable(s[i]) {
        LeadEndLower(s, i + 1);
      }
    }
  }

  lemma {:induction false} TailStartLower(s: string, lo: nat, j: nat)
    requires lo <= j <= |s|
    ensures TailStart(ToLower(s), lo, j) == TailStart(s, lo, j)
    decreases j
  {
    if j > lo {
      LowerCharTrimmable(s[j - 1]);
      if IsTrimmable(s[j - 1]) {
        TailStartLower(s, lo, j - 1);
      }
    }
  }

  /** Trimming and lower-casing commute, so `s.toLowerCase().trim()` and
      `s.trim().toLowerCase()` agree. */
  lemma TrimLower(s: string)
    ensures Trim(ToLower(s)) == ToLower(Trim(s))
  {
    var i := LeadEnd(s, 0);
    LeadEndLower(s, 0);
    var e := TailStart(s, i, |s|);
    TailStartLower(s, i, |s|);
    assert Trim(ToLower(s)) == ToLower(s)[i..e];
    assert Trim(s) == s[i..e];
    LowerSlice(s, i, e);
  }

  /** Lower-casing commutes with taking a slice. */
  lemma LowerSlice(s: string, i: nat, e: nat)
    requires i <= e <= |s|
    ensures ToLower(s)[i..e] == ToLower(s[i..e])
  {
    var a := ToLower(s)[i..e];
    var b := ToLower(s[i..e]);
    forall k | 0 <= k < e - i
      ensures a[k] == b[k]
    {
      assert a[k] == ToLower(s)[i + k];
    }
  }

  // ---------------------------------------------------------------------
  // String.contains

  /** `needle` occurs in `hay` starting at index `i`. */
  predicate OccursAt(hay: string, needle: string, i: int)
  {
    0 <= i && i + |needle| <= |hay| && hay[i..i + |needle|] == needle
  }

  /** String.contains: a left-to-right search for `needle` in `hay`. */
  function Contains(hay: string, needle: string): (r: bool)
    ensures r <==> exists i :: OccursAt(hay, needle, i)
    decreases |hay|
  {
    if |needle| <= |hay| && hay[..|needle|] == needle then
      assert OccursAt(hay, needle, 0);
      true
    else if hay == [] then
      false
    else
      var r := Contains(hay[1..], needle);
      assert forall i :: OccursAt(hay[1..], needle, i) ==> OccursAt(hay, needle, i + 1);
      assert forall i :: OccursAt(hay, needle, i) && i > 0 ==> OccursAt(hay[1..], needle, i - 1);
      r
  }
}

/** The Search Students screen: five lower-cased, trimmed text filters
    over the loaded records, and the dated-comment rule of addComment. */
module SearchStudents {
  import opened JavaText
  import opened TextLines
  import opened Seqs
  import opened StudentRecord
  import opened StudentComments
  import ViewStudents

  /** contains(value, filter): an empty filter always matches; otherwise a
      null value never does and a present one is lower-cased and searched. */
  function SearchContains(value: JString, filter: string): (r: bool)
    ensures filter == [] ==> r
    ensures filter != [] && value.Null? ==> !r
    ensures filter != [] && value.Str? ==>
      (r <==> exists i :: OccursAt(ToLower(value.value), filter, i))
  {
    filter == [] || (value.Str? && Contains(ToLower(value.value), filter))
  }

  /** How search reads a text field: lower-cased, then trimmed. */
  function Prepare(text: string): (r: string)
    ensures |r| <= |text|
    ensures r == [] || (!IsTrimmable(r[0]) && !IsTrimmable(r[|r| - 1]))
    ensures exists i :: TrimmedAt(ToLower(text), r, i)
  {
    Trim(ToLower(text))
  }

  /** The search screen prepares its filters exactly as the view screen
      normalises its own: lower-casing and trimming commute. */
  lemma PrepareIsNorm(text: string)
    ensures Prepare(text) == ViewStudents.Norm(Str(text))
  {
    TrimLower(text);
  }

  /** The text of the five search fields, as typed. */
  datatype SearchFields = SearchFields(
    name: string,
    status: string,
    lang: string,
    db: string,
    role: string)

  /** The fields after clearFilters. */
  const ClearedFields := SearchFields("", "", "", "", "")

  /** A typed filter finds a field when, once prepared, it is empty or
      occurs in the field's lower-cased text. */
  ghost predicate Finds(value: JString, typed: string)
  {
    Prepare(typed) == [] || (value.Str? && exists i :: OccursAt(ToLower(value.value), Prepare(typed), i))
  }

  /** All five prepared filters hit: a record is a hit exactly when every
      filter finds its field. */
  predicate Hit(f: SearchFields, p: Profile): (r: bool)
    ensures r <==>
      && Finds(p.fullName, f.name) && Finds(p.academicStatus, f.status)
      && Finds(p.programmingLanguages, f.lang) && Finds(p.databases, f.db)
      && Finds(p.preferredRole, f.role)
  {
    && SearchContains(p.fullName, Prepare(f.name))
    && SearchContains(p.academicStatus, Prepare(f.status))
    && SearchContains(p.programmingLanguages, Prepare(f.lang))
    && SearchContains(p.databases, Prepare(f.db))
    && SearchContains(p.preferredRole, Prepare(f.role))
  }

  function HitFn(f: SearchFields): Profile -> bool
  {
    p => Hit(f, p)
  }

  /** search: the loop over fullList that keeps the hits in order. */
  method Search(fullList: seq<Profile>, f: SearchFields) returns (found: seq<Profile>)
    ensures found == Filter(fullList, HitFn(f))
  {
    found := FilterLoop(fullList, HitFn(f));
  }

  /** A record is found exactly when it is in the list and every filter
      hits; results keep the list's order. */
  lemma SearchFinds(fullList: seq<Profile>, more: seq<Profile>, f: SearchFields, p: Profile)
    ensures p in Filter(fullList, HitFn(f)) <==> p in fullList && Hit(f, p)
    ensures Filter(fullList + more, HitFn(f))
         == Filter(fullList, HitFn(f)) + Filter(more, HitFn(f))
  {
    FilterConcat(fullList, more, HitFn(f));
    if p in fullList && Hit(f, p) {
      var i :| 0 <= i < |fullList| && fullList[i] == p;
    }
  }

  /** Blank search fields match everything; clearFilters shows fullList. */
  lemma BlankFieldsFindAll(fullList: seq<Profile>, f: SearchFields)
    requires Prepare(f.name) == [] && Prepare(f.status) == [] && Prepare(f.lang) == []
    requires Prepare(f.db) == [] && Prepare(f.role) == []
    ensures Filter(fullList, HitFn(f)) == fullList
    ensures Filter(fullList, HitFn(ClearedFields)) == fullList
  {
    FilterKeepsAll(fullList, HitFn(f));
    assert Prepare("") == [];
    FilterKeepsAll(fullList, HitFn(ClearedFields));
  }

  /** A set filter rejects a record whose field is null. */
  lemma NullFieldMissesFilter(f: SearchFields, p: Profile)
    requires Prepare(f.name) != [] && p.fullName.Null?
    ensures !Hit(f, p)
  {
  }

  /** refreshList: the records of every row with ten or more fields. */
  lemma RefreshKeepsWideRows(rows: seq<seq<string>>, more: seq<seq<string>>, toYesNo: string -> JString, p: Profile)
    ensures p in LoadProfiles(rows, toYesNo) <==>
      exists j :: 0 <= j < |rows| && |rows[j]| >= 10 && p == ProfileOfRow(rows[j], toYesNo)
    ensures LoadProfiles(rows + more, toYesNo) == LoadProfiles(rows, toYesNo) + LoadProfiles(more, toYesNo)
  {
    LoadProfilesMember(rows, toYesNo, p);
    LoadProfilesConcat(rows, more, toYesNo);
  }

  // ---------------------------------------------------------------------
  // addComment

  /** The dated entry: the date, a colon and a space, then the comment. */
  function Dated(today: string, comment: string): string
  {
    today + ": " + comment
  }

  datatype SearchCommentOutcome = NoComment | Commented(facultyComment: string)

  /** addComment: a comment that is empty after trimming changes nothing;
      otherwise the dated comment replaces a null or blank one and is
      appended after a line separator to any other. */
  function AddComment(existing: JString, raw: string, today: string, sep: string): (r: SearchCommentOutcome)
    ensures r.NoComment? <==> Trim(raw) == []
    ensures r.Commented? && NullOrBlank(existing) ==> r.facultyComment == Dated(today, Trim(raw))
    ensures r.Commented? && !NullOrBlank(existing) ==>
      r.facultyComment == existing.value + sep + Dated(today, Trim(raw))
  {
    var comment := Trim(raw);
    if comment == [] then NoComment
    else Commented(AppendEntry(existing, Dated(today, comment), sep))
  }

  /** A comment added here shows up last on the comments screen, as long
      as the date starts with a visible character and neither the date
      nor the comment spans lines. */
  lemma SearchCommentShows(existing: JString, raw: string, today: string, sep: string)
    requires sep == "\n" || sep == "\r\n"
    requires Trim(raw) != []
    requires today != [] && !IsTrimmable(today[0])
    requires NoBreaks(today, IsAnyBreak) && NoBreaks(raw, IsAnyBreak)
    ensures var r := AddComment(existing, raw, today, sep);
      && r.Commented?
      && LoadComments(Str(r.facultyComment)) == LoadComments(existing) + [Dated(today, Trim(raw))]
  {
    var text := Trim(raw);
    var entry := Dated(today, text);
    TrimNoBreaks(raw);
    DatedEntry(today, text);
    LoadAfterAppend(existing, entry, sep);
  }

  /** A dated entry is a single non-blank line that trimming leaves as is. */
  lemma DatedEntry(today: string, text: string)
    requires text != [] && Trim(text) == text
    requires today != [] && !IsTrimmable(today[0])
    requires NoBreaks(today, IsAnyBreak) && NoBreaks(text, IsAnyBreak)
    ensures var entry := Dated(today, text);
      NoBreaks(entry, IsAnyBreak) && !IsBlank(entry) && Trim(entry) == entry
  {
    var entry := Dated(today, text);
    NoBreaksConcat(today, ": ", IsAnyBreak);
    NoBreaksConcat(today + ": ", text, IsAnyBreak);
    assert entry[0] == today[0];
    assert entry[|entry| - 1] == text[|text| - 1];
    TrimOfTrimmed(entry);
    if IsWhitespace(entry[0]) {
      assert entry[|today|] == ':';
      NotBlankAt(entry, |today|);
    } else {
      NotBlankAt(entry, 0);
    }
  }
}

/** The View Students screen: the filter predicate built from the search
    widgets, the duplicate-name check and the replace-at-index step of an
    edit, over the records loaded from the student file. */
module ViewStudents {
  import opened JavaText
  import opened TextLines
  import opened Seqs
  import opened CsvCodec
  import opened StudentRecord
  import opened StudentStorage

  // ---------------------------------------------------------------------
  // Normalisation and matching

  /** norm: null reads as "", anything else is trimmed, then lower-cased.
      The widget overloads behave the same with a missing widget or a
      missing value read as null. */
  function Norm(s: JString): (r: string)
    ensures s.Null? ==> r == ""
    ensures r == [] || (!IsTrimmable(r[0]) && !IsTrimmable(r[|r| - 1]))
    ensures s.Str? ==> |r| == |Trim(s.value)| <= |s.value|
  {
    if s.Null? then ""
    else
      var t := Trim(s.value);
      LowerKeepsEnds(t);
      ToLower(t)
  }

  /** A present value's key is its lower-cased text with only leading and
      trailing trimmable characters removed. */
  lemma NormTrimsLowered(s: JString)
    requires s.Str?
    ensures exists i :: TrimmedAt(ToLower(s.value), Norm(s), i)
  {
    TrimLower(s.value);
    var u := Trim(ToLower(s.value));
    assert u == Norm(s);
  }

  lemma LowerKeepsEnds(t: string)
    requires t == [] || (!IsTrimmable(t[0]) && !IsTrimmable(t[|t| - 1]))
    ensures var r := ToLower(t); r == [] || (!IsTrimmable(r[0]) && !IsTrimmable(r[|r| - 1]))
  {
    if t != [] {
      LowerCharTrimmable(t[0]);
      LowerCharTrimmable(t[|t| - 1]);
    }
  }

  /** A normalised key normalises to itself. */
  lemma NormIdempotent(s: JString)
    ensures Norm(Str(Norm(s))) == Norm(s)
  {
    var n := Norm(s);
    TrimOfTrimmed(n);
    if s.Str? {
      LowerIdempotent(Trim(s.value));
    }
  }

  /** Normalising ignores letter case. */
  lemma NormIgnoresCase(x: string)
    ensures Norm(Str(ToLower(x))) == Norm(Str(x))
  {
    TrimLower(x);
    LowerIdempotent(Trim(x));
  }

  /** contains: the empty needle is found everywhere, otherwise a plain
      substring test. */
  function ViewContains(hay: string, needle: string): (r: bool)
    ensures needle == [] ==> r
    ensures needle != [] ==> (r <==> exists i :: OccursAt(hay, needle, i))
  {
    needle == [] || Contains(hay, needle)
  }

  /** Every text contains itself. */
  lemma ContainsSelf(s: string)
    ensures ViewContains(s, s)
  {
    assert OccursAt(s, s, 0);
  }

  // ---------------------------------------------------------------------
  // The filter predicate

  /** The widget values buildPredicate reads: the four text fields, the
      two combo boxes (null when nothing is selected) and the check box. */
  datatype ViewFilters = ViewFilters(
    name: JString,
    status: JString,
    role: JString,
    job: JString,
    lang: JString,
    db: JString,
    employedOnly: bool)

  /** The filters clearFilters leaves behind. */
  const Cleared := ViewFilters(Str(""), Null, Null, Str(""), Str(""), Str(""), false)

  /** A normalised filter `needle` is met by `hay` when it is empty or
      occurs in `hay`'s normal form. */
  ghost predicate SubstringFilter(hay: JString, needle: JString)
  {
    Norm(needle) == [] || exists i :: OccursAt(Norm(hay), Norm(needle), i)
  }

  /** The contains test on normal forms is the substring filter. */
  lemma SubstringTest(hay: JString, needle: JString)
    ensures ViewContains(Norm(hay), Norm(needle)) <==> SubstringFilter(hay, needle)
  {
  }

  /** The filters met, as the tests the predicate makes. */
  lemma MeetsAsTests(f: ViewFilters, p: Profile)
    ensures Meets(f, p) <==>
      && ViewContains(Norm(p.fullName), Norm(f.name))
      && ExactFilter(p.academicStatus, f.status)
      && (f.employedOnly ==> Norm(p.employed) == "yes")
      && ViewContains(Norm(p.jobDetails), Norm(f.job))
      && ViewContains(Norm(p.programmingLanguages), Norm(f.lang))
      && ViewContains(Norm(p.databases), Norm(f.db))
      && ExactFilter(p.preferredRole, f.role)
  {
    SubstringTest(p.fullName, f.name);
    SubstringTest(p.jobDetails, f.job);
    SubstringTest(p.programmingLanguages, f.lang);
    SubstringTest(p.databases, f.db);
  }

  /** An exact filter is met when it is empty or equal after norm. */
  predicate ExactFilter(value: JString, wanted: JString)
  {
    Norm(wanted) == [] || Norm(value) == Norm(wanted)
  }

  /** The filter semantics as one conjunction: substring tests on name,
      job, languages and databases, exact tests on status and role. */
  ghost predicate Meets(f: ViewFilters, p: Profile)
  {
    && SubstringFilter(p.fullName, f.name)
    && ExactFilter(p.academicStatus, f.status)
    && (f.employedOnly ==> Norm(p.employed) == "yes")
    && SubstringFilter(p.jobDetails, f.job)
    && SubstringFilter(p.programmingLanguages, f.lang)
    && SubstringFilter(p.databases, f.db)
    && ExactFilter(p.preferredRole, f.role)
  }

  /** The predicate buildPredicate returns, as its sequence of early
      rejections. */
  predicate Accepts(f: ViewFilters, p: Profile): (r: bool)
    ensures r <==> Meets(f, p)
  {
    MeetsAsTests(f, p);
    if !ViewContains(Norm(p.fullName), Norm(f.name)) then false
    else if Norm(f.status) != [] && Norm(p.academicStatus) != Norm(f.status) then false
    else if f.employedOnly && Norm(p.employed) != "yes" then false
    else if Norm(f.job) != [] && !ViewContains(Norm(p.jobDetails), Norm(f.job)) then false
    else if Norm(f.lang) != [] && !ViewContains(Norm(p.programmingLanguages), Norm(f.lang)) then false
    else if Norm(f.db) != [] && !ViewContains(Norm(p.databases), Norm(f.db)) then false
    else if Norm(f.role) != [] && Norm(p.preferredRole) != Norm(f.role) then false
    else true
  }

  /** With employed-only set, only records whose employed field
      normalises to "yes" pass. */
  lemma EmployedOnlyNeedsYes(f: ViewFilters, p: Profile)
    requires f.employedOnly && Accepts(f, p)
    ensures Norm(p.employed) == "yes"
  {
  }

  /** No filter is set. */
  predicate Unfiltered(f: ViewFilters)
  {
    && Norm(f.name) == [] && Norm(f.status) == [] && Norm(f.role) == []
    && Norm(f.job) == [] && Norm(f.lang) == [] && Norm(f.db) == []
    && !f.employedOnly
  }

  /** The record with every field null. */
  const BlankProfile := Profile(Null, Null, Null, Null, Null, Null, Null, Null, Null, Null)

  /** Unset filters accept every record; any set filter rejects the
      all-null record, so the filters accept everything exactly when
      none is set. */
  lemma UnfilteredAcceptsAll(f: ViewFilters, p: Profile)
    ensures Unfiltered(f) ==> Accepts(f, p)
    ensures Accepts(f, BlankProfile) <==> Unfiltered(f)
  {
    assert Norm(f.name) != [] ==> !ViewContains("", Norm(f.name));
  }

  /** After clearFilters every record is shown. */
  lemma ClearedShowsAll(master: seq<Profile>)
    ensures Unfiltered(Cleared)
    ensures ApplyFilters(master, Cleared) == master
  {
    forall i | 0 <= i < |master|
      ensures Accepts(Cleared, master[i])
    {
      UnfilteredAcceptsAll(Cleared, master[i]);
    }
    FilterKeepsAll(master, FilterFn(Cleared));
  }

  /** Filters built from a record's own values accept that record. */
  lemma RecordMeetsOwnValues(p: Profile)
    requires Norm(p.employed) == "yes"
    ensures Accepts(ViewFilters(p.fullName, p.academicStatus, p.preferredRole,
                                p.jobDetails, p.programmingLanguages, p.databases, true), p)
  {
    ContainsSelf(Norm(p.fullName));
    ContainsSelf(Norm(p.jobDetails));
    ContainsSelf(Norm(p.programmingLanguages));
    ContainsSelf(Norm(p.databases));
  }

  function FilterFn(f: ViewFilters): Profile -> bool
  {
    p => Accepts(f, p)
  }

  /** The filtered view of the master list: exactly the master records
      the filters accept. */
  function ApplyFilters(master: seq<Profile>, f: ViewFilters): (r: seq<Profile>)
    ensures |r| <= |master|
    ensures forall p :: p in r <==> p in master && Accepts(f, p)
  {
    var r := Filter(master, FilterFn(f));
    assert forall p :: p in r <==> p in master && Accepts(f, p) by {
      forall p
        ensures p in r <==> p in master && Accepts(f, p)
      {
        if p in master && Accepts(f, p) {
          var i :| 0 <= i < |master| && master[i] == p;
        }
        if p in r {
          var i :| 0 <= i < |r| && r[i] == p;
        }
      }
    }
    r
  }

  /** A record is shown exactly when it is in the master list and passes
      the filters; the view keeps the master list's order. */
  lemma ApplyFiltersShows(master: seq<Profile>, more: seq<Profile>, f: ViewFilters, p: Profile)
    ensures p in ApplyFilters(master, f) <==> p in master && Accepts(f, p)
    ensures ApplyFilters(master + more, f) == ApplyFilters(master, f) + ApplyFilters(more, f)
  {
    FilterConcat(master, more, FilterFn(f));
    if p in master && Accepts(f, p) {
      var i :| 0 <= i < |master| && master[i] == p;
    }
  }

  // ---------------------------------------------------------------------
  // Loading

  /** loadStudents: the records of every stored row with ten or more
      fields; a missing file loads none. */
  function LoadStudents(f: FileState, toYesNo: string -> JString): (r: seq<Profile>)
    ensures f.Absent? ==> r == []
    ensures |r| <= |ReadAllRows(f)|
    ensures forall p :: p in r <==>
      exists j :: 0 <= j < |ReadAllRows(f)| && |ReadAllRows(f)[j]| >= 10
               && p == ProfileOfRow(ReadAllRows(f)[j], toYesNo)
  {
    var rows := ReadAllRows(f);
    var r := LoadProfiles(rows, toYesNo);
    assert forall p :: p in r <==>
      exists j :: 0 <= j < |rows| && |rows[j]| >= 10 && p == ProfileOfRow(rows[j], toYesNo) by {
      forall p
        ensures p in r <==>
          exists j :: 0 <= j < |rows| && |rows[j]| >= 10 && p == ProfileOfRow(rows[j], toYesNo)
      {
        LoadProfilesMember(rows, toYesNo, p);
      }
    }
    r
  }

  /** A row appended with a student's seven fields never shows on the
      table screens, which only load rows of ten or more fields. */
  lemma SevenFieldRowNotLoaded(f: FileState, s: Student, toYesNo: string -> JString)
    requires Terminated(f)
    requires NoBreakFields(OrEmptyAll(ToRow(s)))
    ensures LoadStudents(Present(AppendRow(f, ToRow(s))), toYesNo) == LoadStudents(f, toYesNo)
  {
    AppendRoundTrip(f, ToRow(s));
    var row := OrEmptyAll(ToRow(s));
    LoadProfilesConcat(ReadAllRows(f), [row], toYesNo);
    assert LoadProfiles([row], toYesNo) == [];
    assert LoadProfiles(ReadAllRows(f), toYesNo) + [] == LoadProfiles(ReadAllRows(f), toYesNo);
  }

  // ---------------------------------------------------------------------
  // Duplicate names and editing

  /** Some record other than the one at `self` has the candidate's
      normalised name. Identity is position in the master list; an index
      outside the list excludes nothing. */
  predicate DuplicateName(master: seq<Profile>, candidate: JString, self: int)
  {
    exists i :: 0 <= i < |master| && i != self && Norm(master[i].fullName) == Norm(candidate)
  }

  /** wouldDuplicateName: look for the candidate's key among the other records. */
  method WouldDuplicateName(master: seq<Profile>, candidate: JString, self: int) returns (dup: bool)
    ensures dup <==> DuplicateName(master, candidate, self)
  {
    var at := FindOtherName(master, Norm(candidate), self);
    dup := at < |master|;
  }

  /** The position of the first record other than `self` whose normalised
      name is `key`, or |master| when there is none. */
  method FindOtherName(master: seq<Profile>, key: string, self: int) returns (at: nat)
    ensures at <= |master|
    ensures at < |master| ==> at != self && Norm(master[at].fullName) == key
    ensures forall j :: 0 <= j < at && j != self ==> Norm(master[j].fullName) != key
  {
    at := 0;
    while at < |master|
      invariant at <= |master|
      invariant forall j :: 0 <= j < at && j != self ==> Norm(master[j].fullName) != key
    {
      if at != self && Norm(master[at].fullName) == key {
        return;
      }
      at := at + 1;
    }
  }

  /** No two records share a normalised name. */
  predicate NamesUnique(master: seq<Profile>)
  {
    forall i, j :: 0 <= i < j < |master| ==> Norm(master[i].fullName) != Norm(master[j].fullName)
  }

  datatype EditResult = NameTaken | Edited(master: seq<Profile>)

  /** The list step of editSelected: a name another record already uses
      is refused with the list untouched; otherwise the record at `sel`
      (its indexOf, -1 when absent) is replaced and nothing else moves. */
  method EditSelected(master: seq<Profile>, sel: int, updated: Profile) returns (r: EditResult)
    ensures r.NameTaken? <==> DuplicateName(master, updated.fullName, sel)
    ensures r.Edited? ==> |r.master| == |master|
    ensures r.Edited? && 0 <= sel < |master| ==> r.master[sel] == updated
    ensures r.Edited? ==> forall j :: 0 <= j < |master| && j != sel ==> r.master[j] == master[j]
    ensures r.Edited? && NamesUnique(master) ==> NamesUnique(r.master)
  {
    var dup := WouldDuplicateName(master, updated.fullName, sel);
    if dup {
      return NameTaken;
    }
    if 0 <= sel < |master| {
      EditKeepsNamesUnique(master, sel, updated);
      return Edited(master[sel := updated]);
    }
    return Edited(master);
  }

  /** Replacing one record by one whose name no other record uses keeps
      the names unique. */
  lemma EditKeepsNamesUnique(master: seq<Profile>, sel: int, updated: Profile)
    requires 0 <= sel < |master|
    requires !DuplicateName(master, updated.fullName, sel)
    ensures NamesUnique(master) ==> NamesUnique(master[sel := updated])
  {
    var m := master[sel := updated];
    if NamesUnique(master) {
      forall i, j | 0 <= i < j < |m|
        ensures Norm(m[i].fullName) != Norm(m[j].fullName)
      {
        if i == sel {
          assert m[j] == master[j];
        } else if j == sel {
          assert m[i] == master[i];
        } else {
          assert m[i] == master[i] && m[j] == master[j];
        }
      }
    }
  }
}

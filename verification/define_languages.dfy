/** The programming-language list: the displayed `items` and the set
    `canonical` of their lower-cased forms, used to refuse names that
    differ only in case. Adding keeps the list in case-insensitive order;
    loading reads one name per line after a header, first occurrence
    winning; saving writes the header `Name` and the distinct names in
    natural order. The file is a parameter and the result. */
module DefineLanguages {
  import opened JavaText
  import opened TextLines
  import opened Ordering
  import opened Seqs

  datatype Languages = Languages(items: seq<string>, canonical: set<string>)

  /** The screen's state before anything is loaded. */
  const NoLanguages := Languages([], {})

  /** `canonical` holds exactly the lower-cased items, and no two items
      share a lower-cased form. */
  predicate Valid(l: Languages)
  {
    l.canonical == KeySet(l.items, ToLower) && DistinctBy(l.items, ToLower)
  }

  // ---------------------------------------------------------------------
  // onAdd

  datatype AddResult = NameRequired | AlreadyExists | Added(langs: Languages)

  /** onAdd: a null name or one empty after trimming is refused, and so
      is a name whose lower-cased trim is already known; otherwise the
      trimmed name joins the list, the list is re-sorted
      case-insensitively, and its lower-cased form joins `canonical`. */
  function OnAdd(l: Languages, raw: JString): (r: AddResult)
    ensures r.NameRequired? <==> Trim(OrEmpty(raw)) == []
    ensures r.AlreadyExists? <==>
      Trim(OrEmpty(raw)) != [] && ToLower(Trim(OrEmpty(raw))) in l.canonical
    ensures r.Added? ==>
      var t := Trim(OrEmpty(raw));
      && r.langs.canonical == l.canonical + {ToLower(t)}
      && multiset(r.langs.items) == multiset(l.items) + multiset{t}
      && SortedBy(r.langs.items, ToLower)
  {
    var t := Trim(OrEmpty(raw));
    if t == [] then NameRequired
    else if ToLower(t) in l.canonical then AlreadyExists
    else
      var items := l.items + [t];
      Added(Languages(SortBy(items, ToLower), l.canonical + {ToLower(t)}))
  }

  /** A new key keeps keys distinct when appended. */
  lemma SnocDistinct(xs: seq<string>, x: string, key: string -> string)
    requires DistinctBy(xs, key) && key(x) !in KeySet(xs, key)
    ensures DistinctBy(xs + [x], key)
  {
    assert xs + [x] == InsertAt(xs, |xs|, x);
    InsertAtDistinct(xs, |xs|, x, key);
  }

  /** Appending an element with a new key, then sorting, keeps the
      screen's invariant. */
  lemma SnocSortValid(l: Languages, t: string)
    requires Valid(l) && ToLower(t) !in l.canonical
    ensures Valid(Languages(SortBy(l.items + [t], ToLower), l.canonical + {ToLower(t)}))
  {
    var items := l.items + [t];
    KeySetSnoc(l.items, t, ToLower);
    SnocDistinct(l.items, t, ToLower);
    SortByDistinct(items, ToLower, ToLower);
    PermutationKeys(SortBy(items, ToLower), items, ToLower);
  }

  lemma OnAddValid(l: Languages, raw: JString)
    requires Valid(l)
    ensures OnAdd(l, raw).Added? ==> Valid(OnAdd(l, raw).langs)
  {
    var t := Trim(OrEmpty(raw));
    if OnAdd(l, raw).Added? {
      SnocSortValid(l, t);
    }
  }

  // ---------------------------------------------------------------------
  // onDelete

  datatype DeleteResult = NoSelection | Deleted(langs: Languages, saved: string)

  /** The test `items.remove(selected)` applies: String.equals. */
  function SameText(s: string): string -> bool
  {
    x => x == s
  }

  /** onDelete: with nothing selected nothing changes; otherwise the first
      item equal to the selection leaves the list, its lower-cased form
      leaves `canonical`, and the list is saved. */
  function OnDelete(l: Languages, selected: JString, sep: string): (r: DeleteResult)
    ensures r.NoSelection? <==> selected.Null?
    ensures r.Deleted? ==>
      && r.langs.canonical == l.canonical - {ToLower(selected.value)}
      && (selected.value !in l.items ==> r.langs.items == l.items)
      && (forall i :: FirstWhere(l.items, SameText(selected.value), i) ==>
            r.langs.items == l.items[..i] + l.items[i + 1..])
      && r.saved == SaveToCsv(r.langs.items, sep)
  {
    if selected.Null? then NoSelection
    else
      var s := selected.value;
      var items := RemoveFirstWhere(l.items, SameText(s));
      Deleted(Languages(items, l.canonical - {ToLower(s)}), SaveToCsv(items, sep))
  }

  /** Deleting an item that is in the list keeps the invariant and the
      order of the others. */
  lemma OnDeleteValid(l: Languages, s: string, sep: string)
    requires Valid(l) && s in l.items
    ensures var r := OnDelete(l, Str(s), sep);
      Valid(r.langs) && (SortedBy(l.items, ToLower) ==> SortedBy(r.langs.items, ToLower))
  {
    var i := FirstIndex(l.items, SameText(s));
    assert FirstWhere(l.items, SameText(s), i);
    var items := l.items[..i] + l.items[i + 1..];
    assert OnDelete(l, Str(s), sep).langs.items == items;
    RemoveAtFacts(l.items, i);
  }

  /** Removing the element at `i` from a list with distinct keys removes
      exactly its key and keeps the rest distinct and in order. */
  lemma RemoveAtFacts(xs: seq<string>, i: int)
    requires 0 <= i < |xs| && DistinctBy(xs, ToLower)
    ensures var r := xs[..i] + xs[i + 1..];
      && KeySet(r, ToLower) == KeySet(xs, ToLower) - {ToLower(xs[i])}
      && DistinctBy(r, ToLower)
      && (SortedBy(xs, ToLower) ==> SortedBy(r, ToLower))
  {
    var r := xs[..i] + xs[i + 1..];
    assert forall j :: 0 <= j < |r| ==> r[j] == xs[if j < i then j else j + 1];
    forall k | k in KeySet(r, ToLower)
      ensures k in KeySet(xs, ToLower) - {ToLower(xs[i])}
    {
      var j :| 0 <= j < |r| && k == ToLower(r[j]);
      var m := if j < i then j else j + 1;
      assert r[j] == xs[m];
    }
    forall k | k in KeySet(xs, ToLower) - {ToLower(xs[i])}
      ensures k in KeySet(r, ToLower)
    {
      var m :| 0 <= m < |xs| && k == ToLower(xs[m]);
      var j := if m < i then m else m - 1;
      assert r[j] == xs[m];
    }
  }

  // ---------------------------------------------------------------------
  // saveToCsv

  /** Stream.distinct: the first occurrence of each string, in order. */
  function Distinct(xs: seq<string>): (r: seq<string>)
    ensures forall i :: 0 <= i < |r| ==> r[i] in xs
    ensures forall i :: 0 <= i < |xs| ==> xs[i] in r
    ensures forall i, j :: 0 <= i < j < |r| ==> r[i] != r[j]
    decreases |xs|
  {
    if xs == [] then []
    else
      var init := xs[..|xs| - 1];
      var d := Distinct(init);
      var x := xs[|xs| - 1];
      assert forall i :: 0 <= i < |init| ==> init[i] == xs[i];
      if x in d then d else d + [x]
  }

  /** A list without repeats is its own distinct list. */
  lemma {:induction false} DistinctOfUnique(xs: seq<string>)
    requires forall i, j :: 0 <= i < j < |xs| ==> xs[i] != xs[j]
    ensures Distinct(xs) == xs
    decreases |xs|
  {
    if xs != [] {
      var init := xs[..|xs| - 1];
      DistinctOfUnique(init);
      assert xs[|xs| - 1] !in init;
      assert xs == init + [xs[|xs| - 1]];
    }
  }

  /** The natural-order key. */
  function Id(s: string): string
  {
    s
  }

  /** saveToCsv: the line `Name`, then every distinct item in natural
      order, each line ended by the platform separator. With a line
      separator and break-free items the file reads back as the line
      `Name` followed by the saved names, one per line. */
  function SaveToCsv(items: seq<string>, sep: string): (r: string)
    ensures |r| >= 4 && r[..4] == "Name"
    ensures (sep == "\n" || sep == "\r\n")
         && (forall i :: 0 <= i < |items| ==> NoBreaks(items[i], IsReaderBreak))
        ==> Lines(r) == ["Name"] + SavedNames(items)
  {
    var ss := SavedNames(items);
    var r := "Name" + sep + JoinTerminated(ss, sep);
    assert r[..4] == "Name";
    if (sep == "\n" || sep == "\r\n")
       && (forall i :: 0 <= i < |items| ==> NoBreaks(items[i], IsReaderBreak)) then
      SavedNamesNoBreaks(items);
      NameNoBreaks();
      SplitHeaderThenLines("Name", ss, sep, IsReaderBreak);
      r
    else r
  }

  /** The names saveToCsv writes after the header. */
  function SavedNames(items: seq<string>): seq<string>
  {
    SortBy(Distinct(items), Id)
  }

  /** The saved names are the distinct items, in strictly increasing
      natural order. */
  lemma SavedNamesFacts(items: seq<string>)
    ensures var ss := SavedNames(items);
      && (forall i, j :: 0 <= i < j < |ss| ==> CompareTo(ss[i], ss[j]) < 0)
      && (forall i :: 0 <= i < |ss| ==> ss[i] in items)
      && (forall i :: 0 <= i < |items| ==> items[i] in ss)
  {
    var d := Distinct(items);
    var ss := SortBy(d, Id);
    assert DistinctBy(d, Id);
    SortByDistinct(d, Id, Id);
    forall i | 0 <= i < |ss|
      ensures ss[i] in items
    {
      assert ss[i] in multiset(d);
    }
    forall i | 0 <= i < |items|
      ensures items[i] in ss
    {
      assert items[i] in multiset(d);
    }
    forall i, j | 0 <= i < j < |ss|
      ensures CompareTo(ss[i], ss[j]) < 0
    {
      assert LeBy(ss[i], ss[j], Id);
      assert Id(ss[i]) != Id(ss[j]);
    }
  }

  lemma NameNoBreaks()
    ensures NoBreaks("Name", IsReaderBreak)
  {
  }

  /** Saved names come from the items, so they hold no break either. */
  lemma SavedNamesNoBreaks(items: seq<string>)
    requires forall i :: 0 <= i < |items| ==> NoBreaks(items[i], IsReaderBreak)
    ensures forall i :: 0 <= i < |SavedNames(items)| ==> NoBreaks(SavedNames(items)[i], IsReaderBreak)
  {
    var ss := SavedNames(items);
    SavedNamesFacts(items);
    forall i | 0 <= i < |ss|
      ensures NoBreaks(ss[i], IsReaderBreak)
    {
      var j :| 0 <= j < |items| && items[j] == ss[i];
    }
  }

  // ---------------------------------------------------------------------
  // loadIfPresent

  /** One line of the language file: a line whose trim is empty, or a name whose
      lower-cased trim is already known, is skipped; any other name joins
      the end of the list, trimmed. */
  function AddLine(l: Languages, line: string): Languages
  {
    var t := Trim(line);
    if t == [] || ToLower(t) in l.canonical then l
    else Languages(l.items + [t], l.canonical + {ToLower(t)})
  }

  /** The loop over the file's lines, in order. */
  function AddLoaded(l: Languages, lines: seq<string>): Languages
    decreases |lines|
  {
    if lines == [] then l else AddLoaded(AddLine(l, lines[0]), lines[1..])
  }

  /** The lines after the first: the names, with the header skipped. */
  function NameLines(content: string): seq<string>
  {
    var ls := Lines(content);
    if ls == [] then [] else ls[1..]
  }

  /** The key a line contributes: its lower-cased trim, unless that trim is empty. */
  function LineKey(line: string): set<string>
  {
    if Trim(line) == [] then {} else {ToLower(Trim(line))}
  }

  /** The keys of all the lines. */
  function LineKeys(lines: seq<string>): set<string>
    decreases |lines|
  {
    if lines == [] then {} else LineKey(lines[0]) + LineKeys(lines[1..])
  }

  /** A key comes from some line exactly when that line's trim is non-empty
      and lower-cases to it. */
  lemma {:induction false} LineKeysMember(lines: seq<string>, k: string)
    ensures k in LineKeys(lines) <==>
      exists j :: 0 <= j < |lines| && Trim(lines[j]) != [] && k == ToLower(Trim(lines[j]))
    decreases |lines|
  {
    if lines != [] {
      LineKeysMember(lines[1..], k);
      if k in LineKeys(lines[1..]) {
        var j :| 0 <= j < |lines[1..]| && Trim(lines[1..][j]) != [] && k == ToLower(Trim(lines[1..][j]));
        assert lines[j + 1] == lines[1..][j];
      }
      if exists j :: 0 <= j < |lines| && Trim(lines[j]) != [] && k == ToLower(Trim(lines[j])) {
        var j :| 0 <= j < |lines| && Trim(lines[j]) != [] && k == ToLower(Trim(lines[j]));
        if j > 0 {
          assert lines[1..][j - 1] == lines[j];
        }
      }
    }
  }

  /** loadIfPresent: a missing file changes nothing; otherwise every new
      name is added, first occurrence winning, and the list is then sorted
      case-insensitively. The keys known afterwards are the old ones plus
      those of every line whose trim is non-empty. */
  function LoadIfPresent(l: Languages, f: FileState): (r: Languages)
    ensures f.Absent? ==> r == l
    ensures f.Present? ==> SortedBy(r.items, ToLower)
    ensures f.Present? ==> r.canonical == l.canonical + LineKeys(NameLines(f.content))
  {
    if f.Absent? then l
    else
      var m := AddLoaded(l, NameLines(f.content));
      AddLoadedKeys(l, NameLines(f.content));
      Languages(SortBy(m.items, ToLower), m.canonical)
  }

  lemma AddLineValid(l: Languages, line: string)
    requires Valid(l)
    ensures Valid(AddLine(l, line))
  {
    var t := Trim(line);
    if t != [] && ToLower(t) !in l.canonical {
      KeySetSnoc(l.items, t, ToLower);
      SnocDistinct(l.items, t, ToLower);
    }
  }

  lemma {:induction false} AddLoadedValid(l: Languages, lines: seq<string>)
    requires Valid(l)
    ensures Valid(AddLoaded(l, lines))
    decreases |lines|
  {
    if lines != [] {
      AddLineValid(l, lines[0]);
      AddLoadedValid(AddLine(l, lines[0]), lines[1..]);
    }
  }

  /** Loading adds the key of every line whose trim is non-empty, and nothing
      else. */
  lemma {:induction false} AddLoadedKeys(l: Languages, lines: seq<string>)
    ensures AddLoaded(l, lines).canonical == l.canonical + LineKeys(lines)
    decreases |lines|
  {
    if lines != [] {
      AddLoadedKeys(AddLine(l, lines[0]), lines[1..]);
    }
  }

  /** Loading never drops or reorders the items already present. */
  lemma {:induction false} AddLoadedPrefix(l: Languages, lines: seq<string>)
    ensures |l.items| <= |AddLoaded(l, lines).items|
    ensures AddLoaded(l, lines).items[..|l.items|] == l.items
    decreases |lines|
  {
    if lines != [] {
      var m := AddLine(l, lines[0]);
      AddLoadedPrefix(m, lines[1..]);
      assert m.items[..|l.items|] == l.items;
    }
  }

  /** Among lines with the same lower-cased trim, the first one is the
      one kept: a line whose trim is non-empty, whose key is not yet known and appears on
      no earlier line ends up in the list, trimmed. */
  lemma {:induction false} AddLoadedFirstWins(l: Languages, lines: seq<string>, j: int)
    requires 0 <= j < |lines| && Trim(lines[j]) != []
    requires ToLower(Trim(lines[j])) !in l.canonical
    requires forall i :: 0 <= i < j && Trim(lines[i]) != [] ==>
      ToLower(Trim(lines[i])) != ToLower(Trim(lines[j]))
    ensures Trim(lines[j]) in AddLoaded(l, lines).items
    decreases j
  {
    var m := AddLine(l, lines[0]);
    AddLoadedPrefix(m, lines[1..]);
    var r := AddLoaded(m, lines[1..]);
    if j == 0 {
      assert m.items[|l.items|] == Trim(lines[0]);
      assert r.items[|l.items|] == m.items[|l.items|];
    } else {
      assert lines[1..][j - 1] == lines[j];
      forall i | 0 <= i < j - 1 && Trim(lines[1..][i]) != []
        ensures ToLower(Trim(lines[1..][i])) != ToLower(Trim(lines[1..][j - 1]))
      {
        assert lines[1..][i] == lines[i + 1];
      }
      AddLoadedFirstWins(m, lines[1..], j - 1);
    }
  }

  /** loadIfPresent keeps the screen's invariant, and every name whose
      key is new and first seen on its line is listed. */
  lemma LoadIfPresentValid(l: Languages, c: string)
    requires Valid(l)
    ensures Valid(LoadIfPresent(l, Present(c)))
  {
    var m := AddLoaded(l, NameLines(c));
    AddLoadedValid(l, NameLines(c));
    SortByDistinct(m.items, ToLower, ToLower);
    PermutationKeys(SortBy(m.items, ToLower), m.items, ToLower);
  }

  lemma LoadFirstWins(l: Languages, c: string, j: int)
    requires var names := NameLines(c);
      && 0 <= j < |names| && Trim(names[j]) != []
      && ToLower(Trim(names[j])) !in l.canonical
      && forall i :: 0 <= i < j && Trim(names[i]) != [] ==>
           ToLower(Trim(names[i])) != ToLower(Trim(names[j]))
    ensures Trim(NameLines(c)[j]) in LoadIfPresent(l, Present(c)).items
  {
    var m := AddLoaded(l, NameLines(c));
    AddLoadedFirstWins(l, NameLines(c), j);
    assert Trim(NameLines(c)[j]) in multiset(m.items);
  }

  // ---------------------------------------------------------------------
  // Saving then loading

  /** A name as the screen stores it: non-empty, already trimmed, and on
      one line. */
  predicate WellFormedName(s: string)
  {
    s != [] && Trim(s) == s && NoBreaks(s, IsReaderBreak)
  }

  lemma KeySetCons(xs: seq<string>, key: string -> string)
    requires xs != []
    ensures KeySet(xs, key) == {key(xs[0])} + KeySet(xs[1..], key)
  {
    assert xs == InsertAt(xs[1..], 0, xs[0]);
    InsertAtKeys(xs[1..], 0, xs[0], key);
  }

  /** A well-formed name with a new key is appended as it is. */
  lemma AddLineNew(l: Languages, x: string)
    requires WellFormedName(x) && ToLower(x) !in l.canonical
    ensures AddLine(l, x) == Languages(l.items + [x], l.canonical + {ToLower(x)})
  {
  }

  /** Lines that are well-formed names with new, distinct keys are all
      added, in order. */
  lemma {:induction false} AddLoadedAllNew(l: Languages, lines: seq<string>)
    requires forall i :: 0 <= i < |lines| ==> WellFormedName(lines[i])
    requires DistinctBy(lines, ToLower)
    requires forall i :: 0 <= i < |lines| ==> ToLower(lines[i]) !in l.canonical
    ensures AddLoaded(l, lines).items == l.items + lines
    decreases |lines|
  {
    if lines == [] {
      assert l.items + lines == l.items;
    } else {
      var x := lines[0];
      var m := AddLine(l, x);
      AddLineNew(l, x);
      TailStillNew(l, lines);
      AddLoadedAllNew(m, lines[1..]);
      assert AddLoaded(l, lines) == AddLoaded(m, lines[1..]);
      ShiftHead(l.items, lines);
    }
  }

  lemma TailStillNew(l: Languages, lines: seq<string>)
    requires lines != []
    requires forall i :: 0 <= i < |lines| ==> WellFormedName(lines[i])
    requires DistinctBy(lines, ToLower)
    requires forall i :: 0 <= i < |lines| ==> ToLower(lines[i]) !in l.canonical
    requires WellFormedName(lines[0])
    ensures var tail := lines[1..];
      && (forall i :: 0 <= i < |tail| ==> WellFormedName(tail[i]))
      && DistinctBy(tail, ToLower)
      && (forall i :: 0 <= i < |tail| ==> ToLower(tail[i]) !in AddLine(l, lines[0]).canonical)
  {
    var tail := lines[1..];
    forall i | 0 <= i < |tail|
      ensures tail[i] == lines[i + 1]
      ensures ToLower(tail[i]) != ToLower(lines[0])
    {
    }
  }

  /** The keys of well-formed names are their lower-cased forms. */
  lemma {:induction false} LineKeysOfNames(lines: seq<string>)
    requires forall i :: 0 <= i < |lines| ==> WellFormedName(lines[i])
    ensures LineKeys(lines) == KeySet(lines, ToLower)
    decreases |lines|
  {
    if lines != [] {
      assert forall i :: 0 <= i < |lines[1..]| ==> lines[1..][i] == lines[i + 1];
      LineKeysOfNames(lines[1..]);
      KeySetCons(lines, ToLower);
    }
  }

  /** With no repeats, the saved names are the items in natural order. */
  lemma SavedNamesOfDistinct(l: Languages, sep: string)
    requires Valid(l)
    requires forall i :: 0 <= i < |l.items| ==> WellFormedName(l.items[i])
    requires sep == "\n" || sep == "\r\n"
    ensures NameLines(SaveToCsv(l.items, sep)) == SortBy(l.items, Id)
  {
    var items := l.items;
    assert forall i, j :: 0 <= i < j < |items| ==> items[i] != items[j] by {
      assert forall i, j :: 0 <= i < j < |items| ==> ToLower(items[i]) != ToLower(items[j]);
    }
    DistinctOfUnique(items);
    NameLinesOfSave(items, sep);
  }

  /** The lines after the header of a saved file are the saved names. */
  lemma NameLinesOfSave(items: seq<string>, sep: string)
    requires forall i :: 0 <= i < |items| ==> WellFormedName(items[i])
    requires sep == "\n" || sep == "\r\n"
    ensures NameLines(SaveToCsv(items, sep)) == SavedNames(items)
  {
    assert forall i :: 0 <= i < |items| ==> NoBreaks(items[i], IsReaderBreak);
    var ls := Lines(SaveToCsv(items, sep));
    assert ls == ["Name"] + SavedNames(items);
    assert ls[1..] == SavedNames(items);
  }

  /** Sorting keeps the names well-formed and their keys distinct. */
  lemma SortedNamesWellFormed(items: seq<string>)
    requires DistinctBy(items, ToLower)
    requires forall i :: 0 <= i < |items| ==> WellFormedName(items[i])
    ensures DistinctBy(SortBy(items, Id), ToLower)
    ensures forall i :: 0 <= i < |SortBy(items, Id)| ==> WellFormedName(SortBy(items, Id)[i])
  {
    var ss := SortBy(items, Id);
    SortByDistinct(items, Id, ToLower);
    forall i | 0 <= i < |ss|
      ensures WellFormedName(ss[i])
    {
      assert ss[i] in multiset(items);
    }
  }

  /** The sorted names, reloaded into an empty screen, are all added. */
  lemma ReloadSortedNames(items: seq<string>)
    requires DistinctBy(items, ToLower)
    requires forall i :: 0 <= i < |items| ==> WellFormedName(items[i])
    ensures var ss := SortBy(items, Id);
      AddLoaded(NoLanguages, ss) == Languages(ss, KeySet(ss, ToLower))
  {
    var ss := SortBy(items, Id);
    SortedNamesWellFormed(items);
    ReloadNames(ss);
  }

  /** Distinct well-formed names, loaded into an empty screen, are all
      added in order with their keys. */
  lemma ReloadNames(ss: seq<string>)
    requires DistinctBy(ss, ToLower)
    requires forall i :: 0 <= i < |ss| ==> WellFormedName(ss[i])
    ensures AddLoaded(NoLanguages, ss) == Languages(ss, KeySet(ss, ToLower))
  {
    AddLoadedAllNew(NoLanguages, ss);
    AddLoadedKeys(NoLanguages, ss);
    LineKeysOfNames(ss);
    assert [] + ss == ss;
  }

  /** Saving a well-formed, sorted list and loading the file into an empty
      screen gives back the same list and the same key set. */
  lemma SaveThenLoad(l: Languages, sep: string)
    requires Valid(l) && SortedBy(l.items, ToLower)
    requires forall i :: 0 <= i < |l.items| ==> WellFormedName(l.items[i])
    requires sep == "\n" || sep == "\r\n"
    ensures LoadIfPresent(NoLanguages, Present(SaveToCsv(l.items, sep))) == l
  {
    var items := l.items;
    var ss := SortBy(items, Id);
    SavedNamesOfDistinct(l, sep);
    ReloadSortedNames(items);
    var sorted := SortBy(ss, ToLower);
    SortedUnique(items, sorted, ToLower);
    PermutationKeys(ss, items, ToLower);
  }
}

# Student profile store and screen rules

This project models, in Dafny, the core of a small JavaFX application for faculty. The application keeps student profiles in a CSV file. It also keeps a programming-language list in its own file, and a per-student log of faculty comments.

The model covers:

- **The row codec of `StudentStorage`.**
  - `toCsv` quotes every field and doubles embedded quotes.
  - `parseCsvLine` is a two-state scanner.
  - Quoting follows items 5-7 of section 2 of RFC 4180. Lines end with a line feed.
- **The whole-file store.**
  - `ensureHeader`, `appendRow`, `writeAllRows`, `readAllRows` and `deleteStudent` with `matches`/`eq`.
  - The file is its text, or absent (`TextLines.FileState`).
  - `BufferedReader.readLine` is an explicit line splitter (`TextLines.Lines`).
- **`Student`**, the seven-field record, and its correspondence with the header columns. It has no setters, so it is an immutable datatype.
- **The View Students screen.**
  - `norm`, `contains` and `eq`, and the filter predicate of `buildPredicate`.
  - `clearFilters` and the `loadStudents` row filter.
  - `wouldDuplicateName` and the replace-at-index step of `editSelected`.
- **The Search Students screen.**
  - `contains` and the `search` loop.
  - `clearFilters` and the `refreshList` row filter.
  - The dated-comment rule of `addComment`.
- **The Define Languages screen.**
  - `onAdd`, `onDelete` and `loadIfPresent` over the pair `items`/`canonical`.
  - The text `saveToCsv` writes.
- **The Student Comments screen.**
  - `loadCommentsFromStudent` splits on `\R`, drops blank pieces and trims the rest.
  - `handleAddComment` formats and appends an entry.

Java's nullable `String` is `JavaText.JString` (`Null | Str(value)`). `String.trim` removes characters up to U+0020. `isBlank` uses `Character.isWhitespace`. These are two different predicates, and the model keeps them apart. `System.lineSeparator()`, `LocalDate.now()` and `StudentStorage.toYesNo` are parameters.

Modules, one per file:

- `Seqs`: filtering and first-match removal.
- `JavaText`: Java string primitives.
- `TextLines`: line splitting.
- `CsvCodec`
- `StudentRecord`
- `StudentStorage`
- `StudentComments`
- `Ordering`: `compareTo`, `CASE_INSENSITIVE_ORDER` and stable sorting.
- `DefineLanguages`
- `ViewStudents`
- `SearchStudents`

Behaviour the code does not have:

- **No key check in storage.** Storage accepts any row; duplicate names are refused only by `wouldDuplicateName`.
- **No whitespace collapsing.** Names are normalised by trimming and lower-casing only.
- **Delete matches all seven fields.** `deleteStudent` removes the first row whose seven fields all match, not the first row with the same key.
- **Multi-line fields do not survive the file.** `readAllRows` parses every physical line on its own. A field holding a line break round-trips through `parseCsvLine(toCsv(..))`, but not through the file: `StudentStorage.MultiLineFieldSplits` shows a one-field row `a⏎b` reading back as two rows.

## Model

| member | source | states |
|---|---|---|
| CsvCodec.CsvRoundTrip | src/main/java/cs151/application/StudentStorage.java:95-125 | for every non-empty row, parsing the encoded line gives back each field, with null read back as "", even for fields holding commas, quotes or line breaks |
| CsvCodec.CsvEmptyRow | src/main/java/cs151/application/StudentStorage.java:95-104 | an empty array encodes to the empty line, which parses as one empty field |
| CsvCodec.ToCsv | src/main/java/cs151/application/StudentStorage.java:95-104 | the line is empty exactly for an empty array; otherwise it starts and ends with a quote |
| CsvCodec.ToCsvCommas | src/main/java/cs151/application/StudentStorage.java:95-104 | a row of n fields is written with exactly n - 1 commas outside quotes |
| CsvCodec.Escape | src/main/java/cs151/application/StudentStorage.java:99-100 | escaping a field adds exactly one character for each quote it contains, and a field without line breaks stays without them |
| CsvCodec.Scan | src/main/java/cs151/application/StudentStorage.java:106-125 | scanning the rest of a line only appends: the fields already collected stay in front, and at least one more field follows |
| CsvCodec.ScanEscaped | src/main/java/cs151/application/StudentStorage.java:112-116 | inside quotes, the scanner turns each doubled quote back into one and leaves quoted state at the closing quote, restoring the original field text |
| CsvCodec.ParseCsvLine | src/main/java/cs151/application/StudentStorage.java:106-125 | the parser never returns an empty array |
| CsvCodec.ParseCsvLineLoop | src/main/java/cs151/application/StudentStorage.java:106-125 | the index loop with one-character look-ahead for doubled quotes computes the same fields as the recursive scanner |
| CsvCodec.FieldCount | src/main/java/cs151/application/StudentStorage.java:106-125 | the number of fields is one more than the number of commas met outside quoted state |
| CsvCodec.ParseNoBreaks | src/main/java/cs151/application/StudentStorage.java:106-125 | a line without breaks yields fields without breaks |
| CsvCodec.ToCsvNoBreaks | src/main/java/cs151/application/StudentStorage.java:95-104 | a row whose fields hold no line break encodes to a single physical line |
| CsvCodec.ParseJoinCommas | src/main/java/cs151/application/StudentStorage.java:106-125 | unquoted names without quotes or commas, joined by commas, parse back to exactly those names |
| StudentRecord.ToRow | src/main/java/cs151/application/Student.java:14-25 | the row of a student has the seven header columns, and rebuilding a student from it gives the same student: each getter returns its constructor argument |
| StudentRecord.RowOfConstructed | src/main/java/cs151/application/Student.java:6-17 | a student built from seven values yields those seven values back, in order |
| StudentStorage.HeaderMatchesColumns | src/main/java/cs151/application/StudentStorage.java:16-17 | the header line reads back as the seven column names, in the order of the Student fields, and holds no line break |
| StudentStorage.Matches | src/main/java/cs151/application/StudentStorage.java:71-84 | a row matches a student exactly when it has at least seven fields and its first seven equal the student's fields with null read as "" |
| StudentStorage.EnsureHeader | src/main/java/cs151/application/StudentStorage.java:88-93 | a missing or empty file becomes exactly the header line followed by a line feed; any other file keeps its content unchanged |
| StudentStorage.AppendRow | src/main/java/cs151/application/StudentStorage.java:22-29 | the new file is the header-ensured old content, unchanged, followed by exactly the encoded row and a line feed |
| StudentStorage.WriteAllRows | src/main/java/cs151/application/StudentStorage.java:32-43 | the rewritten file always starts with the header line and ends with a line feed |
| StudentStorage.ReadAfterRewrite | src/main/java/cs151/application/StudentStorage.java:32-58 | rows as read from a file, written back, read back unchanged |
| StudentStorage.ReadAllRows | src/main/java/cs151/application/StudentStorage.java:46-58 | an absent file reads as no rows; every row read has at least one field |
| StudentStorage.ReadPerLine | src/main/java/cs151/application/StudentStorage.java:46-57 | exactly the first line is dropped and each later physical line is parsed on its own |
| StudentStorage.ReadAfterWrite | src/main/java/cs151/application/StudentStorage.java:32-58 | rows without line breaks in their fields read back after a rewrite in the same number and order, each with null fields as "" (an empty row reads as one empty field) |
| StudentStorage.ReadAfterAppend | src/main/java/cs151/application/StudentStorage.java:22-29 | appending to a line-terminated file reads back as the old rows followed by the parsed new row |
| StudentStorage.AppendRoundTrip | src/main/java/cs151/application/StudentStorage.java:22-29 | appending a non-empty break-free row reads back as the old rows plus exactly that row |
| StudentStorage.MultiLineFieldSplits | src/main/java/cs151/application/StudentStorage.java:46-57 | a field holding a line break is split into two rows when the file is read back |
| StudentStorage.DeleteStudent | src/main/java/cs151/application/StudentStorage.java:61-69 | the rewritten file starts with the header and reads back as the old rows with only the first matching row removed, the others in order; with no match nothing is removed |
| StudentStorage.DeleteAfterAppend | src/main/java/cs151/application/StudentStorage.java:61-69 | deleting a student just appended removes exactly one row |
| StudentStorage.StoredStudentMatches | src/main/java/cs151/application/StudentStorage.java:71-80 | a stored student's own row, read back, matches that student |
| Seqs.RemoveFirstWhere | src/main/java/cs151/application/StudentStorage.java:63-67 | without a match the list is unchanged; otherwise exactly the first matching element is removed |
| Seqs.RemoveFirstWhereLength | src/main/java/cs151/application/StudentStorage.java:63-67 | removing the first match shortens the list by one whenever any element matches |
| TextLines.SplitJoinTerminated | src/main/java/cs151/application/StudentStorage.java:49-55 | break-free lines, each followed by LF or CR LF, are read back by readLine as exactly those lines |
| TextLines.Lines | src/main/java/cs151/application/StudentStorage.java:49-55 | empty text has no lines, no line holds a break, and text without a break is one line |
| TextLines.SplitLinesAppend | src/main/java/cs151/application/StudentStorage.java:49-55 | text ending in a line feed splits into lines independently of what is appended after it |
| ViewStudents.Norm | src/main/java/cs151/application/ViewStudentsController.java:133 | null normalises to ""; any other string keeps exactly the length of its trim and has no trimmable character at either end |
| ViewStudents.NormTrimsLowered | src/main/java/cs151/application/ViewStudentsController.java:133 | a present value normalises to a contiguous slice of its lower-cased text, with only trimmable characters cut at either end |
| ViewStudents.NormIdempotent | src/main/java/cs151/application/ViewStudentsController.java:133 | normalising twice equals normalising once |
| ViewStudents.NormIgnoresCase | src/main/java/cs151/application/ViewStudentsController.java:133 | strings differing only in ASCII case normalise alike |
| ViewStudents.ViewContains | src/main/java/cs151/application/ViewStudentsController.java:134 | an empty needle always matches; otherwise the result holds exactly when the needle occurs at some position of the haystack |
| ViewStudents.Accepts | src/main/java/cs151/application/ViewStudentsController.java:119-128 | the early-return predicate accepts a record exactly when every set filter holds: name, job, language and database are substring tests and status and role are exact equality, all after normalising |
| ViewStudents.EmployedOnlyNeedsYes | src/main/java/cs151/application/ViewStudentsController.java:122 | with employed-only set, an accepted record has normalised employed value "yes" |
| ViewStudents.UnfilteredAcceptsAll | src/main/java/cs151/application/ViewStudentsController.java:110-129 | with every filter empty and employed-only off every record passes, and those are the only settings under which a blank record passes |
| ViewStudents.ClearedShowsAll | src/main/java/cs151/application/ViewStudentsController.java:91-107 | the cleared filters are unfiltered and show the whole master list |
| ViewStudents.RecordMeetsOwnValues | src/main/java/cs151/application/ViewStudentsController.java:119-128 | a record with employed "yes" passes the filters set to its own values |
| ViewStudents.ApplyFilters | src/main/java/cs151/application/ViewStudentsController.java:87-88 | the shown list is no longer than the master list and holds exactly the master records the filters accept |
| ViewStudents.ApplyFiltersShows | src/main/java/cs151/application/ViewStudentsController.java:87-88 | a record is shown exactly when it is in the master list and accepted, and the shown list keeps master order |
| ViewStudents.LoadStudents | src/main/java/cs151/application/ViewStudentsController.java:219-228 | a missing file loads nothing; no more records than stored rows are loaded, and a record is loaded exactly when some stored row of ten or more fields yields it |
| ViewStudents.SevenFieldRowNotLoaded | src/main/java/cs151/application/ViewStudentsController.java:222-223 | a row appended through the seven-field store is not among the loaded students, because only rows of ten or more fields are loaded |
| ViewStudents.WouldDuplicateName | src/main/java/cs151/application/ViewStudentsController.java:189-196 | the result is true exactly when some record other than the selected position has a normalised name equal to the normalised candidate |
| ViewStudents.FindOtherName | src/main/java/cs151/application/ViewStudentsController.java:190-195 | the loop stops at the first record other than the selected position whose normalised name is the key, and having passed a record means its name differs |
| ViewStudents.EditSelected | src/main/java/cs151/application/ViewStudentsController.java:155-165 | a duplicate name is refused; otherwise only the selected position is replaced, the length and every other record stay the same, and unique names stay unique |
| ViewStudents.EditKeepsNamesUnique | src/main/java/cs151/application/ViewStudentsController.java:157-165 | replacing a record with one whose name is not a duplicate keeps all normalised names distinct |
| StudentRecord.ProfileOfRow | src/main/java/cs151/application/ViewStudentsController.java:223 | a loaded record takes its name from the first field and its comment from the eighth |
| StudentRecord.LoadProfiles | src/main/java/cs151/application/ViewStudentsController.java:219-224 | loading never yields more records than rows |
| StudentRecord.LoadProfilesMember | src/main/java/cs151/application/ViewStudentsController.java:222-224 | a record is loaded exactly when some row of ten or more fields yields it |
| StudentRecord.LoadProfilesConcat | src/main/java/cs151/application/ViewStudentsController.java:222-224 | rows are loaded in file order: loading a concatenation gives the concatenation of the loads |
| SearchStudents.SearchContains | src/main/java/cs151/application/SearchStudentsController.java:115-117 | an empty filter matches; a set filter never matches a null value and otherwise matches exactly when it occurs in the lower-cased value |
| SearchStudents.Prepare | src/main/java/cs151/application/SearchStudentsController.java:92-96 | a prepared filter is a contiguous slice of the lower-cased typed text with only trimmable characters cut at either end, and neither end is trimmable |
| SearchStudents.PrepareIsNorm | src/main/java/cs151/application/SearchStudentsController.java:93-97 | lower-casing then trimming gives the same filter as the view screen's trimming then lower-casing |
| SearchStudents.Hit | src/main/java/cs151/application/SearchStudentsController.java:101-105 | a record is a hit exactly when each of the five prepared filters is empty or occurs in the lower-cased field, a null field missing every set filter |
| SearchStudents.Search | src/main/java/cs151/application/SearchStudentsController.java:99-112 | the loop keeps exactly the hits of the full list, in their order |
| SearchStudents.SearchFinds | src/main/java/cs151/application/SearchStudentsController.java:99-112 | a record is found exactly when it is in the full list and all five filters hit, and results keep the list's order |
| SearchStudents.BlankFieldsFindAll | src/main/java/cs151/application/SearchStudentsController.java:120-126 | blank filters, and the cleared fields, find the whole list |
| SearchStudents.NullFieldMissesFilter | src/main/java/cs151/application/SearchStudentsController.java:115-117 | a record whose name is null is missed by a set name filter |
| SearchStudents.RefreshKeepsWideRows | src/main/java/cs151/application/SearchStudentsController.java:76-83 | exactly the rows with ten or more fields become records, in file order |
| SearchStudents.AddComment | src/main/java/cs151/application/SearchStudentsController.java:160-169 | a comment empty after trimming changes nothing; otherwise the dated comment replaces a null or blank one and follows any other after the separator |
| SearchStudents.SearchCommentShows | src/main/java/cs151/application/SearchStudentsController.java:160-169 | when the date and the comment are single lines, the comments screen shows the old entries followed by the dated comment |
| StudentComments.LoadComments | src/main/java/cs151/application/StudentCommentsController.java:32-40 | a null or blank log shows nothing; every shown entry is the trim of a non-blank line of the log and is already trimmed |
| StudentComments.KeptShowsEvery | src/main/java/cs151/application/StudentCommentsController.java:35-40 | every non-blank line of the log is shown, trimmed |
| StudentComments.KeptConcat | src/main/java/cs151/application/StudentCommentsController.java:36-40 | entries are shown in log order: the lines of a concatenation show as the concatenation |
| StudentComments.KeptTrimmed | src/main/java/cs151/application/StudentCommentsController.java:38 | every shown entry equals its own trim |
| StudentComments.AddComment | src/main/java/cs151/application/StudentCommentsController.java:48-67 | a comment empty after trimming is refused; otherwise the stored log is "[", the date, "] " and the trimmed comment, preceded by the old log and the separator unless the old log is null or blank |
| StudentComments.AppendEntry | src/main/java/cs151/application/StudentCommentsController.java:61-67 | a null or blank log is replaced by the entry; otherwise the old log is a prefix, followed by the separator and then the entry |
| StudentComments.FormatEntry | src/main/java/cs151/application/StudentCommentsController.java:58-59 | the entry is an opening bracket, the date, a closing bracket and a space, then the text |
| StudentComments.LoadAfterAdd | src/main/java/cs151/application/StudentCommentsController.java:35-67 | adding a single-line comment shows the old entries followed by the new formatted entry |
| StudentComments.LoadAfterAppend | src/main/java/cs151/application/StudentCommentsController.java:61-67 | appending a trimmed non-blank single line shows it last, after the unchanged old entries |
| StudentComments.SplitWithTerminator | src/main/java/cs151/application/StudentCommentsController.java:35 | a trailing separator adds at most one empty line to the split |
| DefineLanguages.OnAdd | src/main/java/cs151/application/DefineLanguagesController.java:48-71 | a null name or one empty after trimming is refused, and so is an already-known name; otherwise the trimmed name joins the items, its lower-case form joins `canonical`, and the list is sorted case-insensitively |
| DefineLanguages.OnAddValid | src/main/java/cs151/application/DefineLanguagesController.java:61-69 | a successful add keeps `canonical` equal to the lower-cased items, with no two items sharing a lower-case form |
| DefineLanguages.OnDelete | src/main/java/cs151/application/DefineLanguagesController.java:140-161 | no selection changes nothing; otherwise the first equal item is removed, the others keep their order, its lower-case form leaves `canonical`, and the file is rewritten |
| DefineLanguages.OnDeleteValid | src/main/java/cs151/application/DefineLanguagesController.java:151-152 | deleting a listed item keeps the list invariant and the case-insensitive order |
| DefineLanguages.RemoveAtFacts | src/main/java/cs151/application/DefineLanguagesController.java:151-152 | removing one item removes exactly its lower-case form from the keys and keeps the rest distinct and sorted |
| DefineLanguages.Distinct | src/main/java/cs151/application/DefineLanguagesController.java:98 | the distinct stream holds every element of the input and no duplicates |
| DefineLanguages.SavedNamesFacts | src/main/java/cs151/application/DefineLanguagesController.java:96-101 | the saved names are strictly increasing in natural String order and are exactly the items |
| DefineLanguages.SaveToCsv | src/main/java/cs151/application/DefineLanguagesController.java:91-103 | the saved file starts with "Name" and, with a line separator and single-line items, reads as the line "Name" followed by the saved names, one per line |
| DefineLanguages.LoadIfPresent | src/main/java/cs151/application/DefineLanguagesController.java:105-122 | a missing file changes nothing; otherwise the list ends sorted case-insensitively and `canonical` gains the lower-cased trim of every line after the header whose trim is non-empty |
| DefineLanguages.LoadIfPresentValid | src/main/java/cs151/application/DefineLanguagesController.java:109-115 | loading keeps the list invariant |
| DefineLanguages.LoadFirstWins | src/main/java/cs151/application/DefineLanguagesController.java:109-115 | among lines differing only in case, the first one is the one listed |
| DefineLanguages.AddLoadedPrefix | src/main/java/cs151/application/DefineLanguagesController.java:109-115 | loading only appends: the items held before loading stay in front, unchanged |
| DefineLanguages.LineKeysMember | src/main/java/cs151/application/DefineLanguagesController.java:110-113 | a key comes from the lines exactly when some line whose trim is non-empty trims and lower-cases to it |
| DefineLanguages.SaveThenLoad | src/main/java/cs151/application/DefineLanguagesController.java:91-122 | saving a valid sorted list of trimmed names and loading the file into an empty screen gives back the same list |
| Ordering.CompareTo | src/main/java/cs151/application/DefineLanguagesController.java:98 | natural String order returns zero exactly for equal strings |
| Ordering.CompareToAntisym | src/main/java/cs151/application/DefineLanguagesController.java:98 | swapping the arguments negates the comparison |
| Ordering.CompareIgnoreCase | src/main/java/cs151/application/DefineLanguagesController.java:69 | the case-insensitive comparison, walking the strings pair by pair and comparing differing characters upper-cased then lower-cased, returns zero exactly when the lower-cased strings are equal |
| Ordering.SortBy | src/main/java/cs151/application/DefineLanguagesController.java:69 | the sort is a permutation of the input, of the same length, ordered by the key |
| Ordering.IgnoreCaseOrder | src/main/java/cs151/application/DefineLanguagesController.java:69 | the character-by-character case-insensitive comparison equals natural order on the lower-cased strings, so sorting by the lower-cased key is sorting by the case-insensitive order |
| Ordering.SortedUnique | src/main/java/cs151/application/DefineLanguagesController.java:98 | two sorted permutations of a list with distinct keys are equal |
| JavaText.Trim | src/main/java/cs151/application/DefineLanguagesController.java:51 | the result is a contiguous slice of the input with only trimmable characters cut at either end, and neither end is trimmable |
| JavaText.TrimIdempotent | src/main/java/cs151/application/DefineLanguagesController.java:110 | trimming a trimmed string changes nothing |
| JavaText.TrimLower | src/main/java/cs151/application/ViewStudentsController.java:133 | trimming and ASCII lower-casing commute |
| JavaText.Contains | src/main/java/cs151/application/ViewStudentsController.java:134 | substring search holds exactly when the needle occurs at some position |
| JavaText.IsBlank | src/main/java/cs151/application/StudentCommentsController.java:33 | a string is blank exactly when every character is whitespace in the sense of Character.isWhitespace: U+0009 to U+000D, U+001C to U+0020 and the Unicode space, line and paragraph separators other than the no-break spaces; U+0085 is not whitespace |
| JavaText.ToLower | src/main/java/cs151/application/SearchStudentsController.java:92-96 | lower-casing keeps the length and folds each character on its own, A to Z becoming a to z and every other character unchanged |
| JavaText.BlankConcat | src/main/java/cs151/application/StudentCommentsController.java:33 | a concatenation is blank exactly when both parts are |

## Left out

- File-system I/O (`Files`, readers and writers, `createDirectories`, the `user.home` path): files are text values, and every operation maps the old file to the new one.
- I/O exceptions and the non-atomic truncate-then-write: every write is modelled as succeeding.
- JavaFX: widgets, alerts, dialogs, scene navigation and cell factories. `FilteredList` becomes a filter over a sequence. The table's `SortedList` view order is left out.
- `MainController`, `AppFiles`, `EditStudentController` and `DefineStudentsController`: navigation and form-to-record glue with no storage logic.
- The ten-argument `Student` constructor, `getFacultyComment`, `setFacultyComment`, `getWhiteListed`, `getBlackListed`, `StudentStorage.toYesNo` and `StudentStorage.updateStudent`: the application calls them, but their definitions are not part of this model. The ten-field record is `StudentRecord.Profile`, a plain positional record. `toYesNo` is a function parameter, and nothing is assumed about it. Updating the stored record after a comment is added is not modelled.
- `persistAll`: it only assembles rows for `writeAllRows`, which is modelled.
- `deleteSelected` of the view and search screens: both take the single selected record and call `deleteStudent`, which is `StudentStorage.DeleteStudent`; the confirmation dialog is JavaFX and left out.
- `LocalDate.now()` and `System.lineSeparator()`: both are parameters. The separator is LF or CR LF where a lemma needs to know it.
- `JavaText.ToLower`: models ASCII case folding only, not the locale-dependent full Unicode `toLowerCase`.
- `Ordering.CompareIgnoreCase`: folds ASCII letters only (`JavaText.UpperChar`, `JavaText.LowerChar`), while Java's comparator folds every letter through `Character.toUpperCase` and `Character.toLowerCase`.
- `Ordering.CompareTo`: orders strings by `char` value. This agrees with Java's UTF-16 order only for characters in the Basic Multilingual Plane.
- `SearchStudents.SearchCommentShows` and `StudentComments.LoadAfterAdd`: these require the date and comment to hold no line break. A multi-line comment shows as several entries, which the lemmas do not describe.
- `StudentStorage.ReadAfterWrite`: requires that no field holds a line break. `StudentStorage.MultiLineFieldSplits` shows what happens otherwise.
- The table screens only load rows of at least ten fields. The definition screen appends seven-field rows (`DefineStudentsController.java:54`); `ViewStudents.SevenFieldRowNotLoaded` assumes exactly that width and shows such rows never appear there. The definition screen itself is not part of this model.

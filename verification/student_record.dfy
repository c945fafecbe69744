/** The student profile shapes. `Student` is the seven-field record of
    Student.java, in the column order of the storage header. `Profile` is
    the ten-field record the table screens construct; its constructor and
    its last three getters are not part of this model, so it is a plain
    positional record with no behaviour attached. */
module StudentRecord {
  import opened JavaText
  import opened Seqs

  /** Student.java: seven read-only string properties, no setters. */
  datatype Student = Student(
    fullName: JString,
    academicStatus: JString,
    employed: JString,
    jobDetails: JString,
    programmingLanguages: JString,
    databases: JString,
    preferredRole: JString)

  /** The header columns of the storage file, in row order. */
  const ColumnNames: seq<string> :=
    ["FullName", "AcademicStatus", "Employed", "JobDetails",
     "ProgrammingLanguages", "Databases", "PreferredRole"]

  /** The row a student occupies: its getters in header order. */
  function ToRow(s: Student): (r: seq<JString>)
    ensures |r| == |ColumnNames|
    ensures FromRow(r) == s
  {
    [s.fullName, s.academicStatus, s.employed, s.jobDetails,
     s.programmingLanguages, s.databases, s.preferredRole]
  }

  /** `new Student(r[0], ..., r[6])`: each getter returns the constructor
      argument at its position. */
  function FromRow(r: seq<JString>): Student
    requires |r| == |ColumnNames|
  {
    Student(r[0], r[1], r[2], r[3], r[4], r[5], r[6])
  }

  /** Construction followed by reading the getters in header order gives
      back the constructor arguments. */
  lemma RowOfConstructed(r: seq<JString>)
    requires |r| == |ColumnNames|
    ensures ToRow(FromRow(r)) == r
  {
  }

  /** The ten-field record the table screens build from a stored row. */
  datatype Profile = Profile(
    fullName: JString,
    academicStatus: JString,
    employed: JString,
    jobDetails: JString,
    programmingLanguages: JString,
    databases: JString,
    preferredRole: JString,
    facultyComment: JString,
    whiteListed: JString,
    blackListed: JString)

  /** The record a table screen builds from a stored row of at least ten
      fields: the first eight verbatim, the last two through the storage's
      yes/no conversion, whose definition is not part of this model. */
  function ProfileOfRow(row: seq<string>, toYesNo: string -> JString): (p: Profile)
    requires |row| >= 10
    ensures p.fullName == Str(row[0]) && p.facultyComment == Str(row[7])
  {
    Profile(Str(row[0]), Str(row[1]), Str(row[2]), Str(row[3]), Str(row[4]),
            Str(row[5]), Str(row[6]), Str(row[7]), toYesNo(row[8]), toYesNo(row[9]))
  }

  /** loadStudents / refreshList: one record per stored row that has at
      least ten fields, in file order; shorter rows are skipped. */
  function LoadProfiles(rows: seq<seq<string>>, toYesNo: string -> JString): (r: seq<Profile>)
    ensures |r| <= |rows|
    decreases |rows|
  {
    if rows == [] then []
    else
      (if |rows[0]| >= 10 then [ProfileOfRow(rows[0], toYesNo)] else [])
      + LoadProfiles(rows[1..], toYesNo)
  }

  /** Loading commutes with concatenation: file order is kept. */
  lemma {:induction false} LoadProfilesConcat(a: seq<seq<string>>, b: seq<seq<string>>, toYesNo: string -> JString)
    ensures LoadProfiles(a + b, toYesNo) == LoadProfiles(a, toYesNo) + LoadProfiles(b, toYesNo)
    decreases |a|
  {
    if a == [] {
      assert a + b == b;
    } else {
      assert (a + b)[0] == a[0];
      assert (a + b)[1..] == a[1..] + b;
      LoadProfilesConcat(a[1..], b, toYesNo);
      ConcatAssoc(if |a[0]| >= 10 then [ProfileOfRow(a[0], toYesNo)] else [],
                  LoadProfiles(a[1..], toYesNo), LoadProfiles(b, toYesNo));
    }
  }

  /** A record is loaded exactly when some row of ten or more fields
      builds it. */
  lemma {:induction false} LoadProfilesMember(rows: seq<seq<string>>, toYesNo: string -> JString, p: Profile)
    ensures p in LoadProfiles(rows, toYesNo) <==>
      exists j :: 0 <= j < |rows| && |rows[j]| >= 10 && p == ProfileOfRow(rows[j], toYesNo)
    decreases |rows|
  {
    if rows != [] {
      var tail := rows[1..];
      LoadProfilesMember(tail, toYesNo, p);
      if p in LoadProfiles(tail, toYesNo) {
        var j :| 0 <= j < |tail| && |tail[j]| >= 10 && p == ProfileOfRow(tail[j], toYesNo);
        assert rows[j + 1] == tail[j];
      }
      if exists j :: 0 <= j < |rows| && |rows[j]| >= 10 && p == ProfileOfRow(rows[j], toYesNo) {
        var j :| 0 <= j < |rows| && |rows[j]| >= 10 && p == ProfileOfRow(rows[j], toYesNo);
        if j > 0 {
          assert tail[j - 1] == rows[j];
        }
      }
    }
  }
}

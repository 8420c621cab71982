/** The report endpoints: `generateReport` (one student's statistics, or every
    roster student's plus the class average, over a date range), `shareReport`
    and `deleteReport`. Dates are instants in milliseconds, absent when the
    request leaves them out; a missing `reportType` is the empty string. */
module ReportController {
  import opened Util
  import opened Api
  import opened AttendanceModel
  import opened StudentModel
  import opened ClassModel
  import opened ReportGenerator
  import opened ReportModel
  import opened Sorting
  import opened Store
  import AttendanceController

  const FIELDS_REQUIRED: string := "Please provide startDate, endDate and reportType"
  const NO_RECORDS: string := "No attendance records found for the given date range"
  const STUDENT_NOT_FOUND: string := "Student not found"
  const REPORT_NOT_FOUND: string := "Report not found"
  const BAD_CHANNEL: string := "Please provide valid shareVia method (Email, WhatsApp, SMS)"
  /** The text of the schema's validation error; its wording is Mongoose's. */
  const VALIDATION_FAILED: string := "Report validation failed"
  const DEFAULT_CLASS_NAME: string := "Class"

  // ---------------------------------------------------------------------
  // Records of one student
  // ---------------------------------------------------------------------

  /** `records.find(...)`: the first record of student `sid`, if any. */
  function FirstRecord(rs: seq<Record>, sid: Id): (r: Option<Record>)
    ensures r.None? <==> !AttendanceController.Referenced(rs, sid)
    ensures r.Some? ==> r.value in rs && r.value.student == sid
    ensures r.Some? && rs[0].student == sid ==> r.value == rs[0]
  {
    if rs == [] then None
    else if rs[0].student == sid then Some(rs[0])
    else
      assert forall x :: x in rs <==> x == rs[0] || x in rs[1..];
      FirstRecord(rs[1..], sid)
  }

  /** One entry per day document, in the documents' order: the student's
      record that day, or null. */
  function DayEntries(docs: seq<Attendance>, sid: Id): (r: seq<Option<Record>>)
    ensures |r| == |docs|
    ensures forall k :: 0 <= k < |docs| ==> r[k] == FirstRecord(docs[k].records, sid)
  {
    seq(|docs|, k requires 0 <= k < |docs| => FirstRecord(docs[k].records, sid))
  }

  /** The days whose document has a record for the student. */
  function DaysWith(docs: seq<Attendance>, sid: Id): seq<Attendance> {
    Filter(docs, (d: Attendance) => AttendanceController.Referenced(d.records, sid))
  }

  lemma DayEntriesSnoc(docs: seq<Attendance>, sid: Id)
    requires docs != []
    ensures DayEntries(docs, sid) == DayEntries(docs[..|docs| - 1], sid) + [FirstRecord(docs[|docs| - 1].records, sid)]
  {}

  lemma DaysWithSnoc(docs: seq<Attendance>, sid: Id)
    requires docs != []
    ensures |DaysWith(docs, sid)| == |DaysWith(docs[..|docs| - 1], sid)|
              + (if AttendanceController.Referenced(docs[|docs| - 1].records, sid) then 1 else 0)
  {}

  /** The student's statistics count exactly the days that hold a record of
      theirs; the other days are null entries and count nowhere. */
  lemma {:induction false} DayEntriesCountDays(docs: seq<Attendance>, sid: Id)
    ensures |NonNull(DayEntries(docs, sid))| == |DaysWith(docs, sid)|
  {
    if docs != [] {
      var init := docs[..|docs| - 1];
      var e := FirstRecord(docs[|docs| - 1].records, sid);
      DayEntriesCountDays(init, sid);
      DayEntriesSnoc(docs, sid);
      DaysWithSnoc(docs, sid);
      NonNullAppend(DayEntries(init, sid), [e]);
      assert NonNull([e]) == NonNull([]) + (if e.Some? then [e.value] else []) by {
        assert [e][..0] == [];
      }
    }
  }

  // ---------------------------------------------------------------------
  // Roster order
  // ---------------------------------------------------------------------

  /** `String(rollNumber).trim()`. */
  function RollKey(s: Student): string { Trim(s.rollNumber) }

  /** `!isNaN(Number(key))`, read as: the key is a string of decimal digits
      (the empty string included, which `Number` reads as 0). */
  predicate Numeric(key: string) { AllDigits(key) }

  /** `Number(key)` of a numeric key (0 otherwise, where it is not used). */
  function RollValue(s: Student): nat {
    if Numeric(RollKey(s)) then ParseNat(RollKey(s)) else 0
  }

  /** The roster comparator: numerically when both keys are numeric and
      differ, as strings when not both are numeric and they differ, and by
      name otherwise. */
  function CompareStudents(a: Student, b: Student): int {
    var ra, rb := RollKey(a), RollKey(b);
    if Numeric(ra) && Numeric(rb) then
      if RollValue(a) != RollValue(b) then RollValue(a) - RollValue(b) else LexCompare(a.name, b.name)
    else if LexCompare(ra, rb) != 0 then LexCompare(ra, rb)
    else LexCompare(a.name, b.name)
  }

  predicate AllNumeric(xs: set<Student>) { forall s :: s in xs ==> Numeric(RollKey(s)) }
  predicate NoneNumeric(xs: set<Student>) { forall s :: s in xs ==> !Numeric(RollKey(s)) }

  lemma LexEqual(a: string, b: string)
    requires LexCompare(a, b) <= 0 && LexCompare(b, a) <= 0
    ensures a == b
  {
    LexCompareAntisymmetric(a, b);
  }

  /** On a roster whose roll numbers are all numeric, the comparator orders
      by (number, name) and is a total preorder. */
  lemma NumericTotalPreorder(xs: set<Student>)
    requires AllNumeric(xs)
    ensures TotalPreorderOn(xs, CompareStudents)
  {
    forall a, b | a in xs && b in xs ensures CompareStudents(a, b) <= 0 || CompareStudents(b, a) <= 0 {
      LexCompareAntisymmetric(a.name, b.name);
    }
    forall a, b, c | a in xs && b in xs && c in xs && CompareStudents(a, b) <= 0 && CompareStudents(b, c) <= 0
      ensures CompareStudents(a, c) <= 0
    {
      var pa, pb, pc := RollValue(a), RollValue(b), RollValue(c);
      if pa == pb && pb == pc {
        LexCompareTransitive(a.name, b.name, c.name);
      }
    }
  }

  /** On a roster with no numeric roll number, the comparator orders by
      (roll number as a string, name) and is a total preorder. */
  lemma StringTotalPreorder(xs: set<Student>)
    requires NoneNumeric(xs)
    ensures TotalPreorderOn(xs, CompareStudents)
  {
    forall a, b | a in xs && b in xs ensures CompareStudents(a, b) <= 0 || CompareStudents(b, a) <= 0 {
      LexCompareAntisymmetric(a.name, b.name);
      LexCompareAntisymmetric(RollKey(a), RollKey(b));
    }
    forall a, b, c | a in xs && b in xs && c in xs && CompareStudents(a, b) <= 0 && CompareStudents(b, c) <= 0
      ensures CompareStudents(a, c) <= 0
    {
      var ra, rb, rc := RollKey(a), RollKey(b), RollKey(c);
      LexCompareTransitive(ra, rb, rc);
      if ra == rc {
        LexCompareTransitive(rb, rc, ra);
        LexEqual(ra, rb);
        LexCompareTransitive(a.name, b.name, c.name);
      }
    }
  }

  /** The sorted roster of an all-numeric class ascends by roll number, ties
      broken by name, and holds exactly the roster's students. */
  lemma NumericRosterSorted(roster: seq<Student>)
    requires forall s :: s in roster ==> Numeric(RollKey(s))
    ensures multiset(SortBy(roster, CompareStudents)) == multiset(roster)
    ensures var r := SortBy(roster, CompareStudents);
      forall i, j :: 0 <= i < j < |r| ==>
        RollValue(r[i]) < RollValue(r[j])
        || (RollValue(r[i]) == RollValue(r[j]) && LexCompare(r[i].name, r[j].name) <= 0)
  {
    var xs := set s | s in roster;
    NumericTotalPreorder(xs);
    SortBySorted(roster, CompareStudents, xs);
    var r := SortBy(roster, CompareStudents);
    forall i, j | 0 <= i < j < |r|
      ensures RollValue(r[i]) < RollValue(r[j])
        || (RollValue(r[i]) == RollValue(r[j]) && LexCompare(r[i].name, r[j].name) <= 0)
    {
      assert r[i] in multiset(roster) && r[j] in multiset(roster);
      assert CompareStudents(r[i], r[j]) <= 0;
    }
  }

  /** The sorted roster of a class without numeric roll numbers ascends by
      roll number as a string, ties broken by name. */
  lemma StringRosterSorted(roster: seq<Student>)
    requires forall s :: s in roster ==> !Numeric(RollKey(s))
    ensures multiset(SortBy(roster, CompareStudents)) == multiset(roster)
    ensures var r := SortBy(roster, CompareStudents);
      forall i, j :: 0 <= i < j < |r| ==>
        LexCompare(RollKey(r[i]), RollKey(r[j])) < 0
        || (RollKey(r[i]) == RollKey(r[j]) && LexCompare(r[i].name, r[j].name) <= 0)
  {
    var xs := set s | s in roster;
    StringTotalPreorder(xs);
    SortBySorted(roster, CompareStudents, xs);
    var r := SortBy(roster, CompareStudents);
    forall i, j | 0 <= i < j < |r|
      ensures LexCompare(RollKey(r[i]), RollKey(r[j])) < 0
        || (RollKey(r[i]) == RollKey(r[j]) && LexCompare(r[i].name, r[j].name) <= 0)
    {
      assert r[i] in multiset(roster) && r[j] in multiset(roster);
      assert CompareStudents(r[i], r[j]) <= 0;
    }
  }

  /** On a mixed roster the comparator is not transitive: roll numbers "9",
      "10" and "1a" compare in a cycle (9 < 10 as numbers, "10" < "1a" and
      "1a" < "9" as strings), so no order satisfies it. */
  lemma MixedRosterCycle(a: Student, b: Student, c: Student)
    requires a.rollNumber == "9" && b.rollNumber == "10" && c.rollNumber == "1a"
    ensures CompareStudents(a, b) < 0 && CompareStudents(b, c) < 0 && CompareStudents(c, a) < 0
    ensures !TotalPreorderOn({a, b, c}, CompareStudents)
  {
    TrimNoEdgeSpace(a.rollNumber);
    TrimNoEdgeSpace(b.rollNumber);
    TrimNoEdgeSpace(c.rollNumber);
    assert ParseNat("9") == 9;
    assert ParseNat("1") == 1;
    assert ParseNat("10") == 10;
    assert !Numeric(RollKey(c));
    assert LexCompare("1a", "9") == -1;
    assert LexCompare("0", "a") == -1;
    assert LexCompare("10", "1a") == -1 by {
      assert "10"[1..] == "0" && "1a"[1..] == "a";
    }
  }

  // ---------------------------------------------------------------------
  // The class report
  // ---------------------------------------------------------------------

  /** One value of `studentReports`. */
  function EntryFor(s: Student, docs: seq<Attendance>): StudentEntry {
    StudentEntry(s.id, Aggregate(Some(DayEntries(docs, s.id))), s.name, s.rollNumber)
  }

  function ClassEntries(students: seq<Student>, docs: seq<Attendance>): (r: seq<StudentEntry>)
    ensures |r| == |students|
    ensures forall k :: 0 <= k < |r| ==> r[k] == EntryFor(students[k], docs)
  {
    seq(|students|, k requires 0 <= k < |students| => EntryFor(students[k], docs))
  }

  /** One student's entry: the statistics of their record-or-null per day,
      with their name and roll number. */
  method StudentReport(s: Student, docs: seq<Attendance>) returns (entry: StudentEntry)
    ensures entry == EntryFor(s, docs)
  {
    var stats := GenerateAttendanceReport(Some(DayEntries(docs, s.id)));
    entry := StudentEntry(s.id, stats, s.name, s.rollNumber);
  }

  /** The `forEach` that fills `studentReports`, one student at a time. */
  method BuildStudentReports(students: seq<Student>, docs: seq<Attendance>) returns (entries: seq<StudentEntry>)
    ensures entries == ClassEntries(students, docs)
  {
    entries := [];
    for i := 0 to |students|
      invariant |entries| == i
      invariant forall k :: 0 <= k < i ==> entries[k] == EntryFor(students[k], docs)
    {
      var entry := StudentReport(students[i], docs);
      entries := entries + [entry];
    }
  }

  /** The sum of the entries' percentages (hundredths). */
  function SumPercent(es: seq<StudentEntry>): nat {
    if es == [] then 0 else SumPercent(es[..|es| - 1]) + es[|es| - 1].stats.attendancePercentage
  }

  lemma {:induction false} SumPercentBound(es: seq<StudentEntry>)
    requires forall e :: e in es ==> e.stats.attendancePercentage <= 10000
    ensures SumPercent(es) <= 10000 * |es|
  {
    if es != [] {
      assert es[|es| - 1] in es;
      SumPercentBound(es[..|es| - 1]);
    }
  }

  /** The class average: the rounded mean of the per-student percentages, 0
      with no students. */
  function ClassAverage(es: seq<StudentEntry>): (avg: nat)
    ensures es == [] ==> avg == 0
    ensures es != [] ==> (2 * avg - 1) * |es| <= 2 * SumPercent(es) < (2 * avg + 1) * |es|
  {
    if es == [] then 0
    else
      var r := RoundDiv(SumPercent(es), |es|);
      MulCancelLess(0, 2 * r + 1, |es|);
      r
  }

  /** The mean of percentages within [0, 100] lies within [0, 100]. */
  lemma ClassAverageBounded(es: seq<StudentEntry>)
    requires forall e :: e in es ==> e.stats.attendancePercentage <= 10000
    ensures ClassAverage(es) <= 10000
  {
    if es != [] {
      SumPercentBound(es);
      RoundDivBounds(SumPercent(es), |es|, 0, 10000);
    }
  }

  /** 100%, 50% and 0% average to 50%. */
  lemma ClassAverageExample(a: StudentEntry, b: StudentEntry, c: StudentEntry)
    requires a.stats.attendancePercentage == 10000 && b.stats.attendancePercentage == 5000
    requires c.stats.attendancePercentage == 0
    ensures ClassAverage([a, b, c]) == 5000
  {
    var es := [a, b, c];
    assert es[..2] == [a, b] && [a, b][..1] == [a] && [a][..0] == [];
    assert SumPercent([a]) == 10000;
    assert SumPercent([a, b]) == 15000;
    assert SumPercent(es) == 15000;
  }

  /** Entries built over a reordering of the roster are exactly the
      roster's entries. */
  lemma EntriesOfReordering(roster: seq<Student>, sorted: seq<Student>, docs: seq<Attendance>)
    requires multiset(sorted) == multiset(roster)
    ensures forall s :: s in roster ==> EntryFor(s, docs) in ClassEntries(sorted, docs)
    ensures forall e :: e in ClassEntries(sorted, docs) ==> exists s :: s in roster && e == EntryFor(s, docs)
  {
    var es := ClassEntries(sorted, docs);
    forall s | s in roster ensures EntryFor(s, docs) in es {
      assert s in multiset(sorted);
      var k :| 0 <= k < |sorted| && sorted[k] == s;
      assert es[k] == EntryFor(s, docs);
    }
    forall e | e in es ensures exists s :: s in roster && e == EntryFor(s, docs) {
      var k :| 0 <= k < |es| && es[k] == e;
      assert sorted[k] in multiset(roster);
    }
  }

  /** Every entry's percentage lies within [0, 100]. */
  lemma EntriesBounded(students: seq<Student>, docs: seq<Attendance>)
    ensures forall e :: e in ClassEntries(students, docs) ==> e.stats.attendancePercentage <= 10000
  {
    var es := ClassEntries(students, docs);
    forall e | e in es ensures e.stats.attendancePercentage <= 10000 {
      var k :| 0 <= k < |es| && es[k] == e;
      AggregateBounds(Some(DayEntries(docs, students[k].id)));
    }
  }

  /** The class report has one entry per roster student (each student's own
      statistics, name and roll number), a student count equal to the roster
      size and an average within [0, 100]. */
  lemma ClassReportCovers(roster: seq<Student>, docs: seq<Attendance>)
    ensures var es := ClassEntries(SortBy(roster, CompareStudents), docs);
      && |es| == |roster|
      && (forall s :: s in roster ==> EntryFor(s, docs) in es)
      && (forall e :: e in es ==> exists s :: s in roster && e == EntryFor(s, docs))
      && ClassAverage(es) <= 10000
  {
    var sorted := SortBy(roster, CompareStudents);
    assert |sorted| == |multiset(sorted)| == |multiset(roster)| == |roster|;
    EntriesOfReordering(roster, sorted, docs);
    EntriesBounded(sorted, docs);
    ClassAverageBounded(ClassEntries(sorted, docs));
  }

  // ---------------------------------------------------------------------
  // The report body
  // ---------------------------------------------------------------------

  /** `classInfo`: the class's name (or "Class"), its code (or its id when
      the code is empty, or "" with no class) and the requester's name. */
  function ClassInfoOf(c: Option<ClassDoc>, teacherName: string): (r: ClassInfo)
    ensures c.None? ==> r.className == DEFAULT_CLASS_NAME && r.classCode == []
    ensures c.Some? && c.value.className != [] ==> r.className == c.value.className
    ensures c.Some? && c.value.classCode != [] ==> r.classCode == c.value.classCode
    ensures r.teacherName == teacherName
  {
    match c
    case None => ClassInfo(DEFAULT_CLASS_NAME, "", teacherName)
    case Some(cd) =>
      ClassInfo(if cd.className != [] then cd.className else DEFAULT_CLASS_NAME,
                if cd.classCode != [] then cd.classCode else NatToString(cd.id),
                teacherName)
  }

  function ClassOf(cs: seq<ClassDoc>, id: Id): Option<ClassDoc> {
    match FindClass(cs, id)
    case None => None
    case Some(k) => Some(cs[k])
  }

  /** The class's documents in the range, in stored order. */
  function RangeDocs(docs: seq<Attendance>, classId: Id, start: int, end: int): (r: seq<Attendance>)
    ensures forall d :: d in r <==> d in docs && AttendanceController.InRange(d, classId, start, end)
  {
    Filter(docs, (d: Attendance) => AttendanceController.InRange(d, classId, start, end))
  }

  /** What `generateReport` computes before it stores anything: no documents
      in the range is 404 (checked before the student); "Individual" with a
      student id is that student's report (404 when the student is unknown);
      everything else is the class report over the sorted roster. */
  function ReportBody(classes: seq<ClassDoc>, students: seq<Student>, docs: seq<Attendance>, classId: Id,
                      reportType: string, studentId: Option<Id>, teacherName: string): Result<ReportData>
  {
    var info := ClassInfoOf(ClassOf(classes, classId), teacherName);
    if docs == [] then Err(NotFound(NO_RECORDS))
    else if reportType == "Individual" && studentId.Some? then
      match FindStudent(students, studentId.value)
      case None => Err(NotFound(STUDENT_NOT_FOUND))
      case Some(k) =>
        var s := students[k];
        Ok(IndividualData(Aggregate(Some(DayEntries(docs, s.id))),
                          StudentDetails(s.name, s.rollNumber, s.email), info))
    else
      var es := ClassEntries(SortBy(Roster(students, classId), CompareStudents), docs);
      Ok(ClassData(|Roster(students, classId)|, es, ClassAverage(es), info))
  }

  /** An empty range is refused whatever the other inputs. */
  lemma NoDocumentsNoReport(classes: seq<ClassDoc>, students: seq<Student>, classId: Id,
                            reportType: string, studentId: Option<Id>, teacherName: string)
    ensures ReportBody(classes, students, [], classId, reportType, studentId, teacherName) == Err(NotFound(NO_RECORDS))
  {}

  /** The individual report's statistics count the days in range that hold a
      record of the student, and its percentage lies in [0, 100]. */
  lemma IndividualReportDays(classes: seq<ClassDoc>, students: seq<Student>, docs: seq<Attendance>, classId: Id,
                             sid: Id, teacherName: string)
    requires docs != [] && HasStudent(students, sid)
    ensures var r := ReportBody(classes, students, docs, classId, "Individual", Some(sid), teacherName);
      && r.Ok? && r.value.IndividualData?
      && r.value.stats.totalDays == |DaysWith(docs, sid)|
      && r.value.stats.attendancePercentage <= 10000
  {
    FindStudentHas(students, sid);
    DayEntriesCountDays(docs, sid);
    AggregateBounds(Some(DayEntries(docs, sid)));
  }

  /** The side-effect-free part of `generateReport`, computed as the source
      does: the statistics loop per student and the roster loop. */
  method ComputeReportBody(classes: seq<ClassDoc>, students: seq<Student>, docs: seq<Attendance>, classId: Id,
                           reportType: string, studentId: Option<Id>, teacherName: string)
    returns (r: Result<ReportData>)
    ensures r == ReportBody(classes, students, docs, classId, reportType, studentId, teacherName)
  {
    var info := ClassInfoOf(ClassOf(classes, classId), teacherName);
    if docs == [] {
      return Err(NotFound(NO_RECORDS));
    }
    if reportType == "Individual" && studentId.Some? {
      var found := FindStudent(students, studentId.value);
      if found.None? {
        return Err(NotFound(STUDENT_NOT_FOUND));
      }
      var s := students[found.value];
      var stats := GenerateAttendanceReport(Some(DayEntries(docs, s.id)));
      return Ok(IndividualData(stats, StudentDetails(s.name, s.rollNumber, s.email), info));
    }
    var roster := Roster(students, classId);
    var sorted := SortBy(roster, CompareStudents);
    var entries := BuildStudentReports(sorted, docs);
    return Ok(ClassData(|roster|, entries, ClassAverage(entries), info));
  }

  /** The `student` field of the stored report. */
  function ReportStudent(reportType: string, studentId: Option<Id>): Option<Id> {
    if reportType == "Individual" then studentId else None
  }

  /** `Report.create`'s write: the report is stored under the next id. */
  method InsertReport(db: Database, rep: Report)
    requires db.Valid() && rep.id == db.nextId && ReportValid(rep)
    modifies db
    ensures db.Valid()
    ensures db.classes == old(db.classes) && db.students == old(db.students) && db.attendances == old(db.attendances)
    ensures db.reports == old(db.reports) + [rep] && db.nextId == old(db.nextId) + 1
  {
    InsertReportValid(db.reports, db.nextId, rep);
    RaiseNextId(db.classes, db.students, db.attendances, db.reports, db.nextId, db.nextId + 1);
    db.reports, db.nextId := db.reports + [rep], db.nextId + 1;
  }

  /** `generateReport`. Missing inputs: 400. A 404 from the body: nothing
      stored. A `reportType` outside the enum fails `Report.create` (500).
      Otherwise the report is stored under the next id, dated from the first
      day's start to the last day's end, and answered. */
  method GenerateReport(db: Database, classId: Id, startDate: Option<int>, endDate: Option<int>,
                        reportType: string, studentId: Option<Id>, user: Id, teacherName: string)
    returns (r: Result<Report>)
    requires db.Valid()
    modifies db
    ensures db.Valid()
    ensures db.classes == old(db.classes) && db.students == old(db.students) && db.attendances == old(db.attendances)
    ensures startDate.None? || endDate.None? || reportType == [] ==>
      r == Err(BadRequest(FIELDS_REQUIRED)) && unchanged(db)
    ensures startDate.Some? && endDate.Some? && reportType != [] ==>
      var s, e := startDate.value, endDate.value;
      var body := ReportBody(db.classes, db.students, RangeDocs(db.attendances, classId, s, e), classId,
                             reportType, studentId, teacherName);
      && (body.Err? ==> r == Err(body.error) && unchanged(db))
      && (body.Ok? ==>
            var rep := CreateReport(old(db.nextId), reportType, classId, ReportStudent(reportType, studentId),
                                    StartOfDay(s), EndOfDay(e), body.value, user);
            && (rep.None? ==> r == Err(ServerError(VALIDATION_FAILED)) && unchanged(db))
            && (rep.Some? ==> r == Ok(rep.value) && db.reports == old(db.reports) + [rep.value]
                              && db.nextId == old(db.nextId) + 1))
  {
    if startDate.None? || endDate.None? || reportType == [] {
      return Err(BadRequest(FIELDS_REQUIRED));
    }
    var s, e := startDate.value, endDate.value;
    var docs := RangeDocs(db.attendances, classId, s, e);
    var body := ComputeReportBody(db.classes, db.students, docs, classId, reportType, studentId, teacherName);
    if body.Err? {
      return Err(body.error);
    }
    var rep := CreateReport(db.nextId, reportType, classId, ReportStudent(reportType, studentId),
                            StartOfDay(s), EndOfDay(e), body.value, user);
    if rep.None? {
      return Err(ServerError(VALIDATION_FAILED));
    }
    InsertReport(db, rep.value);
    return Ok(rep.value);
  }

  /** `shareReport`: a channel outside Email/WhatsApp/SMS is 400 and an
      unknown report 404, both with nothing changed; otherwise the report is
      marked shared over that channel at `now` and answered. */
  method ShareReport(db: Database, reportId: Id, shareVia: string, now: int) returns (r: Result<Report>)
    requires db.Valid()
    modifies db
    ensures db.Valid()
    ensures db.classes == old(db.classes) && db.students == old(db.students)
    ensures db.attendances == old(db.attendances) && db.nextId == old(db.nextId)
    ensures ParseChannel(shareVia).None? ==> r == Err(BadRequest(BAD_CHANNEL)) && unchanged(db)
    ensures ParseChannel(shareVia).Some? && FindReport(old(db.reports), reportId).None? ==>
      r == Err(NotFound(REPORT_NOT_FOUND)) && unchanged(db)
    ensures ParseChannel(shareVia).Some? && FindReport(old(db.reports), reportId).Some? ==>
      var via := ParseChannel(shareVia).value;
      && db.reports == ShareById(old(db.reports), reportId, via, now)
      && r.Ok? && r.value in db.reports && r.value.id == reportId
      && r.value.isShared && r.value.shareVia == Some(via) && r.value.sharedAt == Some(now)
  {
    var via := ParseChannel(shareVia);
    if via.None? {
      return Err(BadRequest(BAD_CHANNEL));
    }
    var found := FindReport(db.reports, reportId);
    if found.None? {
      return Err(NotFound(REPORT_NOT_FOUND));
    }
    ShareByIdValid(db.reports, db.nextId, reportId, via.value, now);
    db.reports := ShareById(db.reports, reportId, via.value, now);
    return Ok(db.reports[found.value]);
  }

  /** `deleteReport`: an unknown report is 404 with nothing changed;
      otherwise the report is removed and nothing else changes. */
  method DeleteReport(db: Database, reportId: Id) returns (r: Result<()>)
    requires db.Valid()
    modifies db
    ensures db.Valid()
    ensures db.classes == old(db.classes) && db.students == old(db.students)
    ensures db.attendances == old(db.attendances) && db.nextId == old(db.nextId)
    ensures FindReport(old(db.reports), reportId).None? <==> r == Err(NotFound(REPORT_NOT_FOUND))
    ensures FindReport(old(db.reports), reportId).None? ==> unchanged(db)
    ensures FindReport(old(db.reports), reportId).Some? ==> r == Ok(()) && db.reports == DeleteById(old(db.reports), reportId)
  {
    var found := FindReport(db.reports, reportId);
    if found.None? {
      return Err(NotFound(REPORT_NOT_FOUND));
    }
    DeleteByIdValid(db.reports, db.nextId, reportId);
    db.reports := DeleteById(db.reports, reportId);
    return Ok(());
  }
}

/** The attendance endpoints: reading a class's day (created lazily with every
    roster student Present, otherwise reconciled with the current roster and
    saved, locked or not), saving a day's records behind the lock gate,
    locking a day, and listing a date range. A `date` query or body value is
    an instant in milliseconds, absent when the request leaves it out. */
module AttendanceController {
  import opened Util
  import opened Api
  import opened AttendanceModel
  import opened StudentModel
  import opened Sorting
  import opened Store

  const DATE_REQUIRED: string := "Date required"
  const DATE_AND_RECORDS_REQUIRED: string := "Please provide date and records"
  const LOCKED: string := "Attendance is locked and cannot be modified"
  const DATE_MISSING: string := "Please provide a date"
  const NOT_FOUND: string := "Attendance not found"
  const RANGE_REQUIRED: string := "Please provide startDate and endDate"
  /** The text of the schema's validation error; its wording is Mongoose's. */
  const VALIDATION_FAILED: string := "Attendance validation failed"

  /** The record the endpoint writes for a student it adds: Present, no remarks. */
  function PresentRecord(s: Student): (r: Record)
    ensures RecordValid(r) && r.student == s.id && r.status == PRESENT && r.remarks == []
  {
    Record(s.id, PRESENT, "")
  }

  /** Some record refers to student `id`. */
  predicate Referenced(records: seq<Record>, id: Id) {
    exists r :: r in records && r.student == id
  }

  /** One Present record per student, in roster order. */
  function DefaultRecords(roster: seq<Student>): (r: seq<Record>)
    ensures |r| == |roster|
    ensures forall k :: 0 <= k < |r| ==> r[k] == PresentRecord(roster[k])
  {
    seq(|roster|, k requires 0 <= k < |roster| => PresentRecord(roster[k]))
  }

  /** The default records are valid Present records covering the roster. */
  lemma DefaultRecordsCover(roster: seq<Student>)
    ensures forall x :: x in DefaultRecords(roster) ==> RecordValid(x) && x.status == PRESENT && x.remarks == []
    ensures forall s :: s in roster ==> Referenced(DefaultRecords(roster), s.id)
  {
    var r := DefaultRecords(roster);
    forall s | s in roster ensures Referenced(r, s.id) {
      var k :| 0 <= k < |roster| && roster[k] == s;
      assert r[k] in r;
    }
    forall x | x in r ensures RecordValid(x) && x.status == PRESENT && x.remarks == [] {
      var k :| 0 <= k < |r| && r[k] == x;
      assert x == PresentRecord(roster[k]);
    }
  }

  lemma DefaultRecordsAppend(a: seq<Student>, b: seq<Student>)
    ensures DefaultRecords(a + b) == DefaultRecords(a) + DefaultRecords(b)
  {}

  /** The roster students no record refers to, in roster order. */
  function MissingStudents(records: seq<Record>, roster: seq<Student>): (r: seq<Student>)
    ensures forall s :: s in r <==> s in roster && !Referenced(records, s.id)
  {
    Filter(roster, (s: Student) => !Referenced(records, s.id))
  }

  /** The records whose student still exists: a populated reference to a
      deleted student is null, and those records are dropped. */
  function Prune(records: seq<Record>, students: seq<Student>): (r: seq<Record>)
    ensures forall x :: x in r <==> x in records && HasStudent(students, x.student)
  {
    Filter(records, (x: Record) => HasStudent(students, x.student))
  }

  /** An existing day as `getAttendance` saves it: Present records for the
      missing roster students are pushed, then the dangling records dropped. */
  function Reconcile(records: seq<Record>, roster: seq<Student>, students: seq<Student>): seq<Record> {
    Prune(records + DefaultRecords(MissingStudents(records, roster)), students)
  }

  /** The roster is a part of the stored students. */
  predicate Within(roster: seq<Student>, students: seq<Student>) {
    forall s :: s in roster ==> s in students
  }

  /** Reconciling keeps the surviving records in their order and appends one
      Present record per missing roster student, in roster order. */
  lemma ReconcileSplit(records: seq<Record>, roster: seq<Student>, students: seq<Student>)
    requires Within(roster, students)
    ensures Reconcile(records, roster, students)
         == Prune(records, students) + DefaultRecords(MissingStudents(records, roster))
  {
    var missing := MissingStudents(records, roster);
    var added := DefaultRecords(missing);
    var p := (x: Record) => HasStudent(students, x.student);
    FilterAppend(records, added, p);
    forall x | x in added ensures p(x) {
      var k :| 0 <= k < |added| && added[k] == x;
      var s := missing[k];
      assert s in roster && x.student == s.id;
      assert s in students;
    }
    FilterKeepsAll(added, p);
  }

  /** Every roster student has a record afterwards. */
  lemma ReconcileCovers(records: seq<Record>, roster: seq<Student>, students: seq<Student>, s: Student)
    requires Within(roster, students) && s in roster
    ensures Referenced(Reconcile(records, roster, students), s.id)
  {
    ReconcileSplit(records, roster, students);
    var missing := MissingStudents(records, roster);
    if s in missing {
      DefaultRecordsCover(missing);
    } else {
      var x :| x in records && x.student == s.id;
      assert x in Prune(records, students);
    }
  }

  /** No record of a deleted student survives, and a record is dropped only
      when its student was deleted. */
  lemma ReconcilePrunes(records: seq<Record>, roster: seq<Student>, students: seq<Student>)
    requires Within(roster, students)
    ensures forall x :: x in Reconcile(records, roster, students) ==> HasStudent(students, x.student)
    ensures forall x :: x in records ==> (x in Reconcile(records, roster, students) <==> HasStudent(students, x.student))
  {
    ReconcileSplit(records, roster, students);
  }

  /** An unchanged roster makes a second reconciliation a no-op. */
  lemma ReconcileIdempotent(records: seq<Record>, roster: seq<Student>, students: seq<Student>)
    requires Within(roster, students)
    ensures Reconcile(Reconcile(records, roster, students), roster, students) == Reconcile(records, roster, students)
  {
    var once := Reconcile(records, roster, students);
    ReconcileSplit(once, roster, students);
    ReconcilePrunes(records, roster, students);
    FilterKeepsAll(once, (x: Record) => HasStudent(students, x.student));
    var missing := MissingStudents(once, roster);
    forall s | s in roster ensures Referenced(once, s.id) {
      ReconcileCovers(records, roster, students, s);
    }
    assert once + [] == once;
  }

  /** With nothing to start from, reconciling yields exactly the records a
      freshly created day gets. */
  lemma ReconcileCreates(roster: seq<Student>, students: seq<Student>)
    requires Within(roster, students)
    ensures Reconcile([], roster, students) == DefaultRecords(roster)
  {
    ReconcileSplit([], roster, students);
    FilterKeepsAll(roster, (s: Student) => !Referenced([], s.id));
  }

  /** `findOneAndUpdate(..., { isLocked: true })` on document `k`. */
  function LockDay(docs: seq<Attendance>, k: nat): (r: seq<Attendance>)
    requires k < |docs|
    ensures |r| == |docs| && r[k].isLocked
    ensures r[k] == docs[k].(isLocked := true)
    ensures forall j :: 0 <= j < |docs| && j != k ==> r[j] == docs[j]
  {
    docs[k := docs[k].(isLocked := true)]
  }

  /** Locking twice is locking once, and the day lookup still finds the document. */
  lemma LockDayIdempotent(docs: seq<Attendance>, k: nat, classId: Id, t: int)
    requires k < |docs|
    ensures LockDay(LockDay(docs, k), k) == LockDay(docs, k)
    ensures FindDay(LockDay(docs, k), classId, t) == FindDay(docs, classId, t)
  {
    FindDaySameKeys(docs, k, docs[k].(isLocked := true), classId, t);
  }

  /** After a day is created, looking the same day up again finds it. */
  lemma {:induction false} FindDayAfterCreate(docs: seq<Attendance>, d: Attendance, classId: Id, t: int)
    requires FindDay(docs, classId, t).None?
    requires d.classId == classId && d.date == StartOfDay(t)
    ensures FindDay(docs + [d], classId, t) == Some(|docs|)
  {
    var r := docs + [d];
    if docs != [] {
      assert r[1..] == docs[1..] + [d];
      assert !(docs[0].classId == classId && InDay(docs[0].date, t));
      FindDayAfterCreate(docs[1..], d, classId, t);
    }
  }

  /** The day's document as a fresh creation stores it. */
  function NewDay(id: Id, classId: Id, t: int, records: seq<Record>, teacher: Id): (d: Attendance)
    ensures d.id == id && d.classId == classId && d.records == records && d.teacher == teacher
    ensures IsDayStart(d.date) && InDay(d.date, t) && !d.isLocked
  {
    Attendance(id, classId, StartOfDay(t), records, teacher, false)
  }

  /** A fresh day keeps the store valid. */
  lemma CreateDayValid(db: Database, d: Attendance, t: int)
    requires db.Valid()
    requires FindDay(db.attendances, d.classId, t).None?
    requires d.id == db.nextId && d.date == StartOfDay(t)
    requires forall r :: r in d.records ==> RecordValid(r)
    ensures ClassModel.ClassesValid(db.classes, db.nextId + 1)
    ensures StudentsValid(db.students, db.nextId + 1)
    ensures CollectionValid(db.attendances + [d], db.nextId + 1)
    ensures ReportModel.ReportsValid(db.reports, db.nextId + 1)
  {
    FindDayNone(db.attendances, db.nextId, d.classId, t);
    InsertDocValid(db.attendances, db.nextId, d);
    RaiseNextId(db.classes, db.students, db.attendances, db.reports, db.nextId, db.nextId + 1);
  }

  /** A day created with the default records keeps the store valid. */
  lemma CreateDefaultDayValid(db: Database, d: Attendance, t: int)
    requires db.Valid()
    requires FindDay(db.attendances, d.classId, t).None?
    requires d.id == db.nextId && d.date == StartOfDay(t)
    requires d.records == DefaultRecords(Roster(db.students, d.classId))
    ensures ClassModel.ClassesValid(db.classes, db.nextId + 1)
    ensures StudentsValid(db.students, db.nextId + 1)
    ensures CollectionValid(db.attendances + [d], db.nextId + 1)
    ensures ReportModel.ReportsValid(db.reports, db.nextId + 1)
  {
    DefaultRecordsCover(Roster(db.students, d.classId));
    CreateDayValid(db, d, t);
  }

  /** A stored day with its records reconciled keeps the store valid. */
  lemma ReconciledDayValid(db: Database, k: nat, d: Attendance)
    requires db.Valid() && k < |db.attendances|
    requires d == db.attendances[k].(records := Reconcile(db.attendances[k].records, Roster(db.students, d.classId), db.students))
    ensures CollectionValid(db.attendances[k := d], db.nextId)
  {
    var doc := db.attendances[k];
    assert doc in db.attendances;
    DefaultRecordsCover(MissingStudents(doc.records, Roster(db.students, d.classId)));
    ReplaceDocValid(db.attendances, db.nextId, k, d);
  }

  /** Case 1 of `getAttendance`: no document for the class and day, so one
      is created, unlocked and dated at the day's start, with one Present
      record per roster student in roster order. */
  method CreateDay(db: Database, classId: Id, t: int, teacher: Id) returns (d: Attendance)
    requires db.Valid() && FindDay(db.attendances, classId, t).None?
    modifies db
    ensures db.Valid()
    ensures db.classes == old(db.classes) && db.students == old(db.students) && db.reports == old(db.reports)
    ensures d == NewDay(old(db.nextId), classId, t, DefaultRecords(Roster(old(db.students), classId)), teacher)
    ensures db.attendances == old(db.attendances) + [d] && db.nextId == old(db.nextId) + 1
  {
    d := NewDay(db.nextId, classId, t, DefaultRecords(Roster(db.students, classId)), teacher);
    CreateDefaultDayValid(db, d, t);
    db.attendances, db.nextId := db.attendances + [d], db.nextId + 1;
  }

  /** Case 2 of `getAttendance`: document `k` has its records reconciled
      with the class roster and is saved, whether or not it is locked. */
  method SyncDay(db: Database, classId: Id, k: nat) returns (d: Attendance)
    requires db.Valid() && k < |db.attendances| && db.attendances[k].classId == classId
    modifies db
    ensures db.Valid()
    ensures db.classes == old(db.classes) && db.students == old(db.students) && db.reports == old(db.reports)
    ensures d == old(db.attendances)[k].(records := Reconcile(old(db.attendances)[k].records, Roster(old(db.students), classId), old(db.students)))
    ensures db.attendances == old(db.attendances)[k := d] && db.nextId == old(db.nextId)
  {
    d := db.attendances[k].(records := Reconcile(db.attendances[k].records, Roster(db.students, classId), db.students));
    ReconciledDayValid(db, k, d);
    db.attendances := db.attendances[k := d];
  }

  /** `getAttendance`. Without a date: 400 and no change. Otherwise the day is
      created (case 1) or reconciled (case 2). */
  method GetAttendance(db: Database, classId: Id, date: Option<int>, teacher: Id) returns (r: Result<Attendance>)
    requires db.Valid()
    modifies db
    ensures db.Valid()
    ensures db.classes == old(db.classes) && db.students == old(db.students) && db.reports == old(db.reports)
    ensures date.None? ==> r == Err(BadRequest(DATE_REQUIRED)) && unchanged(db)
    ensures date.Some? && FindDay(old(db.attendances), classId, date.value).None? ==>
      && r == Ok(NewDay(old(db.nextId), classId, date.value, DefaultRecords(Roster(old(db.students), classId)), teacher))
      && db.attendances == old(db.attendances) + [r.value]
      && db.nextId == old(db.nextId) + 1
    ensures date.Some? && FindDay(old(db.attendances), classId, date.value).Some? ==>
      var k := FindDay(old(db.attendances), classId, date.value).value;
      && r == Ok(old(db.attendances)[k].(records := Reconcile(old(db.attendances)[k].records, Roster(old(db.students), classId), old(db.students))))
      && db.attendances == old(db.attendances)[k := r.value]
      && db.nextId == old(db.nextId)
  {
    if date.None? {
      return Err(BadRequest(DATE_REQUIRED));
    }
    var found := FindDay(db.attendances, classId, date.value);
    var d;
    if found.None? {
      d := CreateDay(db, classId, date.value, teacher);
    } else {
      d := SyncDay(db, classId, found.value);
    }
    return Ok(d);
  }

  /** A request record whose `student` is set (the `r.student != null` test). */
  predicate HasStudentRef(x: RecordInput) { x.student.Some? }

  /** `saveAttendance`. Without a date or a records list: 400. A locked day:
      400 and no change. An existing unlocked day: its records become the
      request's records that name a student, cast by the schema. No document:
      one is created from the request's records as given. A record the schema
      refuses (no student on creation, a status outside the enum) fails the
      request with 500 and nothing is written. */
  method SaveAttendance(db: Database, classId: Id, date: Option<int>, records: Option<seq<RecordInput>>, teacher: Id)
    returns (r: Result<Attendance>)
    requires db.Valid()
    modifies db
    ensures db.Valid()
    ensures db.classes == old(db.classes) && db.students == old(db.students) && db.reports == old(db.reports)
    ensures date.None? || records.None? ==> r == Err(BadRequest(DATE_AND_RECORDS_REQUIRED)) && unchanged(db)
    ensures date.Some? && records.Some? && FindDay(old(db.attendances), classId, date.value).Some? ==>
      var k := FindDay(old(db.attendances), classId, date.value).value;
      var cast := CastRecords(Filter(records.value, HasStudentRef));
      && (old(db.attendances)[k].isLocked ==> r == Err(BadRequest(LOCKED)) && unchanged(db))
      && (!old(db.attendances)[k].isLocked && cast.None? ==> r == Err(ServerError(VALIDATION_FAILED)) && unchanged(db))
      && (!old(db.attendances)[k].isLocked && cast.Some? ==>
            && r == Ok(old(db.attendances)[k].(records := cast.value))
            && db.attendances == old(db.attendances)[k := r.value]
            && db.nextId == old(db.nextId))
    ensures date.Some? && records.Some? && FindDay(old(db.attendances), classId, date.value).None? ==>
      var cast := CastRecords(records.value);
      && (cast.None? ==> r == Err(ServerError(VALIDATION_FAILED)) && unchanged(db))
      && (cast.Some? ==>
            && r == Ok(NewDay(old(db.nextId), classId, date.value, cast.value, teacher))
            && db.attendances == old(db.attendances) + [r.value]
            && db.nextId == old(db.nextId) + 1)
  {
    if date.None? || records.None? {
      return Err(BadRequest(DATE_AND_RECORDS_REQUIRED));
    }
    var t := date.value;
    var found := FindDay(db.attendances, classId, t);
    if found.Some? && db.attendances[found.value].isLocked {
      return Err(BadRequest(LOCKED));
    }
    if found.Some? {
      var k := found.value;
      var cast := CastRecords(Filter(records.value, HasStudentRef));
      if cast.None? {
        return Err(ServerError(VALIDATION_FAILED));
      }
      var d := db.attendances[k].(records := cast.value);
      ReplaceDocValid(db.attendances, db.nextId, k, d);
      db.attendances := db.attendances[k := d];
      return Ok(d);
    }
    var cast := CastRecords(records.value);
    if cast.None? {
      return Err(ServerError(VALIDATION_FAILED));
    }
    var d := NewDay(db.nextId, classId, t, cast.value, teacher);
    CreateDayValid(db, d, t);
    db.attendances := db.attendances + [d];
    db.nextId := db.nextId + 1;
    return Ok(d);
  }

  /** `lockAttendance`. Without a date: 400. Without a document for the class
      and day: 404. Otherwise the first matching document is locked; nothing
      else changes and there is no way back. */
  method LockAttendance(db: Database, classId: Id, date: Option<int>) returns (r: Result<Attendance>)
    requires db.Valid()
    modifies db
    ensures db.Valid()
    ensures db.classes == old(db.classes) && db.students == old(db.students) && db.reports == old(db.reports)
    ensures db.nextId == old(db.nextId)
    ensures date.None? ==> r == Err(BadRequest(DATE_MISSING)) && unchanged(db)
    ensures date.Some? && FindDay(old(db.attendances), classId, date.value).None? ==>
      r == Err(NotFound(NOT_FOUND)) && unchanged(db)
    ensures date.Some? && FindDay(old(db.attendances), classId, date.value).Some? ==>
      var k := FindDay(old(db.attendances), classId, date.value).value;
      && db.attendances == LockDay(old(db.attendances), k)
      && r == Ok(db.attendances[k])
  {
    if date.None? {
      return Err(BadRequest(DATE_MISSING));
    }
    var found := FindDay(db.attendances, classId, date.value);
    if found.None? {
      return Err(NotFound(NOT_FOUND));
    }
    var k := found.value;
    var d := db.attendances[k].(isLocked := true);
    forall x | x in d.records ensures RecordValid(x) {
      assert db.attendances[k] in db.attendances;
    }
    ReplaceDocValid(db.attendances, db.nextId, k, d);
    db.attendances := db.attendances[k := d];
    return Ok(d);
  }

  /** `.sort({ date: 1 })`. */
  function ByDate(a: Attendance, b: Attendance): int {
    a.date - b.date
  }

  lemma ByDateTotal(xs: set<Attendance>)
    ensures TotalPreorderOn(xs, ByDate)
  {}

  /** Sorting by date keeps the documents and puts them in date order. */
  lemma SortByDate(docs: seq<Attendance>)
    ensures forall d :: d in SortBy(docs, ByDate) <==> d in docs
    ensures forall i, j :: 0 <= i < j < |SortBy(docs, ByDate)| ==> SortBy(docs, ByDate)[i].date <= SortBy(docs, ByDate)[j].date
  {
    var sorted := SortBy(docs, ByDate);
    ByDateTotal(set d | d in docs);
    SortBySorted(docs, ByDate, set d | d in docs);
    assert forall d :: d in sorted <==> d in multiset(docs);
  }

  /** The class's documents dated from the first day's start through the last
      day's end. */
  predicate InRange(d: Attendance, classId: Id, start: int, end: int) {
    d.classId == classId && StartOfDay(start) <= d.date <= EndOfDay(end)
  }

  /** `getAttendanceHistory`: without both bounds, 400; otherwise the class's
      documents in the range, each once, in ascending date order. Nothing is
      written. */
  method GetAttendanceHistory(db: Database, classId: Id, start: Option<int>, end: Option<int>)
    returns (r: Result<seq<Attendance>>)
    requires db.Valid()
    ensures start.None? || end.None? <==> r == Err(BadRequest(RANGE_REQUIRED))
    ensures r.Ok? ==> var s := start.value; var e := end.value;
      && multiset(r.value) == multiset(Filter(db.attendances, (d: Attendance) => InRange(d, classId, s, e)))
      && (forall d :: d in r.value <==> d in db.attendances && InRange(d, classId, s, e))
      && (forall i, j :: 0 <= i < j < |r.value| ==> r.value[i].date <= r.value[j].date)
  {
    if start.None? || end.None? {
      return Err(BadRequest(RANGE_REQUIRED));
    }
    var s, e := start.value, end.value;
    var matching := Filter(db.attendances, (d: Attendance) => InRange(d, classId, s, e));
    SortByDate(matching);
    return Ok(SortBy(matching, ByDate));
  }
}

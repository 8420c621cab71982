/** backend/controllers/studentController.js: adding and deleting a student
    with the class's `totalStudents` counter kept in step, and the two bulk
    imports (from validated CSV rows, and by copying another class's roster)
    with MongoDB's unordered and ordered `insertMany`. */
module StudentController {
  import opened Util
  import opened Api
  import opened StudentModel
  import opened ClassModel
  import opened AttendanceModel
  import opened ReportModel
  import opened CsvValidator
  import opened Store
  import opened StudentBatch
  import opened StudentCsvRows
  import opened StudentCopy

  const ROLL_AND_NAME_REQUIRED: string := "Please provide rollNumber and name"
  const ROLL_EXISTS: string := "Roll number already exists for this class"
  const STUDENT_NOT_FOUND: string := "Student not found"
  const CSV_FAILED: string := "CSV validation failed"
  const DUPLICATE_ROLLS: string := "Duplicate roll numbers detected"
  const SOURCE_REQUIRED: string := "Please provide sourceClassId"
  const SOURCE_EMPTY: string := "No students found in source class"
  /** Stands for the text of the Mongoose `ValidationError`. */
  const VALIDATION_FAILED: string := "Student validation failed"
  /** At most this many CSV messages are returned. */
  const MAX_ERRORS: nat := 10

  // ---------------------------------------------------------------------
  // Collection updates
  // ---------------------------------------------------------------------

  /** `Student.findByIdAndDelete`: every student but the one with that id. */
  function RemoveStudent(ss: seq<Student>, id: Id): (r: seq<Student>)
    ensures !HasStudent(r, id)
    ensures forall s :: s in r <==> s in ss && s.id != id
  {
    Filter(ss, (s: Student) => s.id != id)
  }

  /** A single insert keeps the whole database valid. */
  lemma AddStudentValid(cs: seq<ClassDoc>, ss: seq<Student>, ds: seq<Attendance>, rs: seq<Report>,
                        n: nat, s: Student, classId: Id)
    requires ClassesValid(cs, n) && StudentsValid(ss, n) && CollectionValid(ds, n) && ReportsValid(rs, n)
    requires StudentValid(s) && s.id == n && !RollTaken(ss, s.rollNumber, s.classId)
    ensures ClassesValid(IncTotal(cs, classId, 1), n + 1) && StudentsValid(ss + [s], n + 1)
    ensures CollectionValid(ds, n + 1) && ReportsValid(rs, n + 1)
  {
    InsertStudentValid(ss, n, s);
    RaiseNextId(cs, ss, ds, rs, n, n + 1);
    IncTotalValid(cs, n + 1, classId, 1);
  }

  /** Writes the student and class collections and the id counter together. */
  method StoreStudents(db: Database, students: seq<Student>, classes: seq<ClassDoc>, m: nat)
    requires db.Valid() && db.nextId <= m
    requires ClassesValid(classes, m) && StudentsValid(students, m)
    modifies db
    ensures db.Valid()
    ensures db.students == students && db.classes == classes && db.nextId == m
    ensures db.attendances == old(db.attendances) && db.reports == old(db.reports)
  {
    RaiseNextId(db.classes, db.students, db.attendances, db.reports, db.nextId, m);
    db.students, db.classes, db.nextId := students, classes, m;
  }

  // ---------------------------------------------------------------------
  // addStudent / deleteStudent
  // ---------------------------------------------------------------------

  /** `addStudent`. A missing (empty) roll number or name is refused before
      anything is stored; the schema's setters and validators run next (a
      blank name fails there, as a 500); then the unique (rollNumber, class)
      index refuses a taken roll number. Only a stored student moves the
      class counter, by exactly one. The class itself is not looked up. */
  method AddStudent(db: Database, classId: Id, rollNumber: string, name: string, email: string,
                    phoneNumber: string, parentPhoneNumber: string)
    returns (r: Result<Student>)
    requires db.Valid()
    modifies db
    ensures db.Valid()
    ensures rollNumber == [] || name == [] ==> r == Err(BadRequest(ROLL_AND_NAME_REQUIRED)) && unchanged(db)
    ensures rollNumber != [] && name != [] ==>
      var c := CastStudent(old(db.nextId), StudentInput(rollNumber, name, email, phoneNumber, parentPhoneNumber, [], classId));
      && (c.None? ==> r == Err(ServerError(VALIDATION_FAILED)) && unchanged(db))
      && (c.Some? && RollTaken(old(db.students), rollNumber, classId) ==>
            r == Err(BadRequest(ROLL_EXISTS)) && unchanged(db))
      && (c.Some? && !RollTaken(old(db.students), rollNumber, classId) ==>
            && r == Ok(c.value)
            && db.students == old(db.students) + [c.value]
            && db.classes == IncTotal(old(db.classes), classId, 1)
            && db.nextId == old(db.nextId) + 1
            && db.attendances == old(db.attendances) && db.reports == old(db.reports))
  {
    if rollNumber == [] || name == [] {
      return Err(BadRequest(ROLL_AND_NAME_REQUIRED));
    }
    var c := CastStudent(db.nextId, StudentInput(rollNumber, name, email, phoneNumber, parentPhoneNumber, [], classId));
    if c.None? {
      return Err(ServerError(VALIDATION_FAILED));
    }
    if RollTaken(db.students, rollNumber, classId) {
      return Err(BadRequest(ROLL_EXISTS));
    }
    var s := c.value;
    AddStudentValid(db.classes, db.students, db.attendances, db.reports, db.nextId, s, classId);
    StoreStudents(db, db.students + [s], IncTotal(db.classes, classId, 1), db.nextId + 1);
    r := Ok(s);
  }

  /** `deleteStudent`: the student goes and the counter of the student's own
      class drops by one. Attendance records naming the student stay behind
      and now dangle. */
  method DeleteStudent(db: Database, studentId: Id) returns (r: Result<()>)
    requires db.Valid()
    modifies db
    ensures db.Valid()
    ensures FindStudent(old(db.students), studentId).None? ==>
      r == Err(NotFound(STUDENT_NOT_FOUND)) && unchanged(db)
    ensures FindStudent(old(db.students), studentId).Some? ==>
      var s := old(db.students)[FindStudent(old(db.students), studentId).value];
      && r == Ok(())
      && db.students == RemoveStudent(old(db.students), studentId)
      && db.classes == IncTotal(old(db.classes), s.classId, -1)
      && db.attendances == old(db.attendances) && db.reports == old(db.reports) && db.nextId == old(db.nextId)
  {
    var k := FindStudent(db.students, studentId);
    if k.None? {
      return Err(NotFound(STUDENT_NOT_FOUND));
    }
    var s := db.students[k.value];
    FilterStudentsValid(db.students, db.nextId, (x: Student) => x.id != studentId);
    IncTotalValid(db.classes, db.nextId, s.classId, -1);
    StoreStudents(db, RemoveStudent(db.students, studentId), IncTotal(db.classes, s.classId, -1), db.nextId);
    r := Ok(());
  }

  /** Adding a student and deleting it again leaves the class counter where it
      was. */
  lemma AddThenDeleteRestoresCounter(cs: seq<ClassDoc>, classId: Id)
    ensures IncTotal(IncTotal(cs, classId, 1), classId, -1) == cs
  {
    IncTotalAdds(cs, classId, 1, -1);
    assert IncTotal(cs, classId, 0) == cs;
  }

  // ---------------------------------------------------------------------
  // Bulk inserts
  // ---------------------------------------------------------------------

  /** The answer to a bulk insert, after MongoDB has stored `b.added` and
      used the ids up to `n`: a refused duplicate (error code 11000) answers
      400 and leaves the counter alone; otherwise the counter grows by the
      number of stored students and they are the answer. */
  method StoreBatch(db: Database, b: Batch, n: nat, classId: Id) returns (r: Result<seq<Student>>)
    requires db.Valid() && db.nextId <= n && StudentsValid(db.students + b.added, n)
    modifies db
    ensures db.Valid()
    ensures db.students == old(db.students) + b.added && db.nextId == n
    ensures db.attendances == old(db.attendances) && db.reports == old(db.reports)
    ensures b.duplicate ==> r == Err(BadRequest(DUPLICATE_ROLLS)) && db.classes == old(db.classes)
    ensures !b.duplicate ==> r == Ok(b.added) && db.classes == IncTotal(old(db.classes), classId, |b.added|)
  {
    assert ClassesValid(db.classes, n);
    if b.duplicate {
      StoreStudents(db, db.students + b.added, db.classes, n);
      r := Err(BadRequest(DUPLICATE_ROLLS));
    } else {
      IncTotalValid(db.classes, n, classId, |b.added|);
      StoreStudents(db, db.students + b.added, IncTotal(db.classes, classId, |b.added|), n);
      r := Ok(b.added);
    }
  }

  // ---------------------------------------------------------------------
  // importStudentsCSV
  // ---------------------------------------------------------------------

  /** `errors.slice(0, 10)`. */
  function FirstErrors(errors: seq<string>): (r: seq<string>)
    ensures |r| <= MAX_ERRORS && |r| <= |errors| && r == errors[..|r|]
    ensures |errors| <= MAX_ERRORS ==> r == errors
  {
    if |errors| <= MAX_ERRORS then errors else errors[..MAX_ERRORS]
  }

  /** `importStudentsCSV` after the file is parsed into `rows` (`None` for no
      data). Failed validation stores nothing and answers the first ten
      messages. Otherwise the rows are inserted unordered: a refused duplicate
      answers 400 with the other rows stored and the counter untouched;
      without one, every row is stored and the counter grows by their number. */
  method ImportStudentsCsv(db: Database, classId: Id, rows: Option<seq<Row>>)
    returns (r: Result<seq<Student>>, shown: seq<string>)
    requires db.Valid()
    modifies db
    ensures db.Valid()
    ensures CsvErrors(rows) != [] ==>
      r == Err(BadRequest(CSV_FAILED)) && shown == FirstErrors(CsvErrors(rows)) && unchanged(db)
    ensures CsvErrors(rows) == [] ==>
      var docs := CsvDocs(rows.value, classId, old(db.nextId));
      var b := InsertUnordered(old(db.students), docs);
      && shown == []
      && db.students == old(db.students) + b.added
      && db.nextId == old(db.nextId) + |docs|
      && db.attendances == old(db.attendances) && db.reports == old(db.reports)
      && (b.duplicate ==> r == Err(BadRequest(DUPLICATE_ROLLS)) && db.classes == old(db.classes))
      && (!b.duplicate ==>
            r == Ok(docs) && b.added == docs
            && db.classes == IncTotal(old(db.classes), classId, |docs|))
  {
    var errors := ValidateCsv(rows);
    if errors != [] {
      return Err(BadRequest(CSV_FAILED)), FirstErrors(errors);
    }
    shown := [];
    var docs := CsvDocs(rows.value, classId, db.nextId);
    var b := InsertUnordered(db.students, docs);
    InsertUnorderedValid(db.students, db.nextId, docs);
    if !b.duplicate {
      InsertUnorderedAdded(db.students, docs);
    }
    r := StoreBatch(db, b, db.nextId + |docs|, classId);
  }

  // ---------------------------------------------------------------------
  // importStudentsFromExisting
  // ---------------------------------------------------------------------

  /** `importStudentsFromExisting`: the source class's students are copied
      into `classId` with an ordered insert. A taken roll number stops the
      insert there: the copies before it stay stored, the answer is 400 and
      the counter is untouched. Copying a class into itself therefore stores
      nothing. */
  method ImportFromExisting(db: Database, classId: Id, sourceClassId: Option<Id>)
    returns (r: Result<seq<Student>>)
    requires db.Valid()
    modifies db
    ensures db.Valid()
    ensures sourceClassId.None? ==> r == Err(BadRequest(SOURCE_REQUIRED)) && unchanged(db)
    ensures sourceClassId.Some? && Roster(old(db.students), sourceClassId.value) == [] ==>
      r == Err(NotFound(SOURCE_EMPTY)) && unchanged(db)
    ensures sourceClassId.Some? && Roster(old(db.students), sourceClassId.value) != [] ==>
      var src := Roster(old(db.students), sourceClassId.value);
      var docs := CopyDocs(src, classId, old(db.nextId));
      var b := InsertOrdered(old(db.students), docs);
      && db.students == old(db.students) + b.added
      && db.nextId == old(db.nextId) + |src|
      && db.attendances == old(db.attendances) && db.reports == old(db.reports)
      && (b.duplicate ==> r == Err(BadRequest(DUPLICATE_ROLLS)) && db.classes == old(db.classes))
      && (!b.duplicate ==>
            r == Ok(docs) && b.added == docs
            && db.classes == IncTotal(old(db.classes), classId, |src|))
  {
    if sourceClassId.None? {
      return Err(BadRequest(SOURCE_REQUIRED));
    }
    var src := Roster(db.students, sourceClassId.value);
    if src == [] {
      return Err(NotFound(SOURCE_EMPTY));
    }
    var docs := CopyDocs(src, classId, db.nextId);
    CastAllFresh(db.nextId, CopyInputs(src, classId));
    var b := InsertOrdered(db.students, docs);
    InsertOrderedValid(db.students, db.nextId, docs);
    InsertOrderedPrefix(db.students, docs);
    r := StoreBatch(db, b, db.nextId + |docs|, classId);
  }

}

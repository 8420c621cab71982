/** backend/controllers/classController.js: a teacher's classes. Creating one
    (owned by the requesting teacher, class code unique), listing and reading
    them, and updating or deleting one, both refused to anyone but the owner;
    deleting a class also deletes its students, attendance documents and
    reports. */
module ClassController {
  import opened Util
  import opened Api
  import opened ClassModel
  import opened StudentModel
  import opened AttendanceModel
  import opened ReportModel
  import opened Store

  const FIELDS_REQUIRED: string := "Please provide className, classCode and academicYear"
  const CODE_EXISTS: string := "Class code already exists"
  const CLASS_NOT_FOUND: string := "Class not found"
  const NOT_AUTHORIZED_VIEW: string := "Not authorized to view this class"
  const NOT_AUTHORIZED_UPDATE: string := "Not authorized to update this class"
  const NOT_AUTHORIZED_DELETE: string := "Not authorized to delete this class"
  /** Stands for the text of the Mongoose `ValidationError`. */
  const VALIDATION_FAILED: string := "Class validation failed"
  /** Stands for the text of MongoDB's duplicate-key error (code 11000). */
  const DUPLICATE_KEY: string := "E11000 duplicate key error"

  // ---------------------------------------------------------------------
  // Collection updates
  // ---------------------------------------------------------------------

  /** `Student.deleteMany({ class: id })`: the students of every other class. */
  function StudentsOutside(ss: seq<Student>, id: Id): (r: seq<Student>)
    ensures forall s :: s in r <==> s in ss && s.classId != id
  {
    Filter(ss, (s: Student) => s.classId != id)
  }

  /** `Attendance.deleteMany({ class: id })`. */
  function DocsOutside(docs: seq<Attendance>, id: Id): (r: seq<Attendance>)
    ensures forall d :: d in r <==> d in docs && d.classId != id
  {
    Filter(docs, (d: Attendance) => d.classId != id)
  }

  /** `Report.deleteMany({ class: id })`. */
  function ReportsOutside(rs: seq<Report>, id: Id): (r: seq<Report>)
    ensures forall x :: x in r <==> x in rs && x.classId != id
  {
    Filter(rs, (x: Report) => x.classId != id)
  }

  /** The whole cascade keeps the database valid. */
  lemma CascadeValid(cs: seq<ClassDoc>, ss: seq<Student>, ds: seq<Attendance>, rs: seq<Report>, n: nat, id: Id)
    requires ClassesValid(cs, n) && StudentsValid(ss, n) && CollectionValid(ds, n) && ReportsValid(rs, n)
    ensures ClassesValid(RemoveClass(cs, id), n) && StudentsValid(StudentsOutside(ss, id), n)
    ensures CollectionValid(DocsOutside(ds, id), n) && ReportsValid(ReportsOutside(rs, id), n)
  {
    FilterStudentsValid(ss, n, (s: Student) => s.classId != id);
    FilterDocsValid(ds, n, (d: Attendance) => d.classId != id);
  }

  /** Writes the class collection and the id counter together. */
  method StoreClasses(db: Database, classes: seq<ClassDoc>, m: nat)
    requires db.Valid() && db.nextId <= m && ClassesValid(classes, m)
    modifies db
    ensures db.Valid()
    ensures db.classes == classes && db.nextId == m
    ensures db.students == old(db.students) && db.attendances == old(db.attendances)
    ensures db.reports == old(db.reports)
  {
    RaiseNextId(db.classes, db.students, db.attendances, db.reports, db.nextId, m);
    db.classes, db.nextId := classes, m;
  }

  /** The four `deleteMany`/`findByIdAndDelete` writes of a class delete. */
  method Cascade(db: Database, id: Id)
    requires db.Valid()
    modifies db
    ensures db.Valid()
    ensures db.students == StudentsOutside(old(db.students), id)
    ensures db.attendances == DocsOutside(old(db.attendances), id)
    ensures db.reports == ReportsOutside(old(db.reports), id)
    ensures db.classes == RemoveClass(old(db.classes), id)
    ensures db.nextId == old(db.nextId)
  {
    CascadeValid(db.classes, db.students, db.attendances, db.reports, db.nextId, id);
    db.students, db.attendances, db.reports, db.classes :=
      StudentsOutside(db.students, id), DocsOutside(db.attendances, id),
      ReportsOutside(db.reports, id), RemoveClass(db.classes, id);
  }

  // ---------------------------------------------------------------------
  // createClass / getClasses / getClass
  // ---------------------------------------------------------------------

  /** `createClass` for the teacher `user`. A missing (empty) name, code or
      year is refused first; then the schema's setters and validators run (a
      blank name or code fails there, as a 500); then the unique index
      refuses a code another class already holds. A new class is owned by
      `user`, counts no students and takes the next id. */
  method CreateClass(db: Database, user: Id, x: ClassInput) returns (r: Result<ClassDoc>)
    requires db.Valid()
    modifies db
    ensures db.Valid()
    ensures x.className == [] || x.classCode == [] || x.academicYear == [] ==>
      r == Err(BadRequest(FIELDS_REQUIRED)) && unchanged(db)
    ensures x.className != [] && x.classCode != [] && x.academicYear != [] ==>
      var c := CastClass(old(db.nextId), x, user);
      && (c.None? ==> r == Err(ServerError(VALIDATION_FAILED)) && unchanged(db))
      && (c.Some? && CodeTaken(old(db.classes), c.value.classCode) ==>
            r == Err(BadRequest(CODE_EXISTS)) && unchanged(db))
      && (c.Some? && !CodeTaken(old(db.classes), c.value.classCode) ==>
            && r == Ok(c.value) && c.value.teacher == user && c.value.totalStudents == 0
            && db.classes == old(db.classes) + [c.value]
            && db.nextId == old(db.nextId) + 1
            && db.students == old(db.students) && db.attendances == old(db.attendances)
            && db.reports == old(db.reports))
  {
    if x.className == [] || x.classCode == [] || x.academicYear == [] {
      return Err(BadRequest(FIELDS_REQUIRED));
    }
    var c := CastClass(db.nextId, x, user);
    if c.None? {
      return Err(ServerError(VALIDATION_FAILED));
    }
    if CodeTaken(db.classes, c.value.classCode) {
      return Err(BadRequest(CODE_EXISTS));
    }
    InsertClassValid(db.classes, db.nextId, c.value);
    StoreClasses(db, db.classes + [c.value], db.nextId + 1);
    r := Ok(c.value);
  }

  /** `getClasses`: the classes whose teacher is `user`, in stored order. */
  function ClassesOf(cs: seq<ClassDoc>, user: Id): (r: seq<ClassDoc>)
    ensures forall c :: c in r <==> c in cs && c.teacher == user
  {
    Filter(cs, (c: ClassDoc) => c.teacher == user)
  }

  /** A class `user` creates is listed for `user`, after that teacher's
      earlier classes. */
  lemma CreatedIsListed(cs: seq<ClassDoc>, c: ClassDoc, user: Id)
    requires c.teacher == user
    ensures ClassesOf(cs + [c], user) == ClassesOf(cs, user) + [c]
  {
    FilterAppend(cs, [c], (d: ClassDoc) => d.teacher == user);
    assert Filter([c], (d: ClassDoc) => d.teacher == user) == [c] by {
      assert [c][..0] == [];
    }
  }

  /** A class created by someone else does not show up in `user`'s list. */
  lemma OthersNotListed(cs: seq<ClassDoc>, c: ClassDoc, user: Id)
    requires c.teacher != user
    ensures ClassesOf(cs + [c], user) == ClassesOf(cs, user)
  {
    FilterAppend(cs, [c], (d: ClassDoc) => d.teacher == user);
    assert Filter([c], (d: ClassDoc) => d.teacher == user) == [] by {
      assert [c][..0] == [];
    }
    assert ClassesOf(cs, user) + [] == ClassesOf(cs, user);
  }

  /** `getClass`: 404 for an unknown id, 403 when the class belongs to
      another teacher, otherwise the class. */
  function GetClass(cs: seq<ClassDoc>, id: Id, user: Id): (r: Result<ClassDoc>)
    ensures r == Err(NotFound(CLASS_NOT_FOUND)) <==> forall k :: 0 <= k < |cs| ==> cs[k].id != id
    ensures r == Err(Forbidden(NOT_AUTHORIZED_VIEW)) ==> exists c :: c in cs && c.id == id && c.teacher != user
    ensures r.Ok? ==> r.value in cs && r.value.id == id && r.value.teacher == user
    ensures r.Ok? || r == Err(NotFound(CLASS_NOT_FOUND)) || r == Err(Forbidden(NOT_AUTHORIZED_VIEW))
  {
    var k := FindClass(cs, id);
    if k.None? then Err(NotFound(CLASS_NOT_FOUND))
    else if cs[k.value].teacher != user then Err(Forbidden(NOT_AUTHORIZED_VIEW))
    else Ok(cs[k.value])
  }

  /** In a valid collection, the owner of a stored class reads it and
      everybody else is refused with 403. */
  lemma GetClassOwner(cs: seq<ClassDoc>, nextId: nat, c: ClassDoc, user: Id)
    requires ClassesValid(cs, nextId) && c in cs
    ensures c.teacher == user ==> GetClass(cs, c.id, user) == Ok(c)
    ensures c.teacher != user ==> GetClass(cs, c.id, user) == Err(Forbidden(NOT_AUTHORIZED_VIEW))
  {
    var k := FindClass(cs, c.id);
    assert k.Some? by {
      var j :| 0 <= j < |cs| && cs[j] == c;
    }
    assert cs[k.value] in cs;
  }

  // ---------------------------------------------------------------------
  // updateClass / deleteClass
  // ---------------------------------------------------------------------

  /** `updateClass`: 404 for an unknown id and 401 for anyone but the owner,
      with nothing changed. The owner's patch runs through the setters and
      validators (a 500 when they refuse it) and through the unique code
      index (a 500 too: the duplicate-key error is not singled out here);
      otherwise the class is replaced by the patched one. The patch may hand
      the class to another teacher. */
  method UpdateClass(db: Database, id: Id, user: Id, patch: ClassPatch) returns (r: Result<ClassDoc>)
    requires db.Valid()
    modifies db
    ensures db.Valid()
    ensures FindClass(old(db.classes), id).None? ==> r == Err(NotFound(CLASS_NOT_FOUND)) && unchanged(db)
    ensures FindClass(old(db.classes), id).Some? ==>
      var c := old(db.classes)[FindClass(old(db.classes), id).value];
      var u := ApplyPatch(c, patch);
      && (c.teacher != user ==> r == Err(Unauthorized(NOT_AUTHORIZED_UPDATE)) && unchanged(db))
      && (c.teacher == user && u.None? ==> r == Err(ServerError(VALIDATION_FAILED)) && unchanged(db))
      && (c.teacher == user && u.Some? && CodeHeldByOther(old(db.classes), id, u.value.classCode) ==>
            r == Err(ServerError(DUPLICATE_KEY)) && unchanged(db))
      && (c.teacher == user && u.Some? && !CodeHeldByOther(old(db.classes), id, u.value.classCode) ==>
            && r == Ok(u.value)
            && db.classes == ReplaceClass(old(db.classes), id, u.value)
            && db.students == old(db.students) && db.attendances == old(db.attendances)
            && db.reports == old(db.reports) && db.nextId == old(db.nextId))
  {
    var k := FindClass(db.classes, id);
    if k.None? {
      return Err(NotFound(CLASS_NOT_FOUND));
    }
    var c := db.classes[k.value];
    if c.teacher != user {
      return Err(Unauthorized(NOT_AUTHORIZED_UPDATE));
    }
    var u := ApplyPatch(c, patch);
    if u.None? {
      return Err(ServerError(VALIDATION_FAILED));
    }
    if CodeHeldByOther(db.classes, id, u.value.classCode) {
      return Err(ServerError(DUPLICATE_KEY));
    }
    assert c in db.classes;
    ReplaceClassValid(db.classes, db.nextId, id, u.value);
    StoreClasses(db, ReplaceClass(db.classes, id, u.value), db.nextId);
    r := Ok(u.value);
  }

  /** `deleteClass`: 404 for an unknown id and 401 for anyone but the owner,
      with nothing changed. Otherwise the class's students, attendance
      documents and reports are deleted, and then the class. */
  method DeleteClass(db: Database, id: Id, user: Id) returns (r: Result<()>)
    requires db.Valid()
    modifies db
    ensures db.Valid()
    ensures FindClass(old(db.classes), id).None? ==> r == Err(NotFound(CLASS_NOT_FOUND)) && unchanged(db)
    ensures FindClass(old(db.classes), id).Some? ==>
      var c := old(db.classes)[FindClass(old(db.classes), id).value];
      && (c.teacher != user ==> r == Err(Unauthorized(NOT_AUTHORIZED_DELETE)) && unchanged(db))
      && (c.teacher == user ==>
            && r == Ok(())
            && db.students == StudentsOutside(old(db.students), id)
            && db.attendances == DocsOutside(old(db.attendances), id)
            && db.reports == ReportsOutside(old(db.reports), id)
            && db.classes == RemoveClass(old(db.classes), id)
            && db.nextId == old(db.nextId))
  {
    var k := FindClass(db.classes, id);
    if k.None? {
      return Err(NotFound(CLASS_NOT_FOUND));
    }
    if db.classes[k.value].teacher != user {
      return Err(Unauthorized(NOT_AUTHORIZED_DELETE));
    }
    Cascade(db, id);
    r := Ok(());
  }
}

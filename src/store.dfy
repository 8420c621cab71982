/** The MongoDB database the controllers share: one collection per model, each
    in natural (insertion) order, and the source of fresh document ids. */
module Store {
  import opened Util
  import opened AttendanceModel
  import opened StudentModel
  import opened ClassModel
  import opened ReportModel

  class Database {
    var classes: seq<ClassDoc>
    var students: seq<Student>
    var attendances: seq<Attendance>
    var reports: seq<Report>
    /** Every stored `_id` is below this; the next insert takes it. */
    var nextId: nat

    /** Every collection satisfies its schema and its unique indexes. */
    ghost predicate Valid()
      reads this
    {
      && ClassesValid(classes, nextId)
      && StudentsValid(students, nextId)
      && AttendanceModel.CollectionValid(attendances, nextId)
      && ReportsValid(reports, nextId)
    }

    constructor ()
      ensures Valid()
      ensures classes == [] && students == [] && attendances == [] && reports == [] && nextId == 0
    {
      classes, students, attendances, reports, nextId := [], [], [], [], 0;
    }
  }

  /** Raising the id counter keeps every collection valid. */
  lemma RaiseNextId(cs: seq<ClassDoc>, ss: seq<Student>, ds: seq<Attendance>, rs: seq<Report>, n: nat, m: nat)
    requires n <= m
    requires ClassesValid(cs, n) && StudentsValid(ss, n) && AttendanceModel.CollectionValid(ds, n) && ReportsValid(rs, n)
    ensures ClassesValid(cs, m) && StudentsValid(ss, m) && AttendanceModel.CollectionValid(ds, m) && ReportsValid(rs, m)
  {}
}

/** The Report schema: a stored snapshot of attendance statistics for one
    student or a whole class over a date range, with its enums and defaults. */
module ReportModel {
  import opened Util
  import opened ReportGenerator

  datatype ReportType = Individual | Class
  datatype Format = PDF | JSON
  datatype Channel = Email | WhatsApp | SMS

  function ReportTypeName(t: ReportType): string {
    match t
    case Individual => "Individual"
    case Class => "Class"
  }

  /** The `reportType` enum validator: exactly the two names are accepted. */
  function ParseReportType(s: string): (r: Option<ReportType>)
    ensures r.Some? <==> s == "Individual" || s == "Class"
    ensures r.Some? ==> ReportTypeName(r.value) == s
  {
    if s == "Individual" then Some(Individual)
    else if s == "Class" then Some(Class)
    else None
  }

  lemma ReportTypeRoundTrip(t: ReportType)
    ensures ParseReportType(ReportTypeName(t)) == Some(t)
  {}

  function ChannelName(c: Channel): string {
    match c
    case Email => "Email"
    case WhatsApp => "WhatsApp"
    case SMS => "SMS"
  }

  /** The `shareVia` enum (and the check `shareReport` makes before it). */
  function ParseChannel(s: string): (r: Option<Channel>)
    ensures r.Some? <==> s == "Email" || s == "WhatsApp" || s == "SMS"
    ensures r.Some? ==> ChannelName(r.value) == s
  {
    if s == "Email" then Some(Email)
    else if s == "WhatsApp" then Some(WhatsApp)
    else if s == "SMS" then Some(SMS)
    else None
  }

  lemma ChannelRoundTrip(c: Channel)
    ensures ParseChannel(ChannelName(c)) == Some(c)
  {}

  datatype StudentDetails = StudentDetails(name: string, rollNumber: string, email: string)
  datatype ClassInfo = ClassInfo(className: string, classCode: string, teacherName: string)

  /** One value of the class report's `studentReports` object. */
  datatype StudentEntry = StudentEntry(studentId: Id, stats: Stats, name: string, rollNumber: string)

  /** The `data` payload, one shape per report type; the class average is in
      hundredths of a percent, like the per-student percentages. */
  datatype ReportData =
    | IndividualData(stats: Stats, studentDetails: StudentDetails, classInfo: ClassInfo)
    | ClassData(totalStudents: nat, studentReports: seq<StudentEntry>, classAverage: nat, classInfo: ClassInfo)

  datatype Report = Report(
    id: Id,
    title: string,
    classId: Id,
    student: Option<Id>,
    reportType: ReportType,
    startDate: int,
    endDate: int,
    data: ReportData,
    generatedBy: Id,
    format: Format,
    isShared: bool,
    shareVia: Option<Channel>,
    sharedAt: Option<int>)

  /** `Report.create` as `generateReport` calls it: the title is
      "<reportType> Attendance Report", the format JSON and the report not yet
      shared; a `reportType` outside the enum fails validation. */
  function CreateReport(id: Id, reportType: string, classId: Id, student: Option<Id>,
                        startDate: int, endDate: int, data: ReportData, generatedBy: Id): (r: Option<Report>)
    ensures r.Some? <==> ParseReportType(reportType).Some?
    ensures r.Some? ==> var rep := r.value;
      && rep.id == id && rep.classId == classId && rep.student == student
      && ReportTypeName(rep.reportType) == reportType
      && rep.title == reportType + " Attendance Report"
      && rep.startDate == startDate && rep.endDate == endDate && rep.data == data
      && rep.generatedBy == generatedBy
      && rep.format == JSON && !rep.isShared && rep.shareVia.None? && rep.sharedAt.None?
  {
    match ParseReportType(reportType)
    case None => None
    case Some(t) =>
      Some(Report(id, reportType + " Attendance Report", classId, student, t, startDate, endDate,
                  data, generatedBy, JSON, false, None, None))
  }

  /** A report that has been shared names the channel and the time. */
  predicate ReportValid(r: Report) {
    r.isShared <==> r.shareVia.Some? && r.sharedAt.Some?
  }

  /** The stored collection: ids below the allocation counter and unique. */
  ghost predicate ReportsValid(rs: seq<Report>, nextId: nat) {
    && (forall r :: r in rs ==> r.id < nextId && ReportValid(r))
    && (forall r, s :: r in rs && s in rs && r.id == s.id ==> r == s)
  }

  /** `Report.findById`: the index of the report with that id. */
  function FindReport(rs: seq<Report>, id: Id): (r: Option<nat>)
    ensures r.None? <==> forall k :: 0 <= k < |rs| ==> rs[k].id != id
    ensures r.Some? ==> r.value < |rs| && rs[r.value].id == id
  {
    if rs == [] then None
    else if rs[|rs| - 1].id == id then Some(|rs| - 1)
    else FindReport(rs[..|rs| - 1], id)
  }

  /** A newly created report with the next id keeps the collection valid. */
  lemma InsertReportValid(rs: seq<Report>, nextId: nat, r: Report)
    requires ReportsValid(rs, nextId) && r.id == nextId && ReportValid(r)
    ensures ReportsValid(rs + [r], nextId + 1)
  {
    var t := rs + [r];
    assert forall x :: x in t <==> x in rs || x == r;
  }

  function ShareOne(r: Report, id: Id, via: Channel, now: int): Report {
    if r.id == id then r.(isShared := true, shareVia := Some(via), sharedAt := Some(now)) else r
  }

  /** `Report.findByIdAndUpdate(id, { isShared: true, shareVia, sharedAt })`:
      the report with that id is marked shared over `via` at `now`; every
      other report is left alone. */
  function ShareById(rs: seq<Report>, id: Id, via: Channel, now: int): (r: seq<Report>)
    ensures |r| == |rs|
    ensures forall k :: 0 <= k < |rs| && rs[k].id != id ==> r[k] == rs[k]
    ensures forall k :: 0 <= k < |rs| && rs[k].id == id ==>
      && r[k].isShared && r[k].shareVia == Some(via) && r[k].sharedAt == Some(now)
      && r[k] == rs[k].(isShared := true, shareVia := Some(via), sharedAt := Some(now))
  {
    seq(|rs|, k requires 0 <= k < |rs| => ShareOne(rs[k], id, via, now))
  }

  lemma InShareById(rs: seq<Report>, id: Id, via: Channel, now: int, x: Report) returns (k: nat)
    requires x in ShareById(rs, id, via, now)
    ensures k < |rs| && x == ShareOne(rs[k], id, via, now)
  {
    k :| 0 <= k < |rs| && ShareById(rs, id, via, now)[k] == x;
  }

  /** Sharing keeps every report valid: a shared report names its channel and time. */
  lemma ShareByIdValid(rs: seq<Report>, nextId: nat, id: Id, via: Channel, now: int)
    requires ReportsValid(rs, nextId)
    ensures ReportsValid(ShareById(rs, id, via, now), nextId)
  {
    var t := ShareById(rs, id, via, now);
    forall x | x in t ensures x.id < nextId && ReportValid(x) {
      var k := InShareById(rs, id, via, now, x);
      assert rs[k] in rs;
    }
    forall x, y | x in t && y in t && x.id == y.id ensures x == y {
      var i := InShareById(rs, id, via, now, x);
      var j := InShareById(rs, id, via, now, y);
      assert rs[i] in rs && rs[j] in rs;
    }
  }

  /** Sharing the same report again over the same channel at the same time
      changes nothing more. */
  lemma ShareByIdIdempotent(rs: seq<Report>, id: Id, via: Channel, now: int)
    ensures ShareById(ShareById(rs, id, via, now), id, via, now) == ShareById(rs, id, via, now)
  {}

  /** `Report.findByIdAndDelete(id)`: every report but the one with that id. */
  function DeleteById(rs: seq<Report>, id: Id): (r: seq<Report>)
    ensures forall x :: x in r <==> x in rs && x.id != id
  {
    Filter(rs, (x: Report) => x.id != id)
  }

  lemma DeleteByIdValid(rs: seq<Report>, nextId: nat, id: Id)
    requires ReportsValid(rs, nextId)
    ensures ReportsValid(DeleteById(rs, id), nextId)
  {}
}

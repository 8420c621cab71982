/** backend/controllers/notificationController.js: the low-attendance
    selection of `getLowAttendanceStudents` and the three alert handlers
    (SMS, WhatsApp, email) that run the same selection and send one alert per
    selected student. The outbound transport is a parameter. */
module NotificationController {
  import opened Util
  import opened Api
  import opened AttendanceModel
  import opened StudentModel
  import opened ClassModel
  import opened ReportModel
  import opened ReportGenerator
  import opened NotificationService
  import opened Store
  import ReportController
  import AttendanceController

  const DEFAULT_THRESHOLD: int := 75
  const CLASS_NOT_FOUND: string := "Class not found"
  const NO_PHONE: string := "No phone number available"
  const NO_EMAIL: string := "No email available"
  /** The message of the TypeError thrown by `r.student._id` when the
      populated student of a record no longer exists. */
  const NULL_STUDENT: string := "Cannot read properties of null (reading '_id')"

  // ---------------------------------------------------------------------
  // One student's days
  // ---------------------------------------------------------------------

  /** The outcome of `records.find(...)` on populated records: the record,
      `undefined`, or the exception of a dereferenced null student. */
  datatype Scan = Found(record: Record) | Missing | Crash

  /** Every record of `rs` refers to a stored student, so population never
      yields null. */
  predicate Resolved(rs: seq<Record>, students: seq<Student>) {
    forall x :: x in rs ==> HasStudent(students, x.student)
  }

  /** Record `j` is the first dangling one, and no record before it is the
      student's own: the scan reaches it and throws. */
  predicate ThrowsAt(rs: seq<Record>, sid: Id, students: seq<Student>, j: int) {
    && 0 <= j < |rs|
    && !HasStudent(students, rs[j].student)
    && forall i :: 0 <= i < j ==> rs[i].student != sid && HasStudent(students, rs[i].student)
  }

  /** `records.find(r => r.student._id.toString() === sid)` after
      `populate("records.student")`: records are looked at in order, and one
      whose student does not exist throws before anything after it is seen.
      So the scan throws exactly when a dangling record comes before the
      first record of the student and before any other dangling one. */
  function ScanRecords(rs: seq<Record>, sid: Id, students: seq<Student>): (r: Scan)
    ensures r.Found? ==> r.record in rs && r.record.student == sid
    ensures r.Crash? ==> !Resolved(rs, students)
    ensures r.Crash? <==> exists j :: ThrowsAt(rs, sid, students, j)
    ensures Resolved(rs, students) ==>
      match ReportController.FirstRecord(rs, sid)
      case None => r == Missing
      case Some(x) => r == Found(x)
  {
    if rs == [] then Missing
    else if !HasStudent(students, rs[0].student) then
      assert ThrowsAt(rs, sid, students, 0);
      Crash
    else if rs[0].student == sid then Found(rs[0])
    else
      assert forall x :: x in rs[1..] ==> x in rs;
      var r := ScanRecords(rs[1..], sid, students);
      ScanShift(rs, sid, students);
      r
  }

  /** Past a resolved record of another student, the record the scan throws
      at moves one place along. */
  lemma ScanShift(rs: seq<Record>, sid: Id, students: seq<Student>)
    requires rs != [] && HasStudent(students, rs[0].student) && rs[0].student != sid
    ensures (exists j :: ThrowsAt(rs, sid, students, j)) <==> (exists j :: ThrowsAt(rs[1..], sid, students, j))
  {
    var t := rs[1..];
    if j :| ThrowsAt(rs, sid, students, j) {
      assert j > 0;
      assert forall i :: 0 <= i < j - 1 ==> t[i] == rs[i + 1];
      assert ThrowsAt(t, sid, students, j - 1);
    }
    if j :| ThrowsAt(t, sid, students, j) {
      assert forall i :: 1 <= i < j + 1 ==> rs[i] == t[i - 1];
      assert ThrowsAt(rs, sid, students, j + 1);
    }
  }

  /** A record of a deleted student anywhere ahead of the student's own
      records makes the scan throw, although the report code finds the
      student's record when there is one. */
  lemma {:induction false} DanglingRecordThrows(rs: seq<Record>, j: nat, sid: Id, students: seq<Student>)
    requires j < |rs| && !HasStudent(students, rs[j].student)
    requires forall i :: 0 <= i < j ==> rs[i].student != sid
    ensures ScanRecords(rs, sid, students) == Crash
    ensures AttendanceController.Referenced(rs, sid) ==> ReportController.FirstRecord(rs, sid).Some?
  {
    if j > 0 && HasStudent(students, rs[0].student) {
      assert forall i :: 0 <= i < j - 1 ==> rs[1..][i] == rs[i + 1];
      DanglingRecordThrows(rs[1..], j - 1, sid, students);
    }
  }

  /** The class's attendance documents, all dates, in stored order. */
  function ClassDocs(docs: seq<Attendance>, classId: Id): (r: seq<Attendance>)
    ensures forall d :: d in r <==> d in docs && d.classId == classId
  {
    Filter(docs, (d: Attendance) => d.classId == classId)
  }

  /** `attendances.map(find).filter(non-null)`: the student's record on each
      day that has one, or `None` when some day's scan throws. */
  function StudentDays(docs: seq<Attendance>, sid: Id, students: seq<Student>): (r: Option<seq<Record>>)
    ensures r.Some? ==> |r.value| <= |docs|
  {
    if docs == [] then Some([])
    else
      var init := docs[..|docs| - 1];
      assert docs == init + [docs[|docs| - 1]];
      var last := ScanRecords(docs[|docs| - 1].records, sid, students);
      match StudentDays(init, sid, students)
      case None => None
      case Some(rs) =>
        if last.Crash? then None
        else Some(rs + (if last.Found? then [last.record] else []))
  }

  /** The days are lost exactly when the scan of some day's records throws. */
  lemma {:induction false} StudentDaysThrows(docs: seq<Attendance>, sid: Id, students: seq<Student>)
    ensures StudentDays(docs, sid, students).None?
            <==> exists d :: d in docs && ScanRecords(d.records, sid, students).Crash?
  {
    if docs != [] {
      var init := docs[..|docs| - 1];
      assert docs == init + [docs[|docs| - 1]];
      StudentDaysThrows(init, sid, students);
    }
  }

  /** Every record of every document refers to a stored student. */
  predicate AllResolved(docs: seq<Attendance>, students: seq<Student>) {
    forall d :: d in docs ==> Resolved(d.records, students)
  }

  /** On documents without dangling records the selection sees exactly the
      report's per-day entries with the nulls removed. */
  lemma {:induction false} StudentDaysAgree(docs: seq<Attendance>, sid: Id, students: seq<Student>)
    requires AllResolved(docs, students)
    ensures StudentDays(docs, sid, students) == Some(NonNull(ReportController.DayEntries(docs, sid)))
  {
    if docs != [] {
      var init := docs[..|docs| - 1];
      var d := docs[|docs| - 1];
      assert d in docs;
      assert AllResolved(init, students) by {
        forall e | e in init ensures Resolved(e.records, students) {
          assert e in docs;
        }
      }
      StudentDaysAgree(init, sid, students);
      var e := ReportController.FirstRecord(d.records, sid);
      ReportController.DayEntriesSnoc(docs, sid);
      NonNullAppend(ReportController.DayEntries(init, sid), [e]);
      assert NonNull([e]) == NonNull([]) + (if e.Some? then [e.value] else []) by {
        assert [e][..0] == [];
      }
    }
  }

  // ---------------------------------------------------------------------
  // Attended days and the percentage
  // ---------------------------------------------------------------------

  /** Present and Late both count as attended. */
  function Attended(rs: seq<Record>): nat {
    CountStatus(rs, PRESENT) + CountStatus(rs, LATE)
  }

  /** The `validRecords.forEach` loop that counts attended days. */
  method CountAttended(rs: seq<Record>) returns (presentDays: nat)
    ensures presentDays == Attended(rs)
    ensures presentDays <= |rs|
  {
    presentDays := 0;
    var i := 0;
    while i < |rs|
      invariant 0 <= i <= |rs|
      invariant presentDays == Attended(rs[..i])
    {
      assert rs[..i + 1][..i] == rs[..i];
      if rs[i].status == PRESENT || rs[i].status == LATE {
        presentDays := presentDays + 1;
      }
      i := i + 1;
    }
    assert rs[..i] == rs;
    StatusCountsPartition(rs);
  }

  datatype Assessment = Assessment(presentDays: nat, totalDays: nat, percentage: int)

  /** A student's attended days, days with a record, and integer percentage;
      `None` when the scan throws. */
  function AssessSpec(s: Student, docs: seq<Attendance>, students: seq<Student>): (r: Option<Assessment>)
    ensures r.None? <==> StudentDays(docs, s.id, students).None?
    ensures r.Some? ==> r.value.totalDays == |StudentDays(docs, s.id, students).value| <= |docs|
  {
    match StudentDays(docs, s.id, students)
    case None => None
    case Some(rs) =>
      var present := Attended(rs);
      Some(Assessment(present, |rs|, CalculateAttendancePercentage(present, |rs|)))
  }

  /** The attended days never exceed the days, so the percentage is in [0, 100]. */
  lemma AssessBounds(s: Student, docs: seq<Attendance>, students: seq<Student>)
    requires AssessSpec(s, docs, students).Some?
    ensures var a := AssessSpec(s, docs, students).value;
      a.presentDays <= a.totalDays && 0 <= a.percentage <= 100
  {
    StatusCountsPartition(StudentDays(docs, s.id, students).value);
  }

  /** The assessment of a scan that did not throw, given its attended days
      `a` and its days `t`. */
  lemma AssessOfDays(s: Student, docs: seq<Attendance>, students: seq<Student>, rs: seq<Record>, a: nat, t: nat)
    requires StudentDays(docs, s.id, students) == Some(rs)
    requires a == Attended(rs) && t == |rs|
    ensures AssessSpec(s, docs, students) == Some(Assessment(a, t, CalculateAttendancePercentage(a, t)))
  {}

  /** The report's statistics count the same days and attended days. */
  lemma AggregateAttended(entries: seq<Option<Record>>)
    ensures var st := Aggregate(Some(entries));
      st.presentDays + st.lateDays == Attended(NonNull(entries)) && st.totalDays == |NonNull(entries)|
  {
    assert Entries(Some(entries)) == entries;
  }

  /** On documents without dangling records the selection counts the same
      days and attended days as the student's report statistics. */
  lemma AssessAgreesWithReport(s: Student, docs: seq<Attendance>, students: seq<Student>)
    requires AllResolved(docs, students)
    ensures var st := Aggregate(Some(ReportController.DayEntries(docs, s.id)));
      && st.totalDays == |ReportController.DaysWith(docs, s.id)|
      && AssessSpec(s, docs, students)
         == Some(Assessment(st.presentDays + st.lateDays, st.totalDays,
                            CalculateAttendancePercentage(st.presentDays + st.lateDays, st.totalDays)))
  {
    var entries := ReportController.DayEntries(docs, s.id);
    StudentDaysAgree(docs, s.id, students);
    ReportController.DayEntriesCountDays(docs, s.id);
    AggregateAttended(entries);
    var st := Aggregate(Some(entries));
    AssessOfDays(s, docs, students, NonNull(entries), st.presentDays + st.lateDays, st.totalDays);
  }

  /** One iteration's statistics, computed as the source does. */
  method Assess(s: Student, docs: seq<Attendance>, students: seq<Student>) returns (a: Option<Assessment>)
    ensures a == AssessSpec(s, docs, students)
  {
    var days := StudentDays(docs, s.id, students);
    if days.None? {
      return None;
    }
    var presentDays := CountAttended(days.value);
    var totalDays := |days.value|;
    a := Some(Assessment(presentDays, totalDays, CalculateAttendancePercentage(presentDays, totalDays)));
  }

  /** `percentage < threshold && totalDays > 0`. */
  predicate Selected(a: Assessment, threshold: int) {
    a.percentage < threshold && a.totalDays > 0
  }

  /** A student without a single recorded day is never selected, whatever the
      threshold. */
  lemma NoHistoryNeverSelected(s: Student, docs: seq<Attendance>, students: seq<Student>, threshold: int)
    requires AssessSpec(s, docs, students).Some?
    requires forall d :: d in docs ==> !AttendanceController.Referenced(d.records, s.id)
    ensures !Selected(AssessSpec(s, docs, students).value, threshold)
  {
    NoHistoryNoDays(docs, s.id, students);
  }

  lemma {:induction false} NoHistoryNoDays(docs: seq<Attendance>, sid: Id, students: seq<Student>)
    requires StudentDays(docs, sid, students).Some?
    requires forall d :: d in docs ==> !AttendanceController.Referenced(d.records, sid)
    ensures StudentDays(docs, sid, students) == Some([])
  {
    if docs != [] {
      var init := docs[..|docs| - 1];
      assert forall d :: d in init ==> d in docs;
      NoHistoryNoDays(init, sid, students);
      assert docs[|docs| - 1] in docs;
    }
  }

  /** Raising the threshold keeps every selected student selected. */
  lemma SelectedMonotone(a: Assessment, t1: int, t2: int)
    requires t1 <= t2 && Selected(a, t1)
    ensures Selected(a, t2)
  {}

  // ---------------------------------------------------------------------
  // getLowAttendanceStudents
  // ---------------------------------------------------------------------

  /** One element of `lowAttendanceStudents`. `student.parentPhone` is not a
      field of the schema, so the parent phone is always `phoneNumber`. */
  datatype LowEntry = LowEntry(
    studentId: Id,
    name: string,
    rollNumber: string,
    email: string,
    phoneNumber: string,
    parentPhone: string,
    parentEmail: string,
    presentDays: nat,
    totalDays: nat,
    percentage: int)

  function EntryOf(s: Student, a: Assessment): (e: LowEntry)
    ensures e.studentId == s.id && e.parentPhone == s.phoneNumber
    ensures e.name == s.name && e.rollNumber == s.rollNumber && e.email == s.email && e.phoneNumber == s.phoneNumber
    ensures e.parentEmail == (if s.parentEmail != [] then s.parentEmail else s.email)
    ensures e.presentDays == a.presentDays && e.totalDays == a.totalDays && e.percentage == a.percentage
  {
    LowEntry(s.id, s.name, s.rollNumber, s.email, s.phoneNumber, s.phoneNumber,
             if s.parentEmail != [] then s.parentEmail else s.email,
             a.presentDays, a.totalDays, a.percentage)
  }

  /** The selection over `cands` in order: `None` when some candidate's scan
      throws, otherwise the entries of exactly the selected candidates. */
  function LowList(cands: seq<Student>, docs: seq<Attendance>, students: seq<Student>, threshold: int)
    : (r: Option<seq<LowEntry>>)
    ensures r.Some? ==> |r.value| <= |cands|
  {
    if cands == [] then Some([])
    else
      var init := cands[..|cands| - 1];
      var s := cands[|cands| - 1];
      match LowList(init, docs, students, threshold)
      case None => None
      case Some(es) =>
        match AssessSpec(s, docs, students)
        case None => None
        case Some(a) => Some(es + (if Selected(a, threshold) then [EntryOf(s, a)] else []))
  }

  /** The selection throws exactly when some candidate's scan throws;
      otherwise it lists exactly the selected candidates. */
  lemma {:induction false} LowListSelects(cands: seq<Student>, docs: seq<Attendance>, students: seq<Student>, threshold: int)
    ensures var r := LowList(cands, docs, students, threshold);
      && (r.None? <==> exists s :: s in cands && AssessSpec(s, docs, students).None?)
      && (r.Some? ==> forall e :: e in r.value ==>
            exists s :: s in cands && AssessSpec(s, docs, students).Some?
              && Selected(AssessSpec(s, docs, students).value, threshold)
              && e == EntryOf(s, AssessSpec(s, docs, students).value))
      && (r.Some? ==> forall s :: s in cands && Selected(AssessSpec(s, docs, students).value, threshold) ==>
            EntryOf(s, AssessSpec(s, docs, students).value) in r.value)
  {
    if cands != [] {
      var init := cands[..|cands| - 1];
      var s := cands[|cands| - 1];
      assert cands == init + [s];
      LowListSelects(init, docs, students, threshold);
    }
  }

  lemma LowListSnoc(cands: seq<Student>, s: Student, docs: seq<Attendance>, students: seq<Student>, threshold: int)
    ensures LowList(cands + [s], docs, students, threshold) ==
      match LowList(cands, docs, students, threshold)
      case None => None
      case Some(es) =>
        match AssessSpec(s, docs, students)
        case None => None
        case Some(a) => Some(es + (if Selected(a, threshold) then [EntryOf(s, a)] else []))
  {
    assert (cands + [s])[..|cands|] == cands;
  }

  /** Every listed student is below the threshold and has some history. */
  lemma LowListBelowThreshold(cands: seq<Student>, docs: seq<Attendance>, students: seq<Student>, threshold: int)
    requires LowList(cands, docs, students, threshold).Some?
    ensures forall e :: e in LowList(cands, docs, students, threshold).value ==>
      e.percentage < threshold && 0 < e.totalDays <= |docs|
  {
    LowListSelects(cands, docs, students, threshold);
  }

  datatype LowAttendanceData = LowAttendanceData(
    classId: Id,
    className: string,
    classCode: string,
    threshold: int,
    lowAttendanceStudents: seq<LowEntry>,
    count: nat)

  function ThresholdOr(threshold: Option<int>): int {
    match threshold
    case None => DEFAULT_THRESHOLD
    case Some(t) => t
  }

  /** `getLowAttendanceStudents`: the roster's students below the threshold,
      with their contacts and statistics over every attendance document of the
      class. */
  method GetLowAttendanceStudents(db: Database, classId: Id, threshold: Option<int>)
    returns (r: Result<LowAttendanceData>)
    ensures FindClass(db.classes, classId).None? ==> r == Err(NotFound(CLASS_NOT_FOUND))
    ensures FindClass(db.classes, classId).Some? ==>
      var c := db.classes[FindClass(db.classes, classId).value];
      var th := ThresholdOr(threshold);
      var l := LowList(Roster(db.students, classId), ClassDocs(db.attendances, classId), db.students, th);
      r == (if l.None? then Err(ServerError(NULL_STUDENT))
            else Ok(LowAttendanceData(c.id, c.className, c.classCode, th, l.value, |l.value|)))
  {
    var found := FindClass(db.classes, classId);
    if found.None? {
      return Err(NotFound(CLASS_NOT_FOUND));
    }
    var c := db.classes[found.value];
    var th := ThresholdOr(threshold);
    var students := db.students;
    var roster := Roster(students, classId);
    var docs := ClassDocs(db.attendances, classId);
    var low: seq<LowEntry> := [];
    var i := 0;
    while i < |roster|
      invariant 0 <= i <= |roster|
      invariant LowList(roster[..i], docs, students, th) == Some(low)
    {
      var s := roster[i];
      assert roster[..i + 1] == roster[..i] + [s];
      LowListSnoc(roster[..i], s, docs, students, th);
      var a := Assess(s, docs, students);
      if a.None? {
        assert s in roster;
        LowListSelects(roster, docs, students, th);
        return Err(ServerError(NULL_STUDENT));
      }
      if Selected(a.value, th) {
        low := low + [EntryOf(s, a.value)];
      } else {
        assert low + [] == low;
      }
      i := i + 1;
    }
    assert roster[..i] == roster;
    r := Ok(LowAttendanceData(c.id, c.className, c.classCode, th, low, |low|));
  }

  /** Once every record refers to a stored student (as `getAttendance` leaves
      a day after pruning), the selection cannot throw. */
  lemma ResolvedNeverThrows(cands: seq<Student>, docs: seq<Attendance>, students: seq<Student>, threshold: int)
    requires AllResolved(docs, students)
    ensures LowList(cands, docs, students, threshold).Some?
  {
    forall s | s in cands ensures AssessSpec(s, docs, students).Some? {
      StudentDaysAgree(docs, s.id, students);
    }
    LowListSelects(cands, docs, students, threshold);
  }

  // ---------------------------------------------------------------------
  // sendLowAttendanceSMS / WhatsApp / Email
  // ---------------------------------------------------------------------

  /** One element of the handlers' `results`: a student without a contact,
      or a send whose status is `sent` exactly when the transport succeeded. */
  datatype Alert =
    | Failed(studentName: string, error: string)
    | Attempted(studentName: string, target: string, percentage: int, sent: bool)

  /** The address an alert for a listed student goes to: the parent phone for
      SMS and WhatsApp, the parent email (or the student's) for email. */
  function Target(e: LowEntry, channel: Channel): string {
    if channel == Email then e.parentEmail else e.parentPhone
  }

  /** The alert for one selected student. `deliver(target, id)` is the
      transport's success for the alert about student `id` sent to `target`. */
  function AlertFor(e: LowEntry, channel: Channel, deliver: (string, Id) -> bool): (r: Alert)
    ensures Target(e, channel) == [] ==>
      r == Failed(e.name, if channel == Email then NO_EMAIL else NO_PHONE)
    ensures Target(e, channel) != [] ==>
      r.Attempted? && r.studentName == e.name && r.target == Target(e, channel) && r.percentage == e.percentage
      && (r.sent <==> deliver(Target(e, channel), e.studentId))
  {
    var t := Target(e, channel);
    if t == [] then Failed(e.name, if channel == Email then NO_EMAIL else NO_PHONE)
    else Attempted(e.name, t, e.percentage, deliver(t, e.studentId))
  }

  /** The addresses the transport was called with, in order. */
  function Targets(alerts: seq<Alert>): seq<string> {
    if alerts == [] then []
    else
      var last := alerts[|alerts| - 1];
      Targets(alerts[..|alerts| - 1]) + (if last.Attempted? then [last.target] else [])
  }

  /** The loop's state: the results so far, the sends performed so far, and
      whether an exception ended it. Sends made before an exception stay made. */
  datatype Run = Run(results: seq<Alert>, attempts: seq<string>, crashed: bool)

  function AlertRun(cands: seq<Student>, docs: seq<Attendance>, students: seq<Student>, threshold: int,
                    channel: Channel, deliver: (string, Id) -> bool): (r: Run)
  {
    if cands == [] then Run([], [], false)
    else
      var init := cands[..|cands| - 1];
      var s := cands[|cands| - 1];
      assert cands == init + [s];
      var prev := AlertRun(init, docs, students, threshold, channel, deliver);
      if prev.crashed then prev
      else
        match AssessSpec(s, docs, students)
        case None => prev.(crashed := true)
        case Some(a) =>
          if !Selected(a, threshold) then prev
          else
            var alert := AlertFor(EntryOf(s, a), channel, deliver);
            prev.(results := prev.results + [alert],
                  attempts := prev.attempts + (if alert.Attempted? then [alert.target] else []))
  }

  /** The transport is called once per attempted alert, with that alert's
      address, in the order of the results, even when the run throws. */
  lemma {:induction false} AttemptsAreTargets(cands: seq<Student>, docs: seq<Attendance>, students: seq<Student>,
                                              threshold: int, channel: Channel, deliver: (string, Id) -> bool)
    ensures var run := AlertRun(cands, docs, students, threshold, channel, deliver);
      run.attempts == Targets(run.results)
  {
    if cands != [] {
      var init := cands[..|cands| - 1];
      var s := cands[|cands| - 1];
      assert cands == init + [s];
      AttemptsAreTargets(init, docs, students, threshold, channel, deliver);
      AlertRunSnoc(init, s, docs, students, threshold, channel, deliver);
      var prev := AlertRun(init, docs, students, threshold, channel, deliver);
      forall alert: Alert ensures Targets(prev.results + [alert])
                                  == Targets(prev.results) + (if alert.Attempted? then [alert.target] else []) {
        assert (prev.results + [alert])[..|prev.results|] == prev.results;
      }
    }
  }

  lemma AlertRunSnoc(cands: seq<Student>, s: Student, docs: seq<Attendance>, students: seq<Student>, threshold: int,
                     channel: Channel, deliver: (string, Id) -> bool)
    ensures var prev := AlertRun(cands, docs, students, threshold, channel, deliver);
      AlertRun(cands + [s], docs, students, threshold, channel, deliver) ==
        if prev.crashed then prev
        else
          match AssessSpec(s, docs, students)
          case None => prev.(crashed := true)
          case Some(a) =>
            if !Selected(a, threshold) then prev
            else
              var alert := AlertFor(EntryOf(s, a), channel, deliver);
              prev.(results := prev.results + [alert],
                    attempts := prev.attempts + (if alert.Attempted? then [alert.target] else []))
  {
    assert (cands + [s])[..|cands|] == cands;
  }

  /** The alert handlers send to exactly the students `getLowAttendanceStudents`
      lists for the same candidates and threshold, one alert each, in order. */
  lemma {:induction false} AlertsFollowLowList(cands: seq<Student>, docs: seq<Attendance>, students: seq<Student>,
                                               threshold: int, channel: Channel, deliver: (string, Id) -> bool)
    ensures var run := AlertRun(cands, docs, students, threshold, channel, deliver);
      var l := LowList(cands, docs, students, threshold);
      run.crashed == l.None?
      && (l.Some? ==>
            |run.results| == |l.value|
            && forall k :: 0 <= k < |l.value| ==> run.results[k] == AlertFor(l.value[k], channel, deliver))
  {
    if cands != [] {
      var init := cands[..|cands| - 1];
      var s := cands[|cands| - 1];
      assert cands == init + [s];
      AlertsFollowLowList(init, docs, students, threshold, channel, deliver);
      LowListSnoc(init, s, docs, students, threshold);
      AlertRunSnoc(init, s, docs, students, threshold, channel, deliver);
      var prev := AlertRun(init, docs, students, threshold, channel, deliver);
      var l := LowList(init, docs, students, threshold);
      if !prev.crashed {
        var a := AssessSpec(s, docs, students);
        if a.Some? {
          if Selected(a.value, threshold) {
            var e := EntryOf(s, a.value);
            var alert := AlertFor(e, channel, deliver);
            assert forall k :: 0 <= k < |l.value| + 1 ==>
              (prev.results + [alert])[k] == AlertFor((l.value + [e])[k], channel, deliver);
          } else {
            assert l.value + [] == l.value;
          }
        }
      }
    }
  }

  /** Once a candidate's scan throws, the later candidates change nothing:
      no further alert is recorded and no further send is made. */
  lemma {:induction false} AlertRunStops(cands: seq<Student>, rest: seq<Student>, docs: seq<Attendance>,
                                         students: seq<Student>, threshold: int, channel: Channel,
                                         deliver: (string, Id) -> bool)
    requires AlertRun(cands, docs, students, threshold, channel, deliver).crashed
    ensures AlertRun(cands + rest, docs, students, threshold, channel, deliver)
            == AlertRun(cands, docs, students, threshold, channel, deliver)
    decreases |rest|
  {
    if rest == [] {
      assert cands + rest == cands;
    } else {
      var init := rest[..|rest| - 1];
      AlertRunStops(cands, init, docs, students, threshold, channel, deliver);
      assert cands + rest == (cands + init) + [rest[|rest| - 1]];
      AlertRunSnoc(cands + init, rest[|rest| - 1], docs, students, threshold, channel, deliver);
    }
  }

  /** `studentIds`, when non-empty, narrows the roster to those students. */
  function Candidates(roster: seq<Student>, studentIds: seq<Id>): (r: seq<Student>)
    ensures studentIds == [] ==> r == roster
    ensures studentIds != [] ==> forall s :: s in r <==> s in roster && s.id in studentIds
  {
    if studentIds == [] then roster
    else Filter(roster, (s: Student) => s.id in studentIds)
  }

  /** One selected student's alert: a missing contact is recorded without
      calling the transport; otherwise the transport is called once. */
  method SendOne(e: LowEntry, channel: Channel, deliver: (string, Id) -> bool)
    returns (alert: Alert, sent: seq<string>)
    ensures alert == AlertFor(e, channel, deliver)
    ensures sent == (if alert.Attempted? then [alert.target] else [])
  {
    var target := Target(e, channel);
    if target == [] {
      return Failed(e.name, if channel == Email then NO_EMAIL else NO_PHONE), [];
    }
    var ok := deliver(target, e.studentId);
    alert := Attempted(e.name, target, e.percentage, ok);
    sent := [target];
  }

  /** A step of the alert loop at a candidate whose scan throws: the whole
      run stops there, keeping what it had recorded. */
  lemma AlertRunCrashStep(cands: seq<Student>, i: nat, docs: seq<Attendance>, students: seq<Student>,
                          threshold: int, channel: Channel, deliver: (string, Id) -> bool)
    requires i < |cands| && AssessSpec(cands[i], docs, students).None?
    requires !AlertRun(cands[..i], docs, students, threshold, channel, deliver).crashed
    ensures AlertRun(cands, docs, students, threshold, channel, deliver)
            == AlertRun(cands[..i], docs, students, threshold, channel, deliver).(crashed := true)
  {
    assert cands[..i + 1] == cands[..i] + [cands[i]];
    AlertRunSnoc(cands[..i], cands[i], docs, students, threshold, channel, deliver);
    AlertRunStops(cands[..i + 1], cands[i + 1..], docs, students, threshold, channel, deliver);
    assert cands[..i + 1] + cands[i + 1..] == cands;
  }

  /** A step of the alert loop at a candidate whose scan succeeds: a selected
      candidate adds its alert and its send, any other adds nothing. */
  lemma AlertRunNextStep(cands: seq<Student>, i: nat, a: Assessment, docs: seq<Attendance>, students: seq<Student>,
                         threshold: int, channel: Channel, deliver: (string, Id) -> bool)
    requires i < |cands| && AssessSpec(cands[i], docs, students) == Some(a)
    requires !AlertRun(cands[..i], docs, students, threshold, channel, deliver).crashed
    ensures var prev := AlertRun(cands[..i], docs, students, threshold, channel, deliver);
      AlertRun(cands[..i + 1], docs, students, threshold, channel, deliver) ==
        if !Selected(a, threshold) then prev
        else
          var alert := AlertFor(EntryOf(cands[i], a), channel, deliver);
          prev.(results := prev.results + [alert],
                attempts := prev.attempts + (if alert.Attempted? then [alert.target] else []))
  {
    assert cands[..i + 1] == cands[..i] + [cands[i]];
    AlertRunSnoc(cands[..i], cands[i], docs, students, threshold, channel, deliver);
  }

  /** The `for (const student of students)` loop of the alert handlers. */
  method RunAlerts(cands: seq<Student>, docs: seq<Attendance>, students: seq<Student>, threshold: int,
                   channel: Channel, deliver: (string, Id) -> bool)
    returns (results: seq<Alert>, attempts: seq<string>, crashed: bool)
    ensures Run(results, attempts, crashed) == AlertRun(cands, docs, students, threshold, channel, deliver)
  {
    results, attempts := [], [];
    var i := 0;
    while i < |cands|
      invariant 0 <= i <= |cands|
      invariant AlertRun(cands[..i], docs, students, threshold, channel, deliver) == Run(results, attempts, false)
    {
      var a := Assess(cands[i], docs, students);
      if a.None? {
        AlertRunCrashStep(cands, i, docs, students, threshold, channel, deliver);
        return results, attempts, true;
      }
      AlertRunNextStep(cands, i, a.value, docs, students, threshold, channel, deliver);
      if Selected(a.value, threshold) {
        var alert, sent := SendOne(EntryOf(cands[i], a.value), channel, deliver);
        results, attempts := results + [alert], attempts + sent;
      }
      i := i + 1;
    }
    assert cands[..i] == cands;
    crashed := false;
  }

  /** `sendLowAttendanceSMS`, `sendLowAttendanceWhatsApp` and
      `sendLowAttendanceEmail`, which differ only in the channel: `attempts`
      lists the transport calls made, including those made before an
      exception turned the answer into a 500. */
  method SendLowAttendanceAlerts(db: Database, classId: Id, channel: Channel, threshold: Option<int>,
                                 studentIds: seq<Id>, deliver: (string, Id) -> bool)
    returns (r: Result<seq<Alert>>, attempts: seq<string>)
    ensures FindClass(db.classes, classId).None? ==> r == Err(NotFound(CLASS_NOT_FOUND)) && attempts == []
    ensures FindClass(db.classes, classId).Some? ==>
      var run := AlertRun(Candidates(Roster(db.students, classId), studentIds),
                          ClassDocs(db.attendances, classId), db.students,
                          ThresholdOr(threshold), channel, deliver);
      attempts == run.attempts
      && r == (if run.crashed then Err(ServerError(NULL_STUDENT)) else Ok(run.results))
  {
    if FindClass(db.classes, classId).None? {
      return Err(NotFound(CLASS_NOT_FOUND)), [];
    }
    var cands := Candidates(Roster(db.students, classId), studentIds);
    var results, crashed;
    results, attempts, crashed := RunAlerts(cands, ClassDocs(db.attendances, classId), db.students,
                                            ThresholdOr(threshold), channel, deliver);
    r := if crashed then Err(ServerError(NULL_STUDENT)) else Ok(results);
  }
}

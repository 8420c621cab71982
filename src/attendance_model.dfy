/** The Attendance schema: one document per class and calendar day holding one
    status record per student, plus the one-way `isLocked` flag. Instants are
    milliseconds on the server's local time line. */
module AttendanceModel {
  import opened Util

  const DAY_MS: int := 86400000

  const PRESENT: string := "Present"
  const ABSENT: string := "Absent"
  const LATE: string := "Late"
  const LEAVE: string := "Leave"

  /** The `status` enum. */
  predicate IsStatus(s: string) {
    s == PRESENT || s == ABSENT || s == LATE || s == LEAVE
  }

  /** A stored record: the student reference is required, so it is always there. */
  datatype Record = Record(student: Id, status: string, remarks: string)

  datatype Attendance = Attendance(
    id: Id,
    classId: Id,
    date: int,
    records: seq<Record>,
    teacher: Id,
    isLocked: bool)

  /** A record as a request body carries it, before the schema casts it. */
  datatype RecordInput = RecordInput(student: Option<Id>, status: string, remarks: string)

  predicate IsDayStart(t: int) { t % DAY_MS == 0 }

  /** `setHours(0, 0, 0, 0)`: the first millisecond of the day holding `t`. */
  function StartOfDay(t: int): (d: int)
    ensures IsDayStart(d) && d <= t < d + DAY_MS
  {
    t - t % DAY_MS
  }

  /** `setHours(23, 59, 59, 999)`: the last millisecond of that day. */
  function EndOfDay(t: int): (e: int)
    ensures e == StartOfDay(t) + DAY_MS - 1
  {
    StartOfDay(t) + DAY_MS - 1
  }

  /** The `date: { $gte: startDate, $lte: endDate }` filter for the day of `t`. */
  predicate InDay(date: int, t: int) { StartOfDay(t) <= date <= EndOfDay(t) }

  /** A stored date (always a day start) lies in the day of `t` exactly when it
      is that day's start. */
  lemma InDayIffStart(date: int, t: int)
    requires IsDayStart(date)
    ensures InDay(date, t) <==> date == StartOfDay(t)
  {
    var s := StartOfDay(t);
    if InDay(date, t) {
      assert date - s == (date / DAY_MS - s / DAY_MS) * DAY_MS;
    }
  }

  /** The schema default for `date`: the start of the current day. */
  function DefaultDate(now: int): (d: int)
    ensures IsDayStart(d) && d <= now < d + DAY_MS
  {
    StartOfDay(now)
  }

  /** What the schema accepts of a record: a status from the enum and trimmed remarks. */
  predicate RecordValid(r: Record) {
    IsStatus(r.status) && r.remarks == Trim(r.remarks)
  }

  /** Casting and validating request records as `Attendance.create` and `save`
      do: remarks are trimmed; a record without a student or with a status
      outside the enum fails the whole document. */
  predicate Castable(x: RecordInput) { x.student.Some? && IsStatus(x.status) }

  function CastRecord(x: RecordInput): (r: Record)
    requires Castable(x)
    ensures RecordValid(r) && r.student == x.student.value && r.status == x.status
  {
    TrimIdempotent(x.remarks);
    Record(x.student.value, x.status, Trim(x.remarks))
  }

  function CastRecords(inputs: seq<RecordInput>): (r: Option<seq<Record>>)
    ensures r.Some? <==> forall k :: 0 <= k < |inputs| ==> Castable(inputs[k])
    ensures r.Some? ==> |r.value| == |inputs|
    ensures r.Some? ==> forall k :: 0 <= k < |inputs| ==>
              r.value[k].student == inputs[k].student.value && r.value[k].status == inputs[k].status
    ensures r.Some? ==> forall x :: x in r.value ==> RecordValid(x)
  {
    if forall k :: 0 <= k < |inputs| ==> Castable(inputs[k]) then
      Some(seq(|inputs|, k requires 0 <= k < |inputs| => CastRecord(inputs[k])))
    else None
  }

  /** The stored collection: every document has a day-start date and schema-valid
      records, and the unique index on (class, date) and the _id key hold. */
  ghost predicate CollectionValid(docs: seq<Attendance>, nextId: nat) {
    && (forall d :: d in docs ==> d.id < nextId && IsDayStart(d.date))
    && (forall d, r :: d in docs && r in d.records ==> RecordValid(r))
    && (forall d, e :: d in docs && e in docs && d.classId == e.classId && d.date == e.date ==> d == e)
    && (forall i, j :: 0 <= i < |docs| && 0 <= j < |docs| && i != j ==> docs[i].id != docs[j].id)
  }

  /** At most one stored document answers a (class, day) query. */
  lemma OneDocumentPerDay(docs: seq<Attendance>, nextId: nat, classId: Id, t: int, d: Attendance, e: Attendance)
    requires CollectionValid(docs, nextId)
    requires d in docs && e in docs && d.classId == classId && e.classId == classId
    requires InDay(d.date, t) && InDay(e.date, t)
    ensures d == e
  {
    InDayIffStart(d.date, t);
    InDayIffStart(e.date, t);
  }

  /** Index of the first document of `classId` dated within the day of `t`
      (`Attendance.findOne({ class, date: { $gte, $lte } })`). */
  function FindDay(docs: seq<Attendance>, classId: Id, t: int): (r: Option<nat>)
    ensures r.None? <==> forall k :: 0 <= k < |docs| ==> !(docs[k].classId == classId && InDay(docs[k].date, t))
    ensures r.Some? ==> r.value < |docs| && docs[r.value].classId == classId && InDay(docs[r.value].date, t)
    ensures r.Some? ==> forall k :: 0 <= k < r.value ==> !(docs[k].classId == classId && InDay(docs[k].date, t))
  {
    if docs == [] then None
    else if docs[0].classId == classId && InDay(docs[0].date, t) then Some(0)
    else match FindDay(docs[1..], classId, t)
      case None => None
      case Some(k) => Some(k + 1)
  }

  /** Replacing a document by one with the same keys and valid records keeps
      the collection valid. */
  lemma ReplaceDocValid(docs: seq<Attendance>, nextId: nat, k: nat, d: Attendance)
    requires CollectionValid(docs, nextId) && k < |docs|
    requires d.id == docs[k].id && d.classId == docs[k].classId && d.date == docs[k].date
    requires forall r :: r in d.records ==> RecordValid(r)
    ensures CollectionValid(docs[k := d], nextId)
  {
    var r := docs[k := d];
    forall x, y | x in r && y in r && x.classId == y.classId && x.date == y.date
      ensures x == y
    {
      var i :| 0 <= i < |r| && r[i] == x;
      var j :| 0 <= j < |r| && r[j] == y;
      if i != k && j != k {
        assert docs[i] in docs && docs[j] in docs;
      }
    }
  }

  /** Adding a document with a fresh id, a day-start date, valid records and
      no other document for its class and day keeps the collection valid. */
  lemma InsertDocValid(docs: seq<Attendance>, nextId: nat, d: Attendance)
    requires CollectionValid(docs, nextId)
    requires d.id == nextId && IsDayStart(d.date)
    requires forall r :: r in d.records ==> RecordValid(r)
    requires forall e :: e in docs ==> !(e.classId == d.classId && e.date == d.date)
    ensures CollectionValid(docs + [d], nextId + 1)
  {
    var r := docs + [d];
    assert forall x :: x in r <==> x in docs || x == d;
    forall i, j | 0 <= i < |r| && 0 <= j < |r| && i != j ensures r[i].id != r[j].id {
      if i < |docs| { assert docs[i] in docs; }
      if j < |docs| { assert docs[j] in docs; }
    }
  }

  /** The day lookup only looks at classes and dates. */
  lemma {:induction false} FindDaySameKeys(docs: seq<Attendance>, k: nat, d: Attendance, classId: Id, t: int)
    requires k < |docs| && d.classId == docs[k].classId && d.date == docs[k].date
    ensures FindDay(docs[k := d], classId, t) == FindDay(docs, classId, t)
  {
    var r := docs[k := d];
    if k > 0 {
      assert r[1..] == docs[1..][k - 1 := d];
      FindDaySameKeys(docs[1..], k - 1, d, classId, t);
    } else {
      assert r[1..] == docs[1..];
    }
  }

  /** When the lookup finds nothing, no stored document has that class and
      that day's start as its date. */
  lemma FindDayNone(docs: seq<Attendance>, nextId: nat, classId: Id, t: int)
    requires CollectionValid(docs, nextId)
    requires FindDay(docs, classId, t).None?
    ensures forall e :: e in docs ==> !(e.classId == classId && e.date == StartOfDay(t))
  {
    forall e | e in docs && e.classId == classId ensures e.date != StartOfDay(t) {
      var j :| 0 <= j < |docs| && docs[j] == e;
      assert !InDay(docs[j].date, t);
    }
  }

  /** Dropping attendance documents keeps their ids pairwise distinct. */
  lemma {:induction false} FilterDocsValid(docs: seq<Attendance>, nextId: nat, p: Attendance -> bool)
    requires CollectionValid(docs, nextId)
    ensures CollectionValid(Filter(docs, p), nextId)
  {
    if docs != [] {
      var init := docs[..|docs| - 1];
      var d := docs[|docs| - 1];
      assert forall x :: x in init ==> x in docs;
      assert forall i, j :: 0 <= i < |init| && 0 <= j < |init| && i != j ==> init[i].id != init[j].id by {
        forall i, j | 0 <= i < |init| && 0 <= j < |init| && i != j ensures init[i].id != init[j].id {
          assert init[i] == docs[i] && init[j] == docs[j];
        }
      }
      assert CollectionValid(init, nextId);
      FilterDocsValid(init, nextId, p);
      var prev := Filter(init, p);
      var r := Filter(docs, p);
      assert r == prev + (if p(d) then [d] else []);
      forall i, j | 0 <= i < |r| && 0 <= j < |r| && i != j ensures r[i].id != r[j].id {
        if p(d) && (i == |prev| || j == |prev|) {
          var x := if i == |prev| then r[j] else r[i];
          assert x in prev;
          var k :| 0 <= k < |init| && init[k] == x;
          assert docs[k] == x && k != |docs| - 1;
        }
      }
    }
  }
}

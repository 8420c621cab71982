/** The Class schema: a course section owned by one teacher, identified by a
    globally unique class code that is stored upper-cased and trimmed. */
module ClassModel {
  import opened Util

  datatype ClassDoc = ClassDoc(
    id: Id,
    className: string,
    classCode: string,
    teacher: Id,
    section: string,
    academicYear: string,
    semester: int,
    totalStudents: int,
    isActive: bool)

  /** The fields `createClass` hands to `Class.create`; `None` is a field the
      request did not send, which takes the schema default. */
  datatype ClassInput = ClassInput(
    className: string,
    classCode: string,
    section: Option<string>,
    academicYear: string,
    semester: Option<int>)

  /** The fields an update request may set; `None` leaves the field alone. */
  datatype ClassPatch = ClassPatch(
    className: Option<string>,
    classCode: Option<string>,
    section: Option<string>,
    academicYear: Option<string>,
    semester: Option<int>,
    teacher: Option<Id>,
    totalStudents: Option<int>,
    isActive: Option<bool>)

  const DEFAULT_SECTION: string := "A"
  const DEFAULT_SEMESTER: int := 1

  predicate IsUpper(s: string) { forall k :: 0 <= k < |s| ==> UpperChar(s[k]) == s[k] }

  lemma UpperAsciiBlank(s: string)
    ensures IsBlank(UpperAscii(s)) <==> IsBlank(s)
  {
    var u := UpperAscii(s);
    assert forall k :: 0 <= k < |s| ==> (IsSpace(u[k]) <==> IsSpace(s[k]));
  }

  lemma UpperAsciiIsUpper(s: string)
    ensures IsUpper(UpperAscii(s))
  {}

  lemma TrimKeepsUpper(u: string)
    requires IsUpper(u)
    ensures IsUpper(Trim(u))
  {
    var r := Trim(u);
    forall k | 0 <= k < |r| ensures UpperChar(r[k]) == r[k] {
      assert r[k] in u;
      var j :| 0 <= j < |u| && u[j] == r[k];
    }
  }

  /** The `uppercase` then `trim` setters of `classCode`: the result is
      upper-case and trimmed, and empty exactly when the input is blank. */
  function NormalizeCode(s: string): (r: string)
    ensures IsUpper(r) && IsTrimmed(r)
    ensures r == [] <==> IsBlank(s)
  {
    var u := UpperAscii(s);
    UpperAsciiBlank(s);
    UpperAsciiIsUpper(s);
    TrimKeepsUpper(u);
    Trim(u)
  }

  /** An upper-case trimmed code passes through the setters unchanged. */
  lemma NormalizeCodeOfNormal(s: string)
    requires IsUpper(s) && IsTrimmed(s)
    ensures NormalizeCode(s) == s
  {
    var u := UpperAscii(s);
    assert |u| == |s|;
    assert forall k :: 0 <= k < |s| ==> u[k] == s[k];
    assert u == s;
    TrimmedIsFixed(s);
  }

  /** The setters leave a code alone exactly when it is already upper-case
      and trimmed; in particular normalising twice is normalising once. */
  lemma NormalizeCodeFixed(s: string)
    ensures NormalizeCode(s) == s <==> IsUpper(s) && IsTrimmed(s)
    ensures NormalizeCode(NormalizeCode(s)) == NormalizeCode(s)
  {
    if IsUpper(s) && IsTrimmed(s) {
      NormalizeCodeOfNormal(s);
    }
    NormalizeCodeOfNormal(NormalizeCode(s));
  }

  /** What the schema guarantees of a stored class: a trimmed non-empty name,
      a code its setters leave alone, and a year. */
  predicate ClassValid(c: ClassDoc) {
    && c.className != [] && IsTrimmed(c.className)
    && c.classCode != [] && IsUpper(c.classCode) && IsTrimmed(c.classCode)
    && c.academicYear != []
  }

  /** `Class.create`: casting and validating a new class owned by `teacher`.
      The name and code must be non-blank and the year non-empty; section,
      semester, the student counter and `isActive` take their defaults. */
  function CastClass(id: Id, x: ClassInput, teacher: Id): (r: Option<ClassDoc>)
    ensures r.Some? <==> !IsBlank(x.className) && !IsBlank(x.classCode) && x.academicYear != []
    ensures r.Some? ==> ClassValid(r.value)
    ensures r.Some? ==> var c := r.value;
      && c.id == id && c.teacher == teacher && c.classCode == NormalizeCode(x.classCode)
      && c.className == Trim(x.className) && c.academicYear == x.academicYear
      && c.section == (if x.section.Some? then x.section.value else DEFAULT_SECTION)
      && c.semester == (if x.semester.Some? then x.semester.value else DEFAULT_SEMESTER)
      && c.totalStudents == 0 && c.isActive
  {
    var name := Trim(x.className);
    var code := NormalizeCode(x.classCode);
    if name == [] || code == [] || x.academicYear == [] then None
    else
      Some(ClassDoc(id, name, code, teacher,
                    if x.section.Some? then x.section.value else DEFAULT_SECTION,
                    x.academicYear,
                    if x.semester.Some? then x.semester.value else DEFAULT_SEMESTER,
                    0, true))
  }

  function Pick<T>(o: Option<T>, old_: T): T {
    if o.Some? then o.value else old_
  }

  /** `findByIdAndUpdate(id, body, { runValidators: true })`: the setters run
      on the sent fields, and the required validators reject a name, code or
      year that ends up empty. Nothing else about the class changes. */
  function ApplyPatch(c: ClassDoc, p: ClassPatch): (r: Option<ClassDoc>)
    ensures r.Some? <==>
      && (p.className.None? || !IsBlank(p.className.value))
      && (p.classCode.None? || !IsBlank(p.classCode.value))
      && (p.academicYear.None? || p.academicYear.value != [])
    ensures ClassValid(c) && r.Some? ==> ClassValid(r.value)
    ensures r.Some? ==> r.value.id == c.id
    ensures r.Some? && p == ClassPatch(None, None, None, None, None, None, None, None) ==> r.value == c
  {
    var name := if p.className.Some? then Trim(p.className.value) else c.className;
    var code := if p.classCode.Some? then NormalizeCode(p.classCode.value) else c.classCode;
    if (p.className.Some? && name == []) || (p.classCode.Some? && code == [])
       || (p.academicYear.Some? && p.academicYear.value == []) then None
    else
      Some(ClassDoc(c.id, name, code, Pick(p.teacher, c.teacher), Pick(p.section, c.section),
                    Pick(p.academicYear, c.academicYear), Pick(p.semester, c.semester),
                    Pick(p.totalStudents, c.totalStudents), Pick(p.isActive, c.isActive)))
  }

  /** What an accepted update writes: a sent name goes through the trim
      setter, a sent code through the upper-case and trim setters, every other
      sent field is stored as sent, and every field not sent keeps its old
      value. */
  lemma ApplyPatchFields(c: ClassDoc, p: ClassPatch)
    requires ApplyPatch(c, p).Some?
    ensures var u := ApplyPatch(c, p).value;
      && (p.className.Some? ==> u.className == Trim(p.className.value))
      && (p.className.None? ==> u.className == c.className)
      && (p.classCode.Some? ==> u.classCode == NormalizeCode(p.classCode.value))
      && (p.classCode.None? ==> u.classCode == c.classCode)
      && (p.teacher.Some? ==> u.teacher == p.teacher.value) && (p.teacher.None? ==> u.teacher == c.teacher)
      && (p.section.Some? ==> u.section == p.section.value) && (p.section.None? ==> u.section == c.section)
      && (p.academicYear.Some? ==> u.academicYear == p.academicYear.value)
      && (p.academicYear.None? ==> u.academicYear == c.academicYear)
      && (p.semester.Some? ==> u.semester == p.semester.value) && (p.semester.None? ==> u.semester == c.semester)
      && (p.totalStudents.Some? ==> u.totalStudents == p.totalStudents.value)
      && (p.totalStudents.None? ==> u.totalStudents == c.totalStudents)
      && (p.isActive.Some? ==> u.isActive == p.isActive.value) && (p.isActive.None? ==> u.isActive == c.isActive)
  {}

  /** The stored collection: ids below the allocation counter and unique, the
      unique index on `classCode`, and every class schema-valid. */
  ghost predicate ClassesValid(cs: seq<ClassDoc>, nextId: nat) {
    && (forall c :: c in cs ==> c.id < nextId && ClassValid(c))
    && (forall c, d :: c in cs && d in cs && c.id == d.id ==> c == d)
    && (forall c, d :: c in cs && d in cs && c.classCode == d.classCode ==> c == d)
  }

  predicate CodeTaken(cs: seq<ClassDoc>, code: string) {
    exists c :: c in cs && c.classCode == code
  }

  /** `Class.findById`: the index of the class with that id. */
  function FindClass(cs: seq<ClassDoc>, id: Id): (r: Option<nat>)
    ensures r.None? <==> forall k :: 0 <= k < |cs| ==> cs[k].id != id
    ensures r.Some? ==> r.value < |cs| && cs[r.value].id == id
  {
    if cs == [] then None
    else if cs[|cs| - 1].id == id then Some(|cs| - 1)
    else FindClass(cs[..|cs| - 1], id)
  }

  function Bump(c: ClassDoc, id: Id, n: int): ClassDoc {
    if c.id == id then c.(totalStudents := c.totalStudents + n) else c
  }

  /** `Class.findByIdAndUpdate(id, { $inc: { totalStudents: n } })`: the class
      with that id, if any, has its counter moved by `n`; nothing else changes. */
  function IncTotal(cs: seq<ClassDoc>, id: Id, n: int): (r: seq<ClassDoc>)
    ensures |r| == |cs|
    ensures forall k :: 0 <= k < |cs| ==>
      r[k] == if cs[k].id == id then cs[k].(totalStudents := cs[k].totalStudents + n) else cs[k]
  {
    seq(|cs|, k requires 0 <= k < |cs| => Bump(cs[k], id, n))
  }

  lemma BumpKeeps(c: ClassDoc, id: Id, n: int)
    ensures Bump(c, id, n).id == c.id && Bump(c, id, n).classCode == c.classCode
    ensures ClassValid(c) ==> ClassValid(Bump(c, id, n))
  {}

  lemma InIncTotal(cs: seq<ClassDoc>, id: Id, n: int, c: ClassDoc) returns (k: nat)
    requires c in IncTotal(cs, id, n)
    ensures k < |cs| && c == Bump(cs[k], id, n)
  {
    k :| 0 <= k < |cs| && IncTotal(cs, id, n)[k] == c;
  }

  lemma IncTotalValid(cs: seq<ClassDoc>, nextId: nat, id: Id, n: int)
    requires ClassesValid(cs, nextId)
    ensures ClassesValid(IncTotal(cs, id, n), nextId)
  {
    var r := IncTotal(cs, id, n);
    forall c | c in r ensures c.id < nextId && ClassValid(c) {
      var k := InIncTotal(cs, id, n, c);
      BumpKeeps(cs[k], id, n);
      assert cs[k] in cs;
    }
    forall c, d | c in r && d in r && (c.id == d.id || c.classCode == d.classCode) ensures c == d {
      var i := InIncTotal(cs, id, n, c);
      var j := InIncTotal(cs, id, n, d);
      BumpKeeps(cs[i], id, n);
      BumpKeeps(cs[j], id, n);
      assert cs[i] in cs && cs[j] in cs;
    }
  }

  /** Moving the counter by `a` and then by `b` is moving it by `a + b`. */
  lemma IncTotalAdds(cs: seq<ClassDoc>, id: Id, a: int, b: int)
    ensures IncTotal(IncTotal(cs, id, a), id, b) == IncTotal(cs, id, a + b)
  {}

  /** An insert that passes the unique `classCode` index keeps the collection
      valid. */
  lemma InsertClassValid(cs: seq<ClassDoc>, nextId: nat, c: ClassDoc)
    requires ClassesValid(cs, nextId)
    requires ClassValid(c) && c.id == nextId && !CodeTaken(cs, c.classCode)
    ensures ClassesValid(cs + [c], nextId + 1)
  {
    var r := cs + [c];
    assert forall d :: d in r <==> d in cs || d == c;
    forall d | d in r ensures d.id < nextId + 1 && ClassValid(d) {
      if d != c { assert d in cs; }
    }
    forall d | d in cs ensures d.id != c.id && d.classCode != c.classCode {}
    forall d, e | d in r && e in r && d.id == e.id ensures d == e {
      if d != c && e != c { assert d in cs && e in cs; }
    }
    forall d, e | d in r && e in r && d.classCode == e.classCode ensures d == e {
      if d != c && e != c { assert d in cs && e in cs; }
    }
  }

  /** Some stored class other than `id` already holds `code`. */
  predicate CodeHeldByOther(cs: seq<ClassDoc>, id: Id, code: string) {
    exists d :: d in cs && d.id != id && d.classCode == code
  }

  /** `Class.findByIdAndUpdate(id, ...)`: the class with that id becomes `c`;
      every other class is left alone. */
  function ReplaceClass(cs: seq<ClassDoc>, id: Id, c: ClassDoc): (r: seq<ClassDoc>)
    ensures |r| == |cs|
    ensures forall k :: 0 <= k < |cs| ==> r[k] == if cs[k].id == id then c else cs[k]
  {
    seq(|cs|, k requires 0 <= k < |cs| => if cs[k].id == id then c else cs[k])
  }

  lemma InReplaceClass(cs: seq<ClassDoc>, id: Id, c: ClassDoc, x: ClassDoc)
    requires x in ReplaceClass(cs, id, c)
    ensures x == c || (x in cs && x.id != id)
  {
    var k :| 0 <= k < |cs| && ReplaceClass(cs, id, c)[k] == x;
  }

  /** An update that keeps the class schema-valid, keeps its id and does not
      take another class's code keeps the collection valid. */
  lemma ReplaceClassValid(cs: seq<ClassDoc>, nextId: nat, id: Id, c: ClassDoc)
    requires ClassesValid(cs, nextId) && id < nextId
    requires ClassValid(c) && c.id == id && !CodeHeldByOther(cs, id, c.classCode)
    ensures ClassesValid(ReplaceClass(cs, id, c), nextId)
  {
    var r := ReplaceClass(cs, id, c);
    forall x | x in r ensures x.id < nextId && ClassValid(x) {
      InReplaceClass(cs, id, c, x);
    }
    forall x, y | x in r && y in r && (x.id == y.id || x.classCode == y.classCode) ensures x == y {
      InReplaceClass(cs, id, c, x);
      InReplaceClass(cs, id, c, y);
    }
  }

  /** `Class.findByIdAndDelete`: every class but the one with that id. */
  function RemoveClass(cs: seq<ClassDoc>, id: Id): (r: seq<ClassDoc>)
    ensures forall c :: c in r <==> c in cs && c.id != id
    ensures FindClass(r, id).None?
  {
    var r := Filter(cs, (c: ClassDoc) => c.id != id);
    assert forall k :: 0 <= k < |r| ==> r[k] in r;
    r
  }

  /** An empty patch from the owner leaves the collection as it was. */
  lemma EmptyPatchChangesNothing(cs: seq<ClassDoc>, nextId: nat, k: nat)
    requires ClassesValid(cs, nextId) && k < |cs|
    ensures ApplyPatch(cs[k], ClassPatch(None, None, None, None, None, None, None, None)) == Some(cs[k])
    ensures ReplaceClass(cs, cs[k].id, cs[k]) == cs
  {
    assert cs[k] in cs;
    forall j | 0 <= j < |cs| && cs[j].id == cs[k].id ensures cs[j] == cs[k] {
      assert cs[j] in cs;
    }
  }
}

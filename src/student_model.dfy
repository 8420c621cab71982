/** The Student schema: a roster entry of one class, keyed within the class
    by its roll number, with optional contact details. An optional string
    field that was never set is the empty string here. */
module StudentModel {
  import opened Util

  datatype Student = Student(
    id: Id,
    rollNumber: string,
    name: string,
    email: string,
    phoneNumber: string,
    parentPhoneNumber: string,
    parentEmail: string,
    classId: Id,
    isActive: bool)

  /** The fields a controller hands to `Student.create` or `insertMany`. */
  datatype StudentInput = StudentInput(
    rollNumber: string,
    name: string,
    email: string,
    phoneNumber: string,
    parentPhoneNumber: string,
    parentEmail: string,
    classId: Id)

  predicate IsSep(c: char) { c == '.' || c == '-' }

  /** `\w+([\.-]?\w+)*`: word characters, where a single `.` or `-` may stand
      between two of them. */
  predicate DottedWords(s: string) {
    && |s| > 0 && IsWordChar(s[0]) && IsWordChar(s[|s| - 1])
    && (forall k :: 0 <= k < |s| ==> IsWordChar(s[k]) || IsSep(s[k]))
    && (forall k :: 0 <= k < |s| - 1 ==> !(IsSep(s[k]) && IsSep(s[k + 1])))
  }

  predicate AllWordChars(s: string) { forall k :: 0 <= k < |s| ==> IsWordChar(s[k]) }

  /** The model's reading of the domain part `\w+([\.-]?\w+)*(\.\w{2,3})+`:
      dotted words, a dot, and a last group of two or three word characters. */
  predicate DomainPattern(d: string) {
    || (|d| >= 4 && d[|d| - 3] == '.' && AllWordChars(d[|d| - 2..]) && DottedWords(d[..|d| - 3]))
    || (|d| >= 5 && d[|d| - 4] == '.' && AllWordChars(d[|d| - 3..]) && DottedWords(d[..|d| - 4]))
  }

  /** The model's reading of the schema's `match` for `email` and
      `parentEmail`, `^\w+([\.-]?\w+)*@\w+([\.-]?\w+)*(\.\w{2,3})+$`: dotted
      words, the first `@`, and a domain as `DomainPattern` reads it. That this
      is the language of the regular expression is not proved here. */
  predicate EmailPattern(s: string) {
    '@' in s && DottedWords(s[..IndexOf(s, '@')]) && DomainPattern(s[IndexOf(s, '@') + 1..])
  }

  /** A `match` validator passes an empty value. */
  predicate EmailOk(e: string) { e == [] || EmailPattern(e) }

  predicate IsLower(s: string) { forall k :: 0 <= k < |s| ==> LowerChar(s[k]) == s[k] }

  lemma LowerAsciiIsLower(s: string)
    ensures IsLower(LowerAscii(s))
  {}

  lemma TrimKeepsLower(u: string)
    requires IsLower(u)
    ensures IsLower(Trim(u))
  {
    var r := Trim(u);
    forall k | 0 <= k < |r| ensures LowerChar(r[k]) == r[k] {
      assert r[k] in u;
      var j :| 0 <= j < |u| && u[j] == r[k];
    }
  }

  lemma LowerCharKinds(c: char)
    ensures IsWordChar(LowerChar(c)) == IsWordChar(c)
    ensures IsSep(LowerChar(c)) == IsSep(c)
    ensures LowerChar(c) == '@' <==> c == '@'
  {}

  lemma LowerSlice(s: string, a: nat, b: nat)
    requires a <= b <= |s|
    ensures LowerAscii(s)[a..b] == LowerAscii(s[a..b])
  {}

  lemma LowerDottedWords(x: string)
    requires DottedWords(x)
    ensures DottedWords(LowerAscii(x))
  {
    var l := LowerAscii(x);
    forall k | 0 <= k < |x| ensures IsWordChar(l[k]) == IsWordChar(x[k]) && IsSep(l[k]) == IsSep(x[k]) {
      LowerCharKinds(x[k]);
    }
  }

  lemma LowerAllWordChars(x: string)
    requires AllWordChars(x)
    ensures AllWordChars(LowerAscii(x))
  {
    forall k | 0 <= k < |x| ensures IsWordChar(LowerAscii(x)[k]) {
      LowerCharKinds(x[k]);
    }
  }

  lemma LowerDomainPattern(d: string)
    requires DomainPattern(d)
    ensures DomainPattern(LowerAscii(d))
  {
    var l := LowerAscii(d);
    var n := |d|;
    if n >= 4 && d[n - 3] == '.' && AllWordChars(d[n - 2..]) && DottedWords(d[..n - 3]) {
      LowerSlice(d, n - 2, n);
      LowerSlice(d, 0, n - 3);
      assert d[n - 2..] == d[n - 2..n] && l[n - 2..] == l[n - 2..n];
      LowerAllWordChars(d[n - 2..]);
      LowerDottedWords(d[..n - 3]);
    } else {
      LowerSlice(d, n - 3, n);
      LowerSlice(d, 0, n - 4);
      assert d[n - 3..] == d[n - 3..n] && l[n - 3..] == l[n - 3..n];
      LowerAllWordChars(d[n - 3..]);
      LowerDottedWords(d[..n - 4]);
    }
  }

  /** Lower-casing does not move the first `@`. */
  lemma LowerIndexOfAt(s: string)
    requires '@' in s
    ensures '@' in LowerAscii(s) && IndexOf(LowerAscii(s), '@') == IndexOf(s, '@')
  {
    var l := LowerAscii(s);
    var i := IndexOf(s, '@');
    LowerCharKinds(s[i]);
    assert l[i] == '@';
    forall k | 0 <= k < i ensures l[k] != '@' {
      assert s[k] in s[..i];
      LowerCharKinds(s[k]);
    }
  }

  /** An address that matches the pattern starts and ends with a word
      character, so trimming leaves it alone. */
  lemma EmailPatternTrimmed(e: string)
    requires EmailPattern(e)
    ensures Trim(e) == e
  {
    var i := IndexOf(e, '@');
    var domain := e[i + 1..];
    assert e[..i][0] == e[0];
    var n := |domain|;
    assert domain[n - 1] == e[|e| - 1];
    if n >= 4 && domain[n - 3] == '.' && AllWordChars(domain[n - 2..]) {
      assert domain[n - 2..][1] == domain[n - 1];
    } else {
      assert domain[n - 3..][2] == domain[n - 1];
    }
    TrimNoEdgeSpace(e);
  }

  /** The schema's `lowercase` setter never turns a matching address into a
      failing one. */
  lemma EmailPatternLower(e: string)
    requires EmailPattern(e)
    ensures EmailPattern(LowerAscii(e))
  {
    var i := IndexOf(e, '@');
    var l := LowerAscii(e);
    LowerIndexOfAt(e);
    LowerSlice(e, 0, i);
    LowerSlice(e, i + 1, |e|);
    assert l[i + 1..] == l[i + 1..|e|];
    assert e[i + 1..] == e[i + 1..|e|];
    LowerDottedWords(e[..i]);
    LowerDomainPattern(e[i + 1..]);
  }

  /** What the schema guarantees of a stored student: a roll number, a
      trimmed non-empty name, trimmed phones, lower-case (and, for the
      parent's, trimmed) e-mail addresses that are empty or match the pattern. */
  predicate StudentValid(s: Student) {
    && s.rollNumber != [] && s.name != [] && Trim(s.name) == s.name
    && IsLower(s.email) && EmailOk(s.email)
    && Trim(s.phoneNumber) == s.phoneNumber && Trim(s.parentPhoneNumber) == s.parentPhoneNumber
    && IsLower(s.parentEmail) && Trim(s.parentEmail) == s.parentEmail && EmailOk(s.parentEmail)
  }

  /** `Student.create`: the setters (trim, lowercase) run, then the
      validators; the new student is active. */
  function CastStudent(id: Id, x: StudentInput): (r: Option<Student>)
    ensures r.Some? <==>
      && x.rollNumber != [] && !IsBlank(x.name)
      && EmailOk(LowerAscii(x.email)) && EmailOk(Trim(LowerAscii(x.parentEmail)))
    ensures r.Some? ==> StudentValid(r.value)
    ensures r.Some? ==> var s := r.value;
      && s.id == id && s.rollNumber == x.rollNumber && s.name == Trim(x.name)
      && s.classId == x.classId && s.isActive
      && s.email == LowerAscii(x.email) && s.phoneNumber == Trim(x.phoneNumber)
      && s.parentPhoneNumber == Trim(x.parentPhoneNumber)
      && s.parentEmail == Trim(LowerAscii(x.parentEmail))
  {
    var name := Trim(x.name);
    var email := LowerAscii(x.email);
    var parentEmail := Trim(LowerAscii(x.parentEmail));
    if x.rollNumber == [] || name == [] || !EmailOk(email) || !EmailOk(parentEmail) then None
    else
      TrimIdempotent(x.name);
      TrimIdempotent(x.phoneNumber);
      TrimIdempotent(x.parentPhoneNumber);
      TrimIdempotent(LowerAscii(x.parentEmail));
      LowerAsciiIsLower(x.email);
      LowerAsciiIsLower(x.parentEmail);
      TrimKeepsLower(LowerAscii(x.parentEmail));
      Some(Student(id, x.rollNumber, name, email, Trim(x.phoneNumber), Trim(x.parentPhoneNumber),
                   parentEmail, x.classId, true))
  }

  /** The stored collection: ids below the allocation counter and unique,
      every student schema-valid, and the unique index on (rollNumber, class). */
  ghost predicate StudentsValid(ss: seq<Student>, nextId: nat) {
    && (forall s :: s in ss ==> s.id < nextId && StudentValid(s))
    && (forall s, t :: s in ss && t in ss && s.id == t.id ==> s == t)
    && (forall s, t :: s in ss && t in ss && s.rollNumber == t.rollNumber && s.classId == t.classId ==> s == t)
  }

  /** A stored student already holds this (rollNumber, class) key. */
  predicate RollTaken(ss: seq<Student>, rollNumber: string, classId: Id) {
    exists s :: s in ss && s.rollNumber == rollNumber && s.classId == classId
  }

  /** An insert that passes the unique index keeps the collection valid. */
  lemma InsertStudentValid(ss: seq<Student>, nextId: nat, s: Student)
    requires StudentsValid(ss, nextId)
    requires StudentValid(s) && s.id == nextId && !RollTaken(ss, s.rollNumber, s.classId)
    ensures StudentsValid(ss + [s], nextId + 1)
  {
    var r := ss + [s];
    assert forall t :: t in r <==> t in ss || t == s;
    forall t | t in r ensures t.id < nextId + 1 && StudentValid(t) {
      if t != s { assert t in ss; }
    }
    forall t, u | t in r && u in r && (t.id == u.id || (t.rollNumber == u.rollNumber && t.classId == u.classId))
      ensures t == u
    {
      if t != s && u != s { assert t in ss && u in ss; }
    }
  }

  /** Removing students keeps the collection valid. */
  lemma FilterStudentsValid(ss: seq<Student>, nextId: nat, p: Student -> bool)
    requires StudentsValid(ss, nextId)
    ensures StudentsValid(Filter(ss, p), nextId)
  {}

  /** `Student.find({ class: classId })`: the class roster in stored order. */
  function Roster(ss: seq<Student>, classId: Id): (r: seq<Student>)
    ensures forall s :: s in r <==> s in ss && s.classId == classId
  {
    Filter(ss, (s: Student) => s.classId == classId)
  }

  /** `Student.findById`: the index of the student with that id. */
  function FindStudent(ss: seq<Student>, id: Id): (r: Option<nat>)
    ensures r.None? <==> forall k :: 0 <= k < |ss| ==> ss[k].id != id
    ensures r.Some? ==> r.value < |ss| && ss[r.value].id == id
  {
    if ss == [] then None
    else if ss[|ss| - 1].id == id then Some(|ss| - 1)
    else FindStudent(ss[..|ss| - 1], id)
  }

  predicate HasStudent(ss: seq<Student>, id: Id) {
    exists s :: s in ss && s.id == id
  }

  lemma FindStudentHas(ss: seq<Student>, id: Id)
    ensures FindStudent(ss, id).Some? <==> HasStudent(ss, id)
  {
    if HasStudent(ss, id) {
      var s :| s in ss && s.id == id;
      var k :| 0 <= k < |ss| && ss[k] == s;
    }
  }
}

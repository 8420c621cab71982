/** The student documents `importStudentsFromExisting` builds by copying
    another class's roster, and what the ordered insert makes of them. */
module StudentCopy {
  import opened Util
  import opened StudentModel
  import opened StudentBatch

  /** The copy of a source student: roll number, name, email and phones are
      carried over, the class is the target; the parent's email is not
      copied. */
  function CopyInput(s: Student, classId: Id): StudentInput {
    StudentInput(s.rollNumber, s.name, s.email, s.phoneNumber, s.parentPhoneNumber, [], classId)
  }

  function CopyInputs(src: seq<Student>, classId: Id): (r: seq<StudentInput>)
    ensures |r| == |src| && forall i :: 0 <= i < |src| ==> r[i] == CopyInput(src[i], classId)
  {
    seq(|src|, i requires 0 <= i < |src| => CopyInput(src[i], classId))
  }

  /** The student a copy stores: the source student under a new id and
      class, active, without a parent email. */
  function Copied(s: Student, classId: Id, id: Id): Student {
    s.(id := id, classId := classId, parentEmail := [], isActive := true)
  }

  /** A stored student's copy always passes the schema, and casts to
      `Copied`. */
  lemma CopyCasts(s: Student, classId: Id, id: Id)
    requires StudentValid(s)
    ensures CastStudent(id, CopyInput(s, classId)) == Some(Copied(s, classId, id))
  {
    assert LowerAscii(s.email) == s.email;
    assert LowerAscii([]) == [];
    assert Trim([]) == [];
  }

  /** A roster of valid students always casts as a batch, the `i`-th copy
      taking id `nextId + i`. */
  lemma CopiesCast(src: seq<Student>, classId: Id, nextId: nat)
    requires forall s :: s in src ==> StudentValid(s)
    ensures CastAll(nextId, CopyInputs(src, classId)).Some?
    ensures forall i :: 0 <= i < |src| ==>
              CastAll(nextId, CopyInputs(src, classId)).value[i] == Copied(src[i], classId, nextId + i)
  {
    var inputs := CopyInputs(src, classId);
    forall i | 0 <= i < |inputs|
      ensures CastStudent(nextId + i, inputs[i]) == Some(Copied(src[i], classId, nextId + i))
    {
      CopyCasts(src[i], classId, nextId + i);
    }
    CastAllSpec(nextId, inputs);
  }

  /** The documents `insertMany` receives when `src` is copied into `classId`. */
  function CopyDocs(src: seq<Student>, classId: Id, nextId: nat): (docs: seq<Student>)
    requires forall s :: s in src ==> StudentValid(s)
    ensures CastAll(nextId, CopyInputs(src, classId)) == Some(docs)
    ensures |docs| == |src| && forall i :: 0 <= i < |src| ==> docs[i] == Copied(src[i], classId, nextId + i)
  {
    CopiesCast(src, classId, nextId);
    CastAll(nextId, CopyInputs(src, classId)).value
  }

  /** Copying a non-empty class into itself is refused at its first student,
      so nothing is stored. */
  lemma SelfCopyStoresNothing(ss: seq<Student>, classId: Id, nextId: nat)
    requires Roster(ss, classId) != [] && forall s :: s in ss ==> StudentValid(s)
    ensures InsertOrdered(ss, CopyDocs(Roster(ss, classId), classId, nextId)) == Batch([], true)
  {
    var src := Roster(ss, classId);
    var docs := CopyDocs(src, classId, nextId);
    assert src[0] in src;
    assert RollTaken(ss + [], docs[0].rollNumber, docs[0].classId) by {
      assert src[0] in ss + [];
    }
    assert docs[..1][..0] == [];
    assert InsertOrdered(ss, docs[..1]) == Batch([], true);
    InsertOrderedStops(ss, docs, 1);
  }
}

/** MongoDB `insertMany` on the student collection: the schema cast of a
    batch of documents, the unordered insert (every document tried, taken
    keys refused) and the ordered one (stops at the first taken key). */
module StudentBatch {
  import opened Util
  import opened StudentModel

  lemma StudentsValidRaise(ss: seq<Student>, n: nat, m: nat)
    requires n <= m && StudentsValid(ss, n)
    ensures StudentsValid(ss, m)
  {}

  /** The schema cast of a batch, the `i`-th document taking id `nextId + i`;
      `None` when any document fails validation. */
  function CastAll(nextId: nat, inputs: seq<StudentInput>): (r: Option<seq<Student>>)
    ensures r.Some? ==> |r.value| == |inputs|
  {
    MapNumbered(CastStudent, nextId, inputs)
  }

  /** What a bulk insert stored, and whether the unique index refused some
      document. */
  datatype Batch = Batch(added: seq<Student>, duplicate: bool)

  /** One document offered to the unique (rollNumber, class) index: refused,
      and the batch marked, when its key is already stored; stored otherwise. */
  function Offer(existing: seq<Student>, prev: Batch, d: Student): (b: Batch)
    ensures b.added == prev.added || b.added == prev.added + [d]
  {
    if RollTaken(existing + prev.added, d.rollNumber, d.classId) then prev.(duplicate := true)
    else prev.(added := prev.added + [d])
  }

  /** `insertMany(docs, { ordered: false })`: every document is tried in
      order; one whose (rollNumber, class) is already stored, before or
      during the batch, is refused and the rest still go in. */
  function InsertUnordered(existing: seq<Student>, docs: seq<Student>): (b: Batch)
    ensures |b.added| <= |docs|
  {
    if docs == [] then Batch([], false)
    else Offer(existing, InsertUnordered(existing, docs[..|docs| - 1]), docs[|docs| - 1])
  }

  /** `insertMany(docs)` (ordered): documents go in one by one until the
      first refused one; nothing after it is tried. */
  function InsertOrdered(existing: seq<Student>, docs: seq<Student>): (b: Batch)
    ensures |b.added| <= |docs|
  {
    if docs == [] then Batch([], false)
    else
      var prev := InsertOrdered(existing, docs[..|docs| - 1]);
      if prev.duplicate then prev else Offer(existing, prev, docs[|docs| - 1])
  }

  /** The documents a batch cast produces: valid, with consecutive fresh ids. */
  predicate FreshDocs(docs: seq<Student>, nextId: nat) {
    forall i :: 0 <= i < |docs| ==> docs[i].id == nextId + i && StudentValid(docs[i])
  }

  lemma FreshDocsInit(docs: seq<Student>, nextId: nat)
    requires docs != [] && FreshDocs(docs, nextId)
    ensures FreshDocs(docs[..|docs| - 1], nextId)
    ensures docs[|docs| - 1].id == nextId + |docs| - 1 && StudentValid(docs[|docs| - 1])
  {
    var init := docs[..|docs| - 1];
    forall i | 0 <= i < |init| ensures init[i] == docs[i] {}
  }

  /** Offering a valid document under the next id keeps the collection
      valid, whether it is stored or refused. */
  lemma OfferValid(existing: seq<Student>, prev: Batch, n: nat, d: Student)
    requires StudentsValid(existing + prev.added, n) && StudentValid(d) && d.id == n
    ensures StudentsValid(existing + Offer(existing, prev, d).added, n + 1)
  {
    if RollTaken(existing + prev.added, d.rollNumber, d.classId) {
      StudentsValidRaise(existing + prev.added, n, n + 1);
    } else {
      InsertStudentValid(existing + prev.added, n, d);
      AppendAssoc(existing, prev.added, [d]);
    }
  }

  /** A batch casts exactly when every document does, and then the `i`-th
      document is the cast of the `i`-th input under id `nextId + i`. */
  lemma CastAllSpec(nextId: nat, inputs: seq<StudentInput>)
    ensures CastAll(nextId, inputs).Some? <==>
              forall i :: 0 <= i < |inputs| ==> CastStudent(nextId + i, inputs[i]).Some?
    ensures CastAll(nextId, inputs).Some? ==>
              forall i :: 0 <= i < |inputs| ==>
                CastAll(nextId, inputs).value[i] == CastStudent(nextId + i, inputs[i]).value
  {
    MapNumberedSpec(CastStudent, nextId, inputs);
  }

  lemma CastAllFresh(nextId: nat, inputs: seq<StudentInput>)
    requires CastAll(nextId, inputs).Some?
    ensures FreshDocs(CastAll(nextId, inputs).value, nextId)
  {
    CastAllSpec(nextId, inputs);
  }

  lemma TakenGrows(a: seq<Student>, b: seq<Student>, roll: string, classId: Id)
    requires RollTaken(a, roll, classId)
    ensures RollTaken(a + b, roll, classId)
  {
    var s :| s in a && s.rollNumber == roll && s.classId == classId;
    assert s in a + b;
  }

  /** The unordered insert keeps the collection valid. */
  lemma {:induction false} InsertUnorderedValid(existing: seq<Student>, nextId: nat, docs: seq<Student>)
    requires StudentsValid(existing, nextId) && FreshDocs(docs, nextId)
    ensures StudentsValid(existing + InsertUnordered(existing, docs).added, nextId + |docs|)
  {
    if docs != [] {
      var init := docs[..|docs| - 1];
      FreshDocsInit(docs, nextId);
      InsertUnorderedValid(existing, nextId, init);
      OfferValid(existing, InsertUnordered(existing, init), nextId + |init|, docs[|docs| - 1]);
    }
  }

  /** The unordered insert stores exactly the documents whose key was free:
      each stored one comes from the batch, each one left out collides with a
      stored key, and the batch is marked exactly when one was left out. */
  lemma {:induction false} InsertUnorderedSpec(existing: seq<Student>, docs: seq<Student>)
    requires forall i, j :: 0 <= i < j < |docs| ==> docs[i] != docs[j]
    ensures var b := InsertUnordered(existing, docs);
      && (forall s :: s in b.added ==> s in docs)
      && (forall d :: d in docs ==> d in b.added || RollTaken(existing + b.added, d.rollNumber, d.classId))
      && (b.duplicate <==> exists d :: d in docs && d !in b.added)
  {
    if docs != [] {
      var init := docs[..|docs| - 1];
      var d := docs[|docs| - 1];
      assert docs == init + [d];
      assert forall i, j :: 0 <= i < j < |init| ==> init[i] != init[j] by {
        forall i, j | 0 <= i < j < |init| ensures init[i] != init[j] {
          assert init[i] == docs[i] && init[j] == docs[j];
        }
      }
      InsertUnorderedSpec(existing, init);
      var prev := InsertUnordered(existing, init);
      var b := InsertUnordered(existing, docs);
      assert b == Offer(existing, prev, d);
      assert d !in init by {
        forall j | 0 <= j < |init| ensures init[j] != d {
          assert init[j] == docs[j];
        }
      }
      assert d !in prev.added;
      if RollTaken(existing + prev.added, d.rollNumber, d.classId) {
        assert b == prev.(duplicate := true);
        assert b.duplicate && d in docs && d !in b.added;
      } else {
        assert b == prev.(added := prev.added + [d]);
        AppendAssoc(existing, prev.added, [d]);
        forall x | x in docs
          ensures x in b.added || RollTaken(existing + b.added, x.rollNumber, x.classId)
        {
          if x != d && x !in prev.added {
            assert x in init;
            TakenGrows(existing + prev.added, [d], x.rollNumber, x.classId);
          }
        }
        assert forall x :: x in init ==> (x in b.added <==> x in prev.added);
      }
    }
  }

  /** Fresh documents are pairwise distinct: their ids differ. */
  lemma FreshDocsDistinct(docs: seq<Student>, nextId: nat)
    requires FreshDocs(docs, nextId)
    ensures forall i, j :: 0 <= i < j < |docs| ==> docs[i] != docs[j]
  {}

  /** Without a refused document, the unordered insert stores the whole batch. */
  lemma {:induction false} InsertUnorderedAdded(existing: seq<Student>, docs: seq<Student>)
    requires !InsertUnordered(existing, docs).duplicate
    ensures InsertUnordered(existing, docs).added == docs
  {
    if docs != [] {
      var init := docs[..|docs| - 1];
      assert docs == init + [docs[|docs| - 1]];
      InsertUnorderedAdded(existing, init);
    }
  }

  /** The ordered insert stores a prefix of the batch: all of it, or
      everything before the first document whose key is taken. */
  lemma {:induction false} InsertOrderedPrefix(existing: seq<Student>, docs: seq<Student>)
    ensures var b := InsertOrdered(existing, docs);
      && b.added == docs[..|b.added|]
      && (!b.duplicate ==> b.added == docs)
      && (b.duplicate ==>
            |b.added| < |docs|
            && RollTaken(existing + b.added, docs[|b.added|].rollNumber, docs[|b.added|].classId))
  {
    if docs != [] {
      var init := docs[..|docs| - 1];
      assert docs == init + [docs[|docs| - 1]];
      InsertOrderedPrefix(existing, init);
      var prev := InsertOrdered(existing, init);
      assert docs[..|prev.added|] == init[..|prev.added|];
      if !prev.duplicate {
        assert prev.added == init;
      }
    }
  }

  /** The ordered insert keeps the collection valid. */
  lemma {:induction false} InsertOrderedValid(existing: seq<Student>, nextId: nat, docs: seq<Student>)
    requires StudentsValid(existing, nextId) && FreshDocs(docs, nextId)
    ensures StudentsValid(existing + InsertOrdered(existing, docs).added, nextId + |docs|)
  {
    if docs != [] {
      var init := docs[..|docs| - 1];
      var n := nextId + |init|;
      FreshDocsInit(docs, nextId);
      InsertOrderedValid(existing, nextId, init);
      var prev := InsertOrdered(existing, init);
      if prev.duplicate {
        StudentsValidRaise(existing + prev.added, n, n + 1);
      } else {
        OfferValid(existing, prev, n, docs[|docs| - 1]);
      }
    }
  }

  /** Once the ordered insert has been refused, later documents change nothing. */
  lemma {:induction false} InsertOrderedStops(existing: seq<Student>, docs: seq<Student>, k: nat)
    requires k <= |docs| && InsertOrdered(existing, docs[..k]).duplicate
    ensures InsertOrdered(existing, docs) == InsertOrdered(existing, docs[..k])
    decreases |docs| - k
  {
    if k < |docs| {
      assert docs[..k + 1][..k] == docs[..k];
      InsertOrderedStops(existing, docs, k + 1);
    } else {
      assert docs[..k] == docs;
    }
  }
}

/** The student documents `importStudentsCSV` builds from validated CSV
    rows, and why the schema never refuses them. */
module StudentCsvRows {
  import opened Util
  import opened StudentModel
  import opened CsvValidator
  import opened StudentBatch

  /** The document built from one parsed row: roll number, name and the
      optional contacts trimmed, a missing contact as "". */
  function RowInput(row: Row, classId: Id): (x: StudentInput)
    ensures x.rollNumber == Trim(Cell(row, "rollNumber")) && x.name == Trim(Cell(row, "name"))
    ensures x.email == Trim(Cell(row, "email")) && x.parentEmail == [] && x.classId == classId
    ensures x.phoneNumber == Trim(Cell(row, "phoneNumber"))
    ensures x.parentPhoneNumber == Trim(Cell(row, "parentPhoneNumber"))
  {
    StudentInput(Trim(Cell(row, "rollNumber")), Trim(Cell(row, "name")), Trim(Cell(row, "email")),
                 Trim(Cell(row, "phoneNumber")), Trim(Cell(row, "parentPhoneNumber")), [], classId)
  }

  function RowInputs(rows: seq<Row>, classId: Id): (r: seq<StudentInput>)
    ensures |r| == |rows| && forall i :: 0 <= i < |rows| ==> r[i] == RowInput(rows[i], classId)
  {
    seq(|rows|, i requires 0 <= i < |rows| => RowInput(rows[i], classId))
  }

  /** An e-mail cell the CSV check lets through is empty or matches the
      schema's pattern once trimmed and lower-cased. */
  lemma CellEmailOk(e: string)
    requires IsBlank(e) || EmailPattern(e)
    ensures EmailOk(LowerAscii(Trim(e)))
  {
    if IsBlank(e) {
      assert LowerAscii([]) == [];
    } else {
      EmailPatternTrimmed(e);
      EmailPatternLower(e);
    }
  }

  /** A row that passes the CSV checks always passes the schema. */
  lemma RowCasts(row: Row, classId: Id, id: Id)
    requires RowOk(row)
    ensures CastStudent(id, RowInput(row, classId)).Some?
  {
    var x := RowInput(row, classId);
    CellEmailOk(Cell(row, "email"));
    TrimIdempotent(Cell(row, "name"));
    assert LowerAscii([]) == [] && Trim([]) == [];
    assert x.rollNumber != [] && !IsBlank(x.name);
    assert EmailOk(LowerAscii(x.email)) && EmailOk(Trim(LowerAscii(x.parentEmail)));
  }

  /** Rows that pass `validateCSV` are all accepted by the schema, so the
      import can fail only on the unique index. */
  lemma ValidatedRowsCast(rows: seq<Row>, classId: Id, nextId: nat)
    requires CsvErrors(Some(rows)) == []
    ensures CastAll(nextId, RowInputs(rows, classId)).Some?
  {
    CsvErrorsEmpty(Some(rows));
    var inputs := RowInputs(rows, classId);
    forall i | 0 <= i < |inputs| ensures CastStudent(nextId + i, inputs[i]).Some? {
      RowCasts(rows[i], classId, nextId + i);
    }
    CastAllSpec(nextId, inputs);
  }

  /** The documents `insertMany` receives for rows that passed validation. */
  function CsvDocs(rows: seq<Row>, classId: Id, nextId: nat): (docs: seq<Student>)
    requires CsvErrors(Some(rows)) == []
    ensures CastAll(nextId, RowInputs(rows, classId)) == Some(docs)
    ensures |docs| == |rows| && FreshDocs(docs, nextId)
  {
    ValidatedRowsCast(rows, classId, nextId);
    CastAllFresh(nextId, RowInputs(rows, classId));
    CastAll(nextId, RowInputs(rows, classId)).value
  }
}

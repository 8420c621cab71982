/** Validation of the rows of an uploaded student CSV file, after parsing.
    A row maps each column header to the cell's text; a column the row does
    not have is absent from the map. */
module CsvValidator {
  import opened Util
  import opened StudentModel

  type Row = map<string, string>

  const ROW: string := "Row "
  const COLON: string := ": "
  const ROLL_REQUIRED: string := "Roll number is required"
  const NAME_REQUIRED: string := "Name is required"
  const BAD_EMAIL: string := "Invalid email format - "
  const BAD_PHONE: string := "Invalid phone number - "
  const MISSING_FIELD: string := "Missing required field: "
  const EMPTY_FILE: string := "CSV file is empty"
  const REQUIRED_FIELDS: seq<string> := ["rollNumber", "name"]

  /** `row[key]`, with a missing column read as the empty string (both are
      falsy, and both are blank). */
  function Cell(row: Row, key: string): string {
    if key in row then row[key] else ""
  }

  function RowTag(n: nat): string { ROW + NatToString(n) + COLON }

  /** `Row ${n}: ${text}`. */
  function RowMessage(n: nat, text: string): (m: string)
    ensures StartsWith(m, RowTag(n))
  {
    var tag := RowTag(n);
    assert (tag + text)[..|tag|] == tag;
    tag + text
  }

  function RollMessage(row: Row, n: nat): (r: seq<string>)
    ensures forall m :: m in r ==> StartsWith(m, RowTag(n))
  {
    if IsBlank(Cell(row, "rollNumber")) then [RowMessage(n, ROLL_REQUIRED)] else []
  }

  function NameMessage(row: Row, n: nat): (r: seq<string>)
    ensures forall m :: m in r ==> StartsWith(m, RowTag(n))
  {
    if IsBlank(Cell(row, "name")) then [RowMessage(n, NAME_REQUIRED)] else []
  }

  /** The email is checked only when one is given, and untrimmed. */
  function EmailMessage(row: Row, n: nat): (r: seq<string>)
    ensures forall m :: m in r ==> StartsWith(m, RowTag(n))
  {
    var e := Cell(row, "email");
    if !IsBlank(e) && !EmailPattern(e) then [RowMessage(n, BAD_EMAIL + e)] else []
  }

  function PhoneMessage(row: Row, n: nat): (r: seq<string>)
    ensures forall m :: m in r ==> StartsWith(m, RowTag(n))
  {
    var p := Cell(row, "phoneNumber");
    if !IsBlank(p) && !HasTenDigits(p) then [RowMessage(n, BAD_PHONE + p)] else []
  }

  /** The messages for the row numbered `n` (from 1), in the order the checks run. */
  function RowErrors(row: Row, n: nat): (r: seq<string>)
    ensures forall m :: m in r ==> StartsWith(m, RowTag(n))
  {
    RollMessage(row, n) + NameMessage(row, n) + EmailMessage(row, n) + PhoneMessage(row, n)
  }

  /** `f(x, n)` for the `n`-th element of `xs` (from 1), concatenated in order. */
  function Concat<T, U>(xs: seq<T>, f: (T, nat) -> seq<U>): seq<U> {
    if xs == [] then []
    else Concat(xs[..|xs| - 1], f) + f(xs[|xs| - 1], |xs|)
  }

  lemma ConcatSnoc<T, U>(xs: seq<T>, f: (T, nat) -> seq<U>, i: nat)
    requires i < |xs|
    ensures Concat(xs[..i + 1], f) == Concat(xs[..i], f) + f(xs[i], i + 1)
  {
    assert xs[..i + 1][..i] == xs[..i];
  }

  /** The messages of every row, row by row in input order. */
  function AllRowErrors(rows: seq<Row>): seq<string> {
    Concat(rows, RowErrors)
  }

  /** The missing-column messages for `fields`, in the order they are listed. */
  function MissingFields(first: Row, fields: seq<string>): seq<string> {
    if fields == [] then []
    else
      var f := fields[|fields| - 1];
      MissingFields(first, fields[..|fields| - 1]) + (if f !in first then [MISSING_FIELD + f] else [])
  }

  /** The header check looks at the first row's columns only. */
  function HeaderErrors(first: Row): seq<string> {
    MissingFields(first, REQUIRED_FIELDS)
  }

  /** What `validateCSV` reports for the parsed rows (`None` for no data). */
  function CsvErrors(data: Option<seq<Row>>): seq<string> {
    if data.None? || data.value == [] then [EMPTY_FILE]
    else HeaderErrors(data.value[0]) + AllRowErrors(data.value)
  }

  /** A row that passes every check: roll number and name present and not
      blank, and an email or phone number, when one is given, well formed. */
  predicate RowOk(row: Row) {
    && !IsBlank(Cell(row, "rollNumber"))
    && !IsBlank(Cell(row, "name"))
    && (IsBlank(Cell(row, "email")) || EmailPattern(Cell(row, "email")))
    && (IsBlank(Cell(row, "phoneNumber")) || HasTenDigits(Cell(row, "phoneNumber")))
  }

  /** The required-field checks of one row. */
  method CheckRequired(errors0: seq<string>, row: Row, n: nat) returns (errors: seq<string>)
    ensures errors == errors0 + RollMessage(row, n) + NameMessage(row, n)
  {
    errors := errors0;
    if IsBlank(Cell(row, "rollNumber")) {
      errors := errors + [RowMessage(n, ROLL_REQUIRED)];
    }
    ghost var e1 := errors;
    assert e1 == errors0 + RollMessage(row, n);
    if IsBlank(Cell(row, "name")) {
      errors := errors + [RowMessage(n, NAME_REQUIRED)];
    }
    assert errors == e1 + NameMessage(row, n);
  }

  /** The email check, made only for a non-blank value. */
  method CheckEmail(errors0: seq<string>, row: Row, n: nat) returns (errors: seq<string>)
    ensures errors == errors0 + EmailMessage(row, n)
  {
    errors := errors0;
    var email := Cell(row, "email");
    if !IsBlank(email) && !EmailPattern(email) {
      errors := errors + [RowMessage(n, BAD_EMAIL + email)];
    }
  }

  /** The phone check, made only for a non-blank value. */
  method CheckPhone(errors0: seq<string>, row: Row, n: nat) returns (errors: seq<string>)
    ensures errors == errors0 + PhoneMessage(row, n)
  {
    errors := errors0;
    var phone := Cell(row, "phoneNumber");
    if !IsBlank(phone) && !HasTenDigits(phone) {
      errors := errors + [RowMessage(n, BAD_PHONE + phone)];
    }
  }

  /** The checks of one row, pushed one message at a time. */
  method CheckRow(errors0: seq<string>, row: Row, n: nat) returns (errors: seq<string>)
    ensures errors == errors0 + RowErrors(row, n)
  {
    errors := CheckRequired(errors0, row, n);
    errors := CheckEmail(errors, row, n);
    errors := CheckPhone(errors, row, n);
    AppendAssoc5(errors0, RollMessage(row, n), NameMessage(row, n), EmailMessage(row, n), PhoneMessage(row, n));
  }

  lemma AppendAssoc5<T>(a: seq<T>, b: seq<T>, c: seq<T>, d: seq<T>, e: seq<T>)
    ensures (a + b + c) + d + e == a + (b + c + d + e)
  {}

  /** `validateCSV`: the empty-file message alone for no rows; otherwise the
      missing-column messages, then each row's messages in input order. */
  method ValidateCsv(data: Option<seq<Row>>) returns (errors: seq<string>)
    ensures errors == CsvErrors(data)
  {
    if data.None? || data.value == [] {
      return [EMPTY_FILE];
    }
    var rows := data.value;
    errors := [];
    for f := 0 to |REQUIRED_FIELDS|
      invariant errors == MissingFields(rows[0], REQUIRED_FIELDS[..f])
    {
      var field := REQUIRED_FIELDS[f];
      if field !in rows[0] {
        errors := errors + [MISSING_FIELD + field];
      }
      assert REQUIRED_FIELDS[..f + 1][..f] == REQUIRED_FIELDS[..f];
    }
    assert REQUIRED_FIELDS[..|REQUIRED_FIELDS|] == REQUIRED_FIELDS;
    var header := errors;
    for i := 0 to |rows|
      invariant errors == header + Concat(rows[..i], RowErrors)
    {
      ghost var done := Concat(rows[..i], RowErrors);
      errors := CheckRow(errors, rows[i], i + 1);
      ConcatSnoc(rows, RowErrors, i);
      AppendAssoc(header, done, RowErrors(rows[i], i + 1));
    }
    assert rows[..|rows|] == rows;
  }

  /** A row produces no message exactly when it passes every check. */
  lemma RowErrorsEmpty(row: Row, n: nat)
    ensures RowErrors(row, n) == [] <==> RowOk(row)
  {}

  lemma {:induction false} ConcatEmpty<T, U>(xs: seq<T>, f: (T, nat) -> seq<U>, ok: T -> bool)
    requires forall x, n :: f(x, n) == [] <==> ok(x)
    ensures Concat(xs, f) == [] <==> forall i :: 0 <= i < |xs| ==> ok(xs[i])
  {
    if xs != [] {
      var init := xs[..|xs| - 1];
      ConcatEmpty(init, f, ok);
      assert forall i :: 0 <= i < |init| ==> init[i] == xs[i];
    }
  }

  /** A file's rows produce no message exactly when every row passes. */
  lemma AllRowErrorsEmpty(rows: seq<Row>)
    ensures AllRowErrors(rows) == [] <==> forall i :: 0 <= i < |rows| ==> RowOk(rows[i])
  {
    forall r, n ensures RowErrors(r, n) == [] <==> RowOk(r) {
      RowErrorsEmpty(r, n);
    }
    ConcatEmpty(rows, RowErrors, RowOk);
  }

  /** The header check is silent exactly when the first row has both columns,
      and each of its messages names a missing column. */
  lemma HeaderErrorsSpec(first: Row)
    ensures HeaderErrors(first) == [] <==> "rollNumber" in first && "name" in first
    ensures forall m :: m in HeaderErrors(first) ==> StartsWith(m, MISSING_FIELD)
  {
    var one: seq<string> := ["rollNumber"];
    assert one[..0] == [] && one[0] == "rollNumber";
    assert REQUIRED_FIELDS[..1] == one;
    assert MissingFields(first, one[..0]) == [];
    var h1 := MissingFields(first, one);
    assert h1 == [] + (if "rollNumber" !in first then [MISSING_FIELD + "rollNumber"] else []);
    assert HeaderErrors(first) == h1 + (if "name" !in first then [MISSING_FIELD + "name"] else []);
    forall m | m in HeaderErrors(first) ensures StartsWith(m, MISSING_FIELD) {
      if m == MISSING_FIELD + "rollNumber" {
        PrefixOfAppend(MISSING_FIELD, "rollNumber");
      } else {
        PrefixOfAppend(MISSING_FIELD, "name");
      }
    }
  }

  /** No message at all means a non-empty file whose first row has both
      required columns and every row of which passes. */
  lemma CsvErrorsEmpty(data: Option<seq<Row>>)
    ensures CsvErrors(data) == [] <==>
      && data.Some? && data.value != []
      && "rollNumber" in data.value[0] && "name" in data.value[0]
      && forall i :: 0 <= i < |data.value| ==> RowOk(data.value[i])
  {
    if data.Some? && data.value != [] {
      var rows := data.value;
      var h, e := HeaderErrors(rows[0]), AllRowErrors(rows);
      assert CsvErrors(data) == h + e;
      assert h + e == [] <==> h == [] && e == [] by {
        assert |h + e| == |h| + |e|;
      }
      AllRowErrorsEmpty(rows);
      HeaderErrorsSpec(rows[0]);
    }
  }

  lemma {:induction false} ConcatTagged<T>(xs: seq<T>, f: (T, nat) -> seq<string>, tag: nat -> string, m: string)
    requires forall x, n, m' :: m' in f(x, n) ==> StartsWith(m', tag(n))
    requires m in Concat(xs, f)
    ensures exists n :: 1 <= n <= |xs| && StartsWith(m, tag(n))
  {
    var init := xs[..|xs| - 1];
    if m in Concat(init, f) {
      ConcatTagged(init, f, tag, m);
    } else {
      assert m in f(xs[|xs| - 1], |xs|);
    }
  }

  lemma PrefixOfAppend(a: string, b: string)
    ensures StartsWith(a + b, a)
  {
    assert (a + b)[..|a|] == a;
  }

  /** Every row message starts with "Row <n>: " for the row it is about. */
  lemma RowMessagesTagged(rows: seq<Row>, m: string)
    requires m in AllRowErrors(rows)
    ensures exists n :: 1 <= n <= |rows| && StartsWith(m, RowTag(n))
  {
    ConcatTagged(rows, RowErrors, RowTag, m);
  }

  lemma HeaderNeverEmptyFile(first: Row)
    ensures EMPTY_FILE !in HeaderErrors(first)
  {
    HeaderErrorsSpec(first);
    assert EMPTY_FILE[0] != MISSING_FIELD[0];
  }

  lemma NotSingleton<T>(a: seq<T>, b: seq<T>, x: T)
    requires x !in a && x !in b
    ensures a + b != [x]
  {
    assert x in [x];
  }

  lemma TagNotEmptyFile(n: nat)
    ensures !StartsWith(EMPTY_FILE, RowTag(n))
  {
    assert RowTag(n)[0] == 'R';
  }

  lemma RowsNeverEmptyFile(rows: seq<Row>)
    ensures EMPTY_FILE !in AllRowErrors(rows)
  {
    if EMPTY_FILE in AllRowErrors(rows) {
      RowMessagesTagged(rows, EMPTY_FILE);
      var n :| 1 <= n <= |rows| && StartsWith(EMPTY_FILE, RowTag(n));
      TagNotEmptyFile(n);
    }
  }

  /** The empty-file message is reported exactly when there are no rows. */
  lemma EmptyFileOnlyForNoRows(data: Option<seq<Row>>)
    ensures CsvErrors(data) == [EMPTY_FILE] <==> data.None? || data.value == []
  {
    if data.Some? && data.value != [] {
      var rows := data.value;
      HeaderNeverEmptyFile(rows[0]);
      RowsNeverEmptyFile(rows);
      NotSingleton(HeaderErrors(rows[0]), AllRowErrors(rows), EMPTY_FILE);
    }
  }
}

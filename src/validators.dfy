/** The frontend's form validators. A form is a dictionary of field values;
    a field the form does not hold is absent from the map. */
module Validators {
  import opened Util

  /** A character `[^\s@]` matches. */
  predicate PlainChar(c: char) { !IsSpace(c) && c != '@' }

  /** `[^\s@]+`. */
  predicate PlainRun(s: string) { |s| > 0 && forall k :: 0 <= k < |s| ==> PlainChar(s[k]) }

  /** `validateEmail`, computed: a non-empty plain local part, the first `@`,
      and a domain of plain characters with a `.` strictly inside it. */
  function ValidateEmail(email: string): bool {
    '@' in email &&
    var i := IndexOf(email, '@');
    var d := email[i + 1..];
    PlainRun(email[..i]) && PlainRun(d) && exists j :: 0 < j < |d| - 1 && d[j] == '.'
  }

  /** The regular expression `^[^\s@]+@[^\s@]+\.[^\s@]+$` read literally. */
  ghost predicate EmailShape(email: string) {
    exists a, b, c :: PlainRun(a) && PlainRun(b) && PlainRun(c) && email == a + "@" + b + "." + c
  }

  /** A non-empty slice of a plain run is a plain run. */
  lemma PlainRunSlice(s: string, lo: nat, hi: nat)
    requires PlainRun(s) && lo < hi <= |s|
    ensures PlainRun(s[lo..hi])
  {
    assert forall k :: 0 <= k < hi - lo ==> s[lo..hi][k] == s[lo + k];
  }

  /** Every string the computed check accepts matches the expression. */
  lemma ValidateEmailSound(email: string)
    requires ValidateEmail(email)
    ensures EmailShape(email)
  {
    var i := IndexOf(email, '@');
    var a, d := email[..i], email[i + 1..];
    assert PlainRun(a) && PlainRun(d);
    var j :| 0 < j < |d| - 1 && d[j] == '.';
    PlainRunSlice(d, 0, j);
    PlainRunSlice(d, j + 1, |d|);
    var b, c := d[0..j], d[j + 1..|d|];
    assert d == b + "." + c;
    assert email == a + "@" + d;
    assert email == a + "@" + b + "." + c;
    assert PlainRun(a) && PlainRun(b) && PlainRun(c);
  }

  /** Every string the expression matches, the computed check accepts: the
      first `@` is the one after `a`, since `a` holds none. */
  lemma ValidateEmailComplete(email: string, a: string, b: string, c: string)
    requires PlainRun(a) && PlainRun(b) && PlainRun(c) && email == a + "@" + b + "." + c
    ensures ValidateEmail(email)
  {
    assert email[|a|] == '@';
    assert forall k :: 0 <= k < |a| ==> email[k] == a[k];
    var i := IndexOf(email, '@');
    assert i == |a|;
    var d := email[i + 1..];
    assert d == b + "." + c;
    assert email[..i] == a;
    assert d[|b|] == '.';
  }

  /** The computed check accepts exactly the strings the expression matches. */
  lemma ValidateEmailMatchesRegex(email: string)
    ensures ValidateEmail(email) <==> EmailShape(email)
  {
    if ValidateEmail(email) {
      ValidateEmailSound(email);
    }
    if EmailShape(email) {
      var a, b, c :| PlainRun(a) && PlainRun(b) && PlainRun(c) && email == a + "@" + b + "." + c;
      ValidateEmailComplete(email, a, b, c);
    }
  }

  /** `validatePhoneNumber`: at least ten digits once separators are dropped. */
  function ValidatePhoneNumber(phone: string): (r: bool)
    ensures r <==> |DigitsOnly(phone)| >= 10
  {
    HasTenDigits(phone)
  }

  /** `validateRollNumber`, `validateName` and `validateClassCode`, which are
      the same test: the value holds some character that is not white space. */
  function ValidateNonBlank(s: string): (r: bool)
    ensures r <==> exists k :: 0 <= k < |s| && !IsSpace(s[k])
  {
    !IsBlank(s)
  }

  /** `!data[field] || data[field].trim() === ""`. */
  predicate Missing(data: map<string, string>, field: string) {
    field !in data || IsBlank(data[field])
  }

  /** An email is given, is not blank, and fails the pattern. */
  predicate BadEmail(data: map<string, string>) {
    "email" in data && !IsBlank(data["email"]) && !ValidateEmail(data["email"])
  }

  /** A phone number is given, is not blank, and has too few digits. */
  predicate BadPhone(data: map<string, string>) {
    "phoneNumber" in data && !IsBlank(data["phoneNumber"]) && !ValidatePhoneNumber(data["phoneNumber"])
  }

  /** `validateForm`: one "<field> is required" error per required field
      that is missing or blank, then a format error for an email or phone
      number that was given but is malformed. Nothing else is reported, and a
      field is never reported as both required and malformed. */
  method ValidateForm(data: map<string, string>, requiredFields: seq<string>) returns (errors: map<string, string>)
    ensures forall f :: f in errors <==>
      (f in requiredFields && Missing(data, f)) || (f == "email" && BadEmail(data)) || (f == "phoneNumber" && BadPhone(data))
    ensures forall f :: f in requiredFields && Missing(data, f) ==> f in errors && errors[f] == f + " is required"
    ensures BadEmail(data) ==> errors["email"] == "Invalid email format"
    ensures BadPhone(data) ==> errors["phoneNumber"] == "Invalid phone number"
  {
    errors := map[];
    for i := 0 to |requiredFields|
      invariant forall f :: f in errors <==> f in requiredFields[..i] && Missing(data, f)
      invariant forall f :: f in errors ==> errors[f] == f + " is required"
    {
      var field := requiredFields[i];
      if Missing(data, field) {
        errors := errors[field := field + " is required"];
      }
      assert requiredFields[..i + 1] == requiredFields[..i] + [field];
    }
    assert requiredFields[..|requiredFields|] == requiredFields;
    ghost var required := errors;
    var badEmail, badPhone := BadEmail(data), BadPhone(data);
    assert badEmail ==> "email" !in required;
    assert badPhone ==> "phoneNumber" !in required;
    if badEmail {
      errors := errors["email" := "Invalid email format"];
    }
    if badPhone {
      errors := errors["phoneNumber" := "Invalid phone number"];
    }
  }
}

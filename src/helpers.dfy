/** The frontend's display helpers: the colour of a percentage and the
    `YYYY-MM-DD` form of a date that the pages send back as a query value. */
module Helpers {
  import opened Util

  const GREEN: string := "#4CAF50"
  const ORANGE: string := "#FF9800"
  const RED: string := "#f44336"

  /** `getAttendanceColor`. The pages pass it the report's two-decimal
      `attendancePercentage`, so the percentage is in hundredths: 74.99% is
      7499 and the thresholds 75 and 50 are 7500 and 5000. */
  function GetAttendanceColor(hundredths: int): (c: string)
    ensures c == GREEN <==> hundredths >= 7500
    ensures c == ORANGE <==> 5000 <= hundredths < 7500
    ensures c == RED <==> hundredths < 5000
  {
    if hundredths >= 7500 then GREEN else if hundredths >= 5000 then ORANGE else RED
  }

  function ColorRank(c: string): nat {
    if c == GREEN then 2 else if c == ORANGE then 1 else 0
  }

  /** A higher percentage never gets a worse colour. */
  lemma AttendanceColorMonotone(p: int, q: int)
    requires p <= q
    ensures ColorRank(GetAttendanceColor(p)) <= ColorRank(GetAttendanceColor(q))
  {}

  /** The calendar fields of a `Date`: `getFullYear()`, the zero-based
      `getMonth()` and `getDate()`. */
  datatype CalendarDate = CalendarDate(year: int, month: nat, day: nat)

  predicate CalendarValid(d: CalendarDate) {
    d.year >= 0 && d.month < 12 && 1 <= d.day <= 31
  }

  /** `formatDate`: "" for a missing date, otherwise the year, the one-based
      month and the day, the last two padded to two digits. */
  function FormatDate(date: Option<CalendarDate>): (r: string)
    ensures date.None? <==> r == []
    ensures date.Some? && CalendarValid(date.value) ==>
      && |r| == |NatToString(date.value.year)| + 6
      && r[|r| - 6] == '-' && r[|r| - 3] == '-'
      && r[..|r| - 6] == NatToString(date.value.year)
  {
    match date
    case None => []
    case Some(d) =>
      NatToStringTwoDigits(d.month + 1);
      NatToStringTwoDigits(d.day);
      var m := PadStart2(NatToString(d.month + 1));
      var dd := PadStart2(NatToString(d.day));
      IntToString(d.year) + "-" + m + "-" + dd
  }

  /** The inverse of `FormatDate`: reads a `YYYY-MM-DD` string back into its
      calendar fields. */
  function ParseDate(s: string): Option<CalendarDate> {
    if |s| < 7 || s[|s| - 6] != '-' || s[|s| - 3] != '-' then None
    else
      var y := s[..|s| - 6];
      var m := s[|s| - 5..|s| - 3];
      var d := s[|s| - 2..];
      if AllDigits(y) && AllDigits(m) && AllDigits(d) && ParseNat(m) >= 1 then
        Some(CalendarDate(ParseNat(y), ParseNat(m) - 1, ParseNat(d)))
      else None
  }

  lemma NatToStringTwoDigits(n: nat)
    ensures n < 100 ==> |NatToString(n)| == if n < 10 then 1 else 2
  {
    if 10 <= n < 100 { assert NatToString(n) == NatToString(n / 10) + [DigitChar(n % 10)]; }
  }

  /** A two-digit field reads back as its number. */
  lemma PadStart2Parse(n: nat)
    requires n < 100
    ensures |PadStart2(NatToString(n))| == 2 && AllDigits(PadStart2(NatToString(n)))
    ensures ParseNat(PadStart2(NatToString(n))) == n
  {
    NatToStringTwoDigits(n);
    var p := PadStart2(NatToString(n));
    if n < 10 {
      var c := DigitChar(n);
      assert p == ['0', c];
      assert p[..1] == ['0'] && ['0'][..0] == [];
      assert ParseNat(p) == ParseNat(['0']) * 10 + DigitValue(c);
    } else {
      ParseNatToString(n);
    }
  }

  lemma SliceParts(a: string, b: string, c: string)
    ensures (a + b + c)[..|a|] == a && (a + b + c)[|a|..|a| + |b|] == b && (a + b + c)[|a| + |b|..] == c
  {}

  /** A formatted valid date parses back to the same calendar day. */
  lemma FormatDateRoundTrip(d: CalendarDate)
    requires CalendarValid(d)
    ensures ParseDate(FormatDate(Some(d))) == Some(d)
  {
    var s := FormatDate(Some(d));
    var y := NatToString(d.year);
    var m := PadStart2(NatToString(d.month + 1));
    var dd := PadStart2(NatToString(d.day));
    PadStart2Parse(d.month + 1);
    PadStart2Parse(d.day);
    ParseNatToString(d.year);
    assert s == (y + "-") + m + ("-" + dd);
    SliceParts(y + "-", m, "-" + dd);
    assert s[|s| - 5..|s| - 3] == m;
    SliceParts(y, "-", m + "-" + dd);
    assert s[..|s| - 6] == y;
    SliceParts(y + "-" + m + "-", dd, []);
    assert s[|s| - 2..] == dd;
  }
}

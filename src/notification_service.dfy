/** The pure helpers of the notification service: the integer percentage used
    to select students with low attendance, and the normalisation of a phone
    number to international form before an SMS is sent. */
module NotificationService {
  import opened Util

  /** `calculateAttendancePercentage`: 0 for no days, otherwise the share of
      attended days as a whole percentage, rounded to the nearest integer with
      halves rounded up (`Math.round`). */
  function CalculateAttendancePercentage(presentDays: nat, totalDays: nat): (p: int)
    ensures totalDays == 0 ==> p == 0
    ensures totalDays > 0 ==> (2 * p - 1) * totalDays <= 200 * presentDays < (2 * p + 1) * totalDays
    ensures presentDays <= totalDays ==> 0 <= p <= 100
  {
    if totalDays == 0 then 0
    else
      var r := RoundDiv(100 * presentDays, totalDays);
      if presentDays <= totalDays then
        RoundDivBounds(100 * presentDays, totalDays, 0, 100);
        r
      else r
  }

  /** For a fixed number of days, attending more never lowers the percentage. */
  lemma PercentageMonotone(p1: nat, p2: nat, total: nat)
    requires p1 <= p2
    ensures CalculateAttendancePercentage(p1, total) <= CalculateAttendancePercentage(p2, total)
  {
    if total > 0 { RoundDivMonotone(100 * p1, 100 * p2, total); }
  }

  /** Every day attended gives 100, none gives 0. */
  lemma PercentageExtremes(total: nat)
    requires total > 0
    ensures CalculateAttendancePercentage(total, total) == 100
    ensures CalculateAttendancePercentage(0, total) == 0
  {
    RoundDivExact(100, total);
    RoundDivExact(0, total);
  }

  /** 3 of 4 days is 75; 2 of 3 rounds up to 67; 1 of 8 (12.5) rounds half up to 13. */
  lemma PercentageExamples()
    ensures CalculateAttendancePercentage(3, 4) == 75
    ensures CalculateAttendancePercentage(2, 3) == 67
    ensures CalculateAttendancePercentage(1, 8) == 13
  {}

  /** `formatPhone`: an absent number gives ""; otherwise the trimmed number
      keeps a "+91" prefix, gets "+" before a "91" prefix, gets "+91" when it
      has exactly ten characters, and gets "+" in every other case. So the
      result is always the trimmed number behind "", "+" or "+91", and it
      starts with "+" whenever a number was given. */
  function FormatPhone(num: string): (r: string)
    ensures num == [] <==> r == []
    ensures num != [] ==> r[0] == '+'
    ensures num != [] ==> exists pre :: pre in ["", "+", "+91"] && r == pre + Trim(num)
    ensures num != [] ==> (r == Trim(num) <==> StartsWith(Trim(num), "+91"))
  {
    if num == [] then []
    else
      var t := Trim(num);
      if StartsWith(t, "+91") then
        assert "" + t == t;
        t
      else if StartsWith(t, "91") then "+" + t
      else if |t| == 10 then "+91" + t
      else "+" + t
  }

  /** A formatted number has no white space at its ends. */
  lemma FormatPhoneTrimmed(num: string)
    requires num != []
    ensures Trim(FormatPhone(num)) == FormatPhone(num)
  {
    var r := FormatPhone(num);
    var t := Trim(num);
    var pre :| pre in ["", "+", "+91"] && r == pre + t;
    assert r[|r| - 1] == if t == [] then pre[|pre| - 1] else t[|t| - 1];
    TrimNoEdgeSpace(r);
  }

  /** Formatting a formatted number again changes nothing exactly when the
      first pass produced a "+91" number; a number that fell through to the
      plain "+" case is never stable ("123" gives "+123" and then "++123"). */
  lemma FormatPhoneStable(num: string)
    requires num != []
    ensures FormatPhone(FormatPhone(num)) == FormatPhone(num) <==> StartsWith(FormatPhone(num), "+91")
  {
    FormatPhoneTrimmed(num);
  }

  /** The "91" test comes before the ten-character test: a number that
      already carries the country code without "+" only gets the "+", even
      when it is ten characters long. */
  lemma FormatPhoneCountryCode(num: string)
    requires StartsWith(Trim(num), "91")
    ensures FormatPhone(num) == "+" + Trim(num)
  {
    var t := Trim(num);
    assert t[0] == '9';
    assert !StartsWith(t, "+91");
  }

  /** A ten-character number without a country code gets "+91". */
  lemma FormatPhoneLocal(num: string)
    requires |Trim(num)| == 10 && Trim(num)[0] != '+' && !StartsWith(Trim(num), "91")
    ensures FormatPhone(num) == "+91" + Trim(num)
  {
    assert !StartsWith(Trim(num), "+91");
  }
}

/** backend/utils/reportGenerator.js without its HTML/PDF templates: the
    statistics aggregator `generateAttendanceReport`, the bar colour buckets
    of `getBarColor` and the `escapeHtml` sanitiser. */
module ReportGenerator {
  import opened Util
  import opened AttendanceModel

  /** One student's statistics. The percentage is kept exactly, in hundredths
      of a percent: the source's two-decimal 80.25 is 8025 here. */
  datatype Stats = Stats(
    totalDays: nat,
    presentDays: nat,
    absentDays: nat,
    lateDays: nat,
    leaveDays: nat,
    attendancePercentage: nat)

  /** `(records || []).filter(r => r !== null && r !== undefined)`. */
  function NonNull(entries: seq<Option<Record>>): (r: seq<Record>)
    ensures |r| <= |entries|
    ensures forall x :: x in r <==> Some(x) in entries
  {
    if entries == [] then []
    else
      var init := entries[..|entries| - 1];
      assert entries == init + [entries[|entries| - 1]];
      NonNull(init) + (if entries[|entries| - 1].Some? then [entries[|entries| - 1].value] else [])
  }

  lemma {:induction false} NonNullAppend(a: seq<Option<Record>>, b: seq<Option<Record>>)
    ensures NonNull(a + b) == NonNull(a) + NonNull(b)
    decreases |b|
  {
    if b == [] {
      assert a + b == a;
    } else {
      assert (a + b)[..|a + b| - 1] == a + b[..|b| - 1];
      NonNullAppend(a, b[..|b| - 1]);
    }
  }

  /** The number of records whose status is `status`. */
  function CountStatus(rs: seq<Record>, status: string): (n: nat)
    ensures n <= |rs|
  {
    if rs == [] then 0
    else CountStatus(rs[..|rs| - 1], status) + (if rs[|rs| - 1].status == status then 1 else 0)
  }

  lemma {:induction false} CountStatusAppend(a: seq<Record>, b: seq<Record>, status: string)
    ensures CountStatus(a + b, status) == CountStatus(a, status) + CountStatus(b, status)
    decreases |b|
  {
    if b == [] {
      assert a + b == a;
    } else {
      assert (a + b)[..|a + b| - 1] == a + b[..|b| - 1];
      CountStatusAppend(a, b[..|b| - 1], status);
    }
  }

  /** The number of records whose status is none of the four enum values. */
  function CountUnknown(rs: seq<Record>): (n: nat)
    ensures n <= |rs|
  {
    if rs == [] then 0
    else CountUnknown(rs[..|rs| - 1]) + (if IsStatus(rs[|rs| - 1].status) then 0 else 1)
  }

  /** `Math.round(attended / total * 100 * 100) / 100` in hundredths, 0 for no days. */
  function PercentHundredths(attended: nat, total: nat): (p: nat)
    ensures total == 0 ==> p == 0
    ensures total > 0 ==> (2 * p - 1) * total <= 20000 * attended < (2 * p + 1) * total
    ensures attended <= total ==> p <= 10000
  {
    if total == 0 then 0
    else
      var r := RoundDiv(10000 * attended, total);
      MulCancelLess(0, 2 * r + 1, total);
      if attended <= total then
        RoundDivBounds(10000 * attended, total, 0, 10000);
        r
      else r
  }

  function Entries(records: Option<seq<Option<Record>>>): seq<Option<Record>> {
    match records
    case None => []
    case Some(e) => e
  }

  /** The statistics of the non-null records `rs`. */
  function Tally(rs: seq<Record>): Stats {
    var present := CountStatus(rs, PRESENT);
    var late := CountStatus(rs, LATE);
    Stats(|rs|, present, CountStatus(rs, ABSENT), late, CountStatus(rs, LEAVE),
          PercentHundredths(present + late, |rs|))
  }

  /** The statistics `generateAttendanceReport` answers for `records`. */
  function Aggregate(records: Option<seq<Option<Record>>>): Stats {
    Tally(NonNull(Entries(records)))
  }

  /** The source's loop: drop the null entries, then count each record under
      its status; an unknown status is counted in no bucket. */
  method GenerateAttendanceReport(records: Option<seq<Option<Record>>>) returns (stats: Stats)
    ensures stats == Aggregate(records)
  {
    var valid := NonNull(Entries(records));
    var totalDays, presentDays, absentDays, lateDays, leaveDays := 0, 0, 0, 0, 0;
    var i := 0;
    while i < |valid|
      invariant 0 <= i <= |valid|
      invariant totalDays == i
      invariant presentDays == CountStatus(valid[..i], PRESENT)
      invariant absentDays == CountStatus(valid[..i], ABSENT)
      invariant lateDays == CountStatus(valid[..i], LATE)
      invariant leaveDays == CountStatus(valid[..i], LEAVE)
    {
      assert valid[..i + 1][..i] == valid[..i];
      totalDays := totalDays + 1;
      var status := valid[i].status;
      if status == PRESENT {
        presentDays := presentDays + 1;
      } else if status == ABSENT {
        absentDays := absentDays + 1;
      } else if status == LATE {
        lateDays := lateDays + 1;
      } else if status == LEAVE {
        leaveDays := leaveDays + 1;
      }
      i := i + 1;
    }
    assert valid[..i] == valid;
    var percentage := if totalDays > 0 then PercentHundredths(presentDays + lateDays, totalDays) else 0;
    stats := Stats(totalDays, presentDays, absentDays, lateDays, leaveDays, percentage);
  }

  /** The four buckets and the unknown statuses together account for every
      non-null entry once. */
  lemma {:induction false} StatusCountsPartition(rs: seq<Record>)
    ensures CountStatus(rs, PRESENT) + CountStatus(rs, ABSENT) + CountStatus(rs, LATE)
            + CountStatus(rs, LEAVE) + CountUnknown(rs) == |rs|
    ensures (forall r :: r in rs ==> IsStatus(r.status)) ==> CountUnknown(rs) == 0
  {
    if rs != [] {
      var init := rs[..|rs| - 1];
      StatusCountsPartition(init);
      assert forall r :: r in init ==> r in rs;
    }
  }

  /** The statistics of an entry list: the day count is the number of non-null
      entries, the four buckets sum to at most that (to exactly that when every
      status is in the enum) and the percentage lies in [0, 100]. */
  lemma AggregateBounds(records: Option<seq<Option<Record>>>)
    ensures Aggregate(records).totalDays == |NonNull(Entries(records))|
    ensures var s := Aggregate(records);
      s.presentDays + s.absentDays + s.lateDays + s.leaveDays <= s.totalDays
      && s.attendancePercentage <= 10000
    ensures (forall r :: Some(r) in Entries(records) ==> IsStatus(r.status)) ==>
      var s := Aggregate(records);
      s.presentDays + s.absentDays + s.lateDays + s.leaveDays == s.totalDays
  {
    StatusCountsPartition(NonNull(Entries(records)));
  }

  lemma NonNullMiddle(a: seq<Option<Record>>, e: Option<Record>, b: seq<Option<Record>>)
    ensures NonNull(a + [e] + b) == NonNull(a) + (if e.Some? then [e.value] else []) + NonNull(b)
  {
    NonNullAppend(a + [e], b);
    NonNullAppend(a, [e]);
    assert [e][..0] == [];
  }

  lemma CountStatusMiddle(x: seq<Record>, r: Record, y: seq<Record>, status: string)
    ensures CountStatus(x + [r] + y, status)
            == CountStatus(x, status) + CountStatus(y, status) + (if r.status == status then 1 else 0)
  {
    CountStatusAppend(x + [r], y, status);
    CountStatusAppend(x, [r], status);
    assert [r][..0] == [];
  }

  /** A null `records` argument and null entries do not change the statistics. */
  lemma NullEntriesIgnored(a: seq<Option<Record>>, b: seq<Option<Record>>)
    ensures Aggregate(Some(a + [None] + b)) == Aggregate(Some(a + b))
  {
    NonNullMiddle(a, None, b);
    NonNullAppend(a, b);
    assert NonNull(Entries(Some(a + [None] + b))) == NonNull(Entries(Some(a + b)));
  }

  lemma NoRecordsNoDays()
    ensures Aggregate(None) == Aggregate(Some([])) == Stats(0, 0, 0, 0, 0, 0)
  {
  }

  lemma {:induction false} TallyLateOverAbsent(x: seq<Record>, y: seq<Record>, l: Record, ab: Record)
    requires l.status == LATE && ab.status == ABSENT
    ensures Tally(x + [l] + y).totalDays == Tally(x + [ab] + y).totalDays
    ensures Tally(x + [l] + y).presentDays + Tally(x + [l] + y).lateDays
            == Tally(x + [ab] + y).presentDays + Tally(x + [ab] + y).lateDays + 1
    ensures Tally(x + [l] + y).attendancePercentage >= Tally(x + [ab] + y).attendancePercentage
  {
    CountStatusMiddle(x, l, y, LATE);
    CountStatusMiddle(x, ab, y, LATE);
    CountStatusMiddle(x, l, y, PRESENT);
    CountStatusMiddle(x, ab, y, PRESENT);
    var withLate, withAbsent := x + [l] + y, x + [ab] + y;
    var k := CountStatus(withAbsent, PRESENT) + CountStatus(withAbsent, LATE);
    assert CountStatus(withLate, PRESENT) + CountStatus(withLate, LATE) == k + 1;
    assert |withLate| == |withAbsent|;
    PercentMonotone(k, k + 1, |withLate|);
  }

  /** More attended days over the same total never lower the percentage. */
  lemma PercentMonotone(a: nat, b: nat, total: nat)
    requires a <= b
    ensures PercentHundredths(a, total) <= PercentHundredths(b, total)
  {
    if total > 0 {
      RoundDivMonotone(10000 * a, 10000 * b, total);
    }
  }

  /** Late counts as attended: marking one day Late instead of Absent never
      lowers the percentage, and raises present-or-late by one. */
  lemma LateCountsAsAttended(a: seq<Option<Record>>, b: seq<Option<Record>>, student: Id, remarks: string)
    ensures var late := Aggregate(Some(a + [Some(Record(student, LATE, remarks))] + b));
      var absent := Aggregate(Some(a + [Some(Record(student, ABSENT, remarks))] + b));
      late.totalDays == absent.totalDays
      && late.presentDays + late.lateDays == absent.presentDays + absent.lateDays + 1
      && late.attendancePercentage >= absent.attendancePercentage
  {
    var l, ab := Record(student, LATE, remarks), Record(student, ABSENT, remarks);
    NonNullMiddle(a, Some(l), b);
    NonNullMiddle(a, Some(ab), b);
    assert NonNull(Entries(Some(a + [Some(l)] + b))) == NonNull(a) + [l] + NonNull(b);
    assert NonNull(Entries(Some(a + [Some(ab)] + b))) == NonNull(a) + [ab] + NonNull(b);
    TallyLateOverAbsent(NonNull(a), NonNull(b), l, ab);
  }

  /** `n` copies of the entry `e`. */
  function Repeat(e: Option<Record>, n: nat): (r: seq<Option<Record>>)
    ensures |r| == n
  {
    seq(n, _ => e)
  }

  lemma {:induction false} TallyRepeat(r: Record, n: nat)
    ensures var rs := NonNull(Repeat(Some(r), n));
      |rs| == n
      && forall status :: CountStatus(rs, status) == if r.status == status then n else 0
  {
    if n > 0 {
      assert Repeat(Some(r), n)[..n - 1] == Repeat(Some(r), n - 1);
      TallyRepeat(r, n - 1);
    }
  }

  /** Seven Present, one Late and two Absent days give 80.00%. */
  lemma EightyPercentExample(student: Id)
    ensures var p, l, ab := Record(student, PRESENT, ""), Record(student, LATE, ""), Record(student, ABSENT, "");
      var s := Aggregate(Some(Repeat(Some(p), 7) + [Some(l)] + Repeat(Some(ab), 2)));
      s.totalDays == 10 && s.presentDays == 7 && s.lateDays == 1 && s.absentDays == 2
      && s.attendancePercentage == 8000
  {
    var p, l, ab := Record(student, PRESENT, ""), Record(student, LATE, ""), Record(student, ABSENT, "");
    var x, y := NonNull(Repeat(Some(p), 7)), NonNull(Repeat(Some(ab), 2));
    NonNullMiddle(Repeat(Some(p), 7), Some(l), Repeat(Some(ab), 2));
    assert NonNull(Entries(Some(Repeat(Some(p), 7) + [Some(l)] + Repeat(Some(ab), 2)))) == x + [l] + y;
    TallyRepeat(p, 7);
    TallyRepeat(ab, 2);
    CountStatusMiddle(x, l, y, PRESENT);
    CountStatusMiddle(x, l, y, LATE);
    CountStatusMiddle(x, l, y, ABSENT);
    assert CountStatus(x + [l] + y, PRESENT) == 7;
    assert CountStatus(x + [l] + y, LATE) == 1;
    assert CountStatus(x + [l] + y, ABSENT) == 2;
    assert |x + [l] + y| == 10;
    RoundDivExact(8000, 10);
  }

  const GREEN: string := "#28a745"
  const AMBER: string := "#ffc107"
  const RED: string := "#dc3545"

  /** `getBarColor`, on a percentage in hundredths. */
  function GetBarColor(pct: int): (c: string)
    ensures c == GREEN <==> pct >= 8500
    ensures c == AMBER <==> 6000 <= pct < 8500
    ensures c == RED <==> pct < 6000
  {
    if pct >= 8500 then GREEN else if pct >= 6000 then AMBER else RED
  }

  function ColorRank(c: string): nat {
    if c == GREEN then 2 else if c == AMBER then 1 else 0
  }

  /** A higher percentage never gets a worse colour. */
  lemma BarColorMonotone(p: int, q: int)
    requires p <= q
    ensures ColorRank(GetBarColor(p)) <= ColorRank(GetBarColor(q))
  {}

  /** The entity each special character becomes. */
  function EscapeChar(c: char): string {
    if c == '&' then "&amp;"
    else if c == '<' then "&lt;"
    else if c == '>' then "&gt;"
    else if c == '"' then "&quot;"
    else if c == '\'' then "&#039;"
    else [c]
  }

  /** Escaping one character at a time: the reference for `escapeHtml`. */
  function EscapeEach(s: string): string {
    if s == [] then [] else EscapeChar(s[0]) + EscapeEach(s[1..])
  }

  /** The chain of `replaceAll` calls of `escapeHtml`, `&` first. */
  function ReplaceChain(s: string): string {
    ReplaceChar(ReplaceChar(ReplaceChar(ReplaceChar(ReplaceChar(
      s, '&', "&amp;"), '<', "&lt;"), '>', "&gt;"), '"', "&quot;"), '\'', "&#039;")
  }

  /** `escapeHtml`: null and undefined give "", and no `<`, `>`, `"` or `'`
      is left in the result. */
  function EscapeHtml(str: Option<string>): (r: string)
    ensures str.None? ==> r == ""
    ensures '<' !in r && '>' !in r && '"' !in r && '\'' !in r
  {
    match str
    case None => ""
    case Some(s) => ReplaceChainClean(s); ReplaceChain(s)
  }

  /** A replacement writes no character its input and its entity lack. */
  lemma ReplaceCharKeepsOut(s: string, c: char, rep: string, x: char)
    requires x !in s && x !in rep
    ensures x !in ReplaceChar(s, c, rep)
  {}

  /** Each replacement removes its character, and no later one writes it back. */
  lemma ReplaceChainClean(s: string)
    ensures var r := ReplaceChain(s); '<' !in r && '>' !in r && '"' !in r && '\'' !in r
  {
    var s1 := ReplaceChar(s, '&', "&amp;");
    var s2 := ReplaceChar(s1, '<', "&lt;");
    var s3 := ReplaceChar(s2, '>', "&gt;");
    var s4 := ReplaceChar(s3, '"', "&quot;");
    assert '<' !in "&gt;" && '<' !in "&quot;" && '<' !in "&#039;";
    assert '>' !in "&quot;" && '>' !in "&#039;" && '"' !in "&#039;";
    ReplaceCharKeepsOut(s2, '>', "&gt;", '<');
    ReplaceCharKeepsOut(s3, '"', "&quot;", '<');
    ReplaceCharKeepsOut(s3, '"', "&quot;", '>');
    ReplaceCharKeepsOut(s4, '\'', "&#039;", '<');
    ReplaceCharKeepsOut(s4, '\'', "&#039;", '>');
    ReplaceCharKeepsOut(s4, '\'', "&#039;", '"');
  }

  lemma ReplaceChainAppend(a: string, b: string)
    ensures ReplaceChain(a + b) == ReplaceChain(a) + ReplaceChain(b)
  {
    ReplaceCharAppend(a, b, '&', "&amp;");
    var a1, b1 := ReplaceChar(a, '&', "&amp;"), ReplaceChar(b, '&', "&amp;");
    ReplaceCharAppend(a1, b1, '<', "&lt;");
    var a2, b2 := ReplaceChar(a1, '<', "&lt;"), ReplaceChar(b1, '<', "&lt;");
    ReplaceCharAppend(a2, b2, '>', "&gt;");
    var a3, b3 := ReplaceChar(a2, '>', "&gt;"), ReplaceChar(b2, '>', "&gt;");
    ReplaceCharAppend(a3, b3, '"', "&quot;");
    var a4, b4 := ReplaceChar(a3, '"', "&quot;"), ReplaceChar(b3, '"', "&quot;");
    ReplaceCharAppend(a4, b4, '\'', "&#039;");
  }

  lemma ReplaceCharSingle(c: char, x: char, rep: string)
    ensures ReplaceChar([c], x, rep) == if c == x then rep else [c]
  {
    assert [c][1..] == [];
  }

  /** A string free of the five special characters passes the chain unchanged. */
  lemma ReplaceChainPlain(s: string)
    requires '&' !in s && '<' !in s && '>' !in s && '"' !in s && '\'' !in s
    ensures ReplaceChain(s) == s
  {
    ReplaceCharAbsent(s, '&', "&amp;");
    ReplaceCharAbsent(s, '<', "&lt;");
    ReplaceCharAbsent(s, '>', "&gt;");
    ReplaceCharAbsent(s, '"', "&quot;");
    ReplaceCharAbsent(s, '\'', "&#039;");
  }

  lemma ReplaceChainAmp(c: char)
    requires c == '&'
    ensures ReplaceChain([c]) == "&amp;"
  {
    var e := "&amp;";
    assert e == ['&'] + "amp;";
    ReplaceCharSingle(c, '&', e);
    assert '<' !in e && '>' !in e && '"' !in e && '\'' !in e;
    ReplaceCharAbsent(e, '<', "&lt;");
    ReplaceCharAbsent(e, '>', "&gt;");
    ReplaceCharAbsent(e, '"', "&quot;");
    ReplaceCharAbsent(e, '\'', "&#039;");
  }

  lemma ReplaceChainLt(c: char)
    requires c == '<'
    ensures ReplaceChain([c]) == "&lt;"
  {
    var e := "&lt;";
    ReplaceCharSingle(c, '&', "&amp;");
    ReplaceCharSingle(c, '<', e);
    assert '>' !in e && '"' !in e && '\'' !in e;
    ReplaceCharAbsent(e, '>', "&gt;");
    ReplaceCharAbsent(e, '"', "&quot;");
    ReplaceCharAbsent(e, '\'', "&#039;");
  }

  lemma ReplaceChainGt(c: char)
    requires c == '>'
    ensures ReplaceChain([c]) == "&gt;"
  {
    var e := "&gt;";
    ReplaceCharSingle(c, '&', "&amp;");
    ReplaceCharSingle(c, '<', "&lt;");
    ReplaceCharSingle(c, '>', e);
    assert '"' !in e && '\'' !in e;
    ReplaceCharAbsent(e, '"', "&quot;");
    ReplaceCharAbsent(e, '\'', "&#039;");
  }

  lemma ReplaceChainQuot(c: char)
    requires c == '"'
    ensures ReplaceChain([c]) == "&quot;"
  {
    var e := "&quot;";
    ReplaceCharSingle(c, '&', "&amp;");
    ReplaceCharSingle(c, '<', "&lt;");
    ReplaceCharSingle(c, '>', "&gt;");
    ReplaceCharSingle(c, '"', e);
    assert '\'' !in e;
    ReplaceCharAbsent(e, '\'', "&#039;");
  }

  lemma ReplaceChainApos(c: char)
    requires c == '\''
    ensures ReplaceChain([c]) == "&#039;"
  {
    ReplaceCharSingle(c, '&', "&amp;");
    ReplaceCharSingle(c, '<', "&lt;");
    ReplaceCharSingle(c, '>', "&gt;");
    ReplaceCharSingle(c, '"', "&quot;");
    ReplaceCharSingle(c, '\'', "&#039;");
  }

  /** Every entity the later replacements write is left alone by them. */
  lemma ReplaceChainChar(c: char)
    ensures ReplaceChain([c]) == EscapeChar(c)
  {
    if c == '&' {
      ReplaceChainAmp(c);
    } else if c == '<' {
      ReplaceChainLt(c);
    } else if c == '>' {
      ReplaceChainGt(c);
    } else if c == '"' {
      ReplaceChainQuot(c);
    } else if c == '\'' {
      ReplaceChainApos(c);
    } else {
      ReplaceChainPlain([c]);
    }
  }

  /** Because `&` is replaced first, the chain escapes each character exactly
      once: no entity is escaped a second time. */
  lemma {:induction false} EscapeHtmlIsSinglePass(s: string)
    ensures EscapeHtml(Some(s)) == EscapeEach(s)
  {
    if s != [] {
      assert s == [s[0]] + s[1..];
      ReplaceChainAppend([s[0]], s[1..]);
      ReplaceChainChar(s[0]);
      EscapeHtmlIsSinglePass(s[1..]);
    }
  }

  /** The character whose entity `s` starts with, if it starts with one of
      the five. */
  function EntityAt(s: string): (r: Option<char>)
    ensures r.Some? ==> StartsWith(s, EscapeChar(r.value)) && |EscapeChar(r.value)| > 1
  {
    if s == [] || s[0] != '&' then None
    else if StartsWith(s, "&amp;") then Some('&')
    else if StartsWith(s, "&lt;") then Some('<')
    else if StartsWith(s, "&gt;") then Some('>')
    else if StartsWith(s, "&quot;") then Some('"')
    else if StartsWith(s, "&#039;") then Some('\'')
    else None
  }

  /** Decoding the five entities back to their characters. */
  function UnescapeHtml(s: string): string
    decreases |s|
  {
    if s == [] then []
    else match EntityAt(s)
      case Some(c) => [c] + UnescapeHtml(s[|EscapeChar(c)|..])
      case None => [s[0]] + UnescapeHtml(s[1..])
  }

  lemma EntityAtEscape(c: char, t: string)
    ensures EntityAt(EscapeChar(c) + t) == if |EscapeChar(c)| > 1 then Some(c) else None
  {
    var e := EscapeChar(c) + t;
    if c == '&' {
      assert e[..5] == "&amp;";
    } else if c == '<' {
      assert e[..4] == "&lt;" && e[1] == 'l';
    } else if c == '>' {
      assert e[..4] == "&gt;" && e[1] == 'g';
    } else if c == '"' {
      assert e[..6] == "&quot;" && e[1] == 'q';
    } else if c == '\'' {
      assert e[..6] == "&#039;" && e[1] == '#';
    } else {
      assert e[0] == c;
    }
  }

  lemma UnescapeEscapeChar(c: char, t: string)
    ensures UnescapeHtml(EscapeChar(c) + t) == [c] + UnescapeHtml(t)
  {
    var e := EscapeChar(c) + t;
    EntityAtEscape(c, t);
    assert e[|EscapeChar(c)|..] == t;
    if |EscapeChar(c)| == 1 {
      assert e[0] == c;
    }
  }

  /** Escaping loses nothing: decoding the escaped text gives the input back. */
  lemma {:induction false} EscapeHtmlRoundTrip(s: string)
    ensures UnescapeHtml(EscapeHtml(Some(s))) == s
  {
    EscapeHtmlIsSinglePass(s);
    EscapeEachRoundTrip(s);
  }

  lemma {:induction false} EscapeEachRoundTrip(s: string)
    ensures UnescapeHtml(EscapeEach(s)) == s
  {
    if s != [] {
      UnescapeEscapeChar(s[0], EscapeEach(s[1..]));
      EscapeEachRoundTrip(s[1..]);
    }
  }
}

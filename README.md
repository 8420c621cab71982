# Attendance tracker — a verified model of its backend engine

This project models, in Dafny, the core of an attendance tracking system for
teachers. The system keeps four collections: classes, their students, one
attendance document per class and calendar day, and generated reports. The
model covers:

- the statistics aggregator behind every report (`generateAttendanceReport`);
- the attendance controller: a day's document is created on first read,
  missing students are appended as Present, dangling records are pruned,
  and there are save, lock and history operations;
- the report controller: individual and class reports, the roll-number sort,
  the class average, sharing and deletion;
- the low-attendance selector and the SMS, WhatsApp and e-mail alert loops;
- the student and class controllers: add, delete, CSV import, copy from
  another class, create, list, get, update and cascade delete;
- the Mongoose schemas as datatypes and store invariants;
- the pure helpers: CSV validation, the frontend form validators,
  `formatPhone`, `escapeHtml`, the colour buckets, `formatDate` and the
  percentage functions.

The database is the class `Store.Database`. It holds one `seq` field per
collection and a `nextId` counter that hands out fresh document ids. Its
`Valid()` invariant gathers the schema rules: required and trimmed fields,
statuses from the enum, unique `_id`s, a unique `(class, date)` per
attendance document, a unique `(rollNumber, class)` per student, a unique
`classCode`, and `isShared` set exactly when `shareVia` and `sharedAt` are.
Every controller method keeps `Valid()`. Each method states its whole new
state and each error branch's answer, and `unchanged(db)` wherever the
source writes nothing. The loops of the source (the aggregator's counters,
the report roster loop, the selection and alert loops, the CSV row loop, the
form-validator loop) are `while`/`for` loops proved against pure
specification functions. Those functions carry the lemmas.

Conventions:

- Dates are integer milliseconds on one local timeline. A day is
  `[StartOfDay(t), StartOfDay(t) + 86399999]`.
- Report percentages are exact integers in hundredths, so 80.00% is 8000.
  `Math.round(x * 100) / 100` becomes round-half-up division.
- The notification path keeps the source's integer percentage.
- A roll number "parses as a number" when it is a string of decimal digits.
  The empty string counts and reads as 0, as `Number("")` does.
- `localeCompare` is code-point lexicographic order.

## Model

| member | source | states |
|---|---|---|
| ReportGenerator.GenerateAttendanceReport | backend/utils/reportGenerator.js:12-56 | the counting loop returns exactly `Aggregate(records)`: null entries dropped, one counter per known status, percentage in hundredths |
| ReportGenerator.NonNull | backend/utils/reportGenerator.js:20-22 | keeps exactly the non-null entries, never more than the input |
| ReportGenerator.NoRecordsNoDays | backend/utils/reportGenerator.js:20 | a null `records` argument gives the same all-zero statistics as an empty list |
| ReportGenerator.NullEntriesIgnored | backend/utils/reportGenerator.js:20-22 | inserting a null entry anywhere changes no statistic |
| ReportGenerator.StatusCountsPartition | backend/utils/reportGenerator.js:24-42 | each record lands in exactly one of present/absent/late/leave/unknown; with only the four statuses the unknown count is 0 |
| ReportGenerator.AggregateBounds | backend/utils/reportGenerator.js:24-54 | totalDays is the number of non-null entries; the four counts sum to at most totalDays (exactly, when every status is known); the percentage is at most 100.00 |
| ReportGenerator.PercentHundredths | backend/utils/reportGenerator.js:45-54 | 0 with no days; otherwise the nearest hundredth of attended/total × 100, within [0, 100.00] when attended ≤ total |
| ReportGenerator.PercentMonotone | backend/utils/reportGenerator.js:45-54 | more attended days over the same total never lower the percentage |
| ReportGenerator.LateCountsAsAttended | backend/utils/reportGenerator.js:45-46 | replacing an Absent day by a Late one keeps totalDays, adds one attended day and never lowers the percentage |
| ReportGenerator.EightyPercentExample | backend/utils/reportGenerator.js:45-54 | 7 Present, 1 Late and 2 Absent give totalDays 10 and 80.00% |
| ReportGenerator.GetBarColor | backend/utils/reportGenerator.js:4-9 | green iff ≥ 85, amber iff 60 ≤ p < 85, red iff < 60 |
| ReportGenerator.BarColorMonotone | backend/utils/reportGenerator.js:4-9 | a higher percentage never gets a worse colour |
| ReportGenerator.EscapeHtml | backend/utils/reportGenerator.js:296-304 | null gives ""; the output contains none of `<`, `>`, `"`, `'` |
| ReportGenerator.EscapeHtmlIsSinglePass | backend/utils/reportGenerator.js:298-303 | because `&` is replaced first, the replaceAll chain equals escaping each character once |
| ReportGenerator.EscapeHtmlRoundTrip | backend/utils/reportGenerator.js:296-304 | decoding the five entities recovers the input exactly |
| AttendanceModel.StartOfDay | backend/controllers/attendanceController.js:16-20 | a day start at or before t, less than one day before it |
| AttendanceModel.InDayIffStart | backend/controllers/attendanceController.js:25-28 | a stored day start lies in t's day window iff it is t's own day start |
| AttendanceModel.DefaultDate | backend/models/Attendance.js:10-14 | the default date is the start of the current day |
| AttendanceModel.CastRecords | backend/models/Attendance.js:15-32 | the records validate iff each has a student and a status from the enum; the cast keeps student and status in order, with trimmed remarks |
| AttendanceModel.OneDocumentPerDay | backend/models/Attendance.js:47 | under the store invariant, two documents of one class in one day are the same document |
| AttendanceModel.FindDay | backend/controllers/attendanceController.js:25-28 | `findOne` by class and day window: none iff no document matches, otherwise the first match |
| AttendanceModel.FilterDocsValid | backend/models/Attendance.js:47 | deleting documents keeps the per-day uniqueness invariant |
| AttendanceController.DefaultRecordsCover | backend/controllers/attendanceController.js:34-38 | one valid `{Present, ""}` record per roster student, in roster order, covering every roster student |
| AttendanceController.MissingStudents | backend/controllers/attendanceController.js:50-56 | exactly the roster students with no record |
| AttendanceController.Prune | backend/controllers/attendanceController.js:68 | keeps exactly the records whose student still exists |
| AttendanceController.ReconcileSplit | backend/controllers/attendanceController.js:58-68 | reconciling keeps the surviving existing records in order, then appends the new Present records |
| AttendanceController.ReconcileCovers | backend/controllers/attendanceController.js:58-68 | after reconciling, every roster student has a record |
| AttendanceController.ReconcilePrunes | backend/controllers/attendanceController.js:68 | no dangling record survives, and an existing record is dropped only if its student is gone |
| AttendanceController.ReconcileIdempotent | backend/controllers/attendanceController.js:46-71 | a second reconcile with an unchanged roster changes nothing |
| AttendanceController.ReconcileCreates | backend/controllers/attendanceController.js:33-45 | reconciling an empty record list gives the creation records |
| AttendanceController.CreateDay | backend/controllers/attendanceController.js:33-45 | appends a new unlocked day-start document with the default records and a fresh id |
| AttendanceController.SyncDay | backend/controllers/attendanceController.js:46-71 | replaces the existing document's records by their reconciliation, on locked days too |
| AttendanceController.GetAttendance | backend/controllers/attendanceController.js:7-82 | missing date: 400 with no change; no document: create; otherwise reconcile and save whatever the lock |
| AttendanceController.SaveAttendance | backend/controllers/attendanceController.js:87-136 | missing date or records: 400; locked day: 400 with no change; existing day: records replaced by the request's records that carry a student; no day: created from the request records |
| AttendanceController.LockDay | backend/controllers/attendanceController.js:189-196 | sets isLocked on exactly one document |
| AttendanceController.LockDayIdempotent | backend/controllers/attendanceController.js:189-196 | locking twice equals locking once, and locking never changes which document a day finds |
| AttendanceController.LockAttendance | backend/controllers/attendanceController.js:173-208 | missing date: 400; no document: 404; otherwise that day's document is locked and returned, nothing else changes |
| AttendanceController.SortByDate | backend/controllers/attendanceController.js:162 | sorting by date keeps the documents and orders them by date |
| AttendanceController.GetAttendanceHistory | backend/controllers/attendanceController.js:141-168 | 400 iff a bound is missing; otherwise a permutation of the class's documents in the day range, in ascending date order |
| ReportController.FirstRecord | backend/controllers/reportController.js:71-78 | the first record of the student, or none iff the day has no record for them |
| ReportController.DayEntries | backend/controllers/reportController.js:69-79 | one entry per day in the range: that student's record or null |
| ReportController.DayEntriesCountDays | backend/controllers/reportController.js:69-81 | the non-null entries are exactly the days holding a record for the student |
| ReportController.NumericTotalPreorder | backend/controllers/reportController.js:102-118 | on rosters whose roll numbers are all numeric, the comparator is a total preorder |
| ReportController.StringTotalPreorder | backend/controllers/reportController.js:102-118 | on rosters with no numeric roll number, the comparator is a total preorder |
| ReportController.NumericRosterSorted | backend/controllers/reportController.js:102-118 | all-numeric roster: the sort is a permutation ordered by numeric roll value, then by name |
| ReportController.StringRosterSorted | backend/controllers/reportController.js:102-118 | all-non-numeric roster: the sort is a permutation ordered by trimmed roll string, then by name |
| ReportController.MixedRosterCycle | backend/controllers/reportController.js:102-118 | "9" < "10" < "1a" < "9": on mixed rosters the comparator is not a total preorder |
| ReportController.BuildStudentReports | backend/controllers/reportController.js:120-139 | the roster loop builds exactly one entry per student, in roster order |
| ReportController.StudentReport | backend/controllers/reportController.js:123-138 | a student's entry is the aggregate of their record-or-null per day, with name and roll number |
| ReportController.ClassAverage | backend/controllers/reportController.js:142-150 | 0 with no students; otherwise the mean of the percentages rounded to the nearest hundredth |
| ReportController.ClassAverageBounded | backend/controllers/reportController.js:142-150 | the average of percentages in [0, 100] lies in [0, 100] |
| ReportController.ClassAverageExample | backend/controllers/reportController.js:142-150 | 100%, 50% and 0% average to 50% |
| ReportController.ClassReportCovers | backend/controllers/reportController.js:99-153 | the class report has one entry per roster student, each that student's own entry, and an average in [0, 100] |
| ReportController.ClassInfoOf | backend/controllers/reportController.js:91-95 | no class gives "Class" and an empty code; a stored non-empty name or code is kept; the teacher name is the requester's |
| ReportController.RangeDocs | backend/controllers/reportController.js:24-43 | exactly the class's documents from the start day's 00:00 to the end day's 23:59:59.999 |
| ReportController.NoDocumentsNoReport | backend/controllers/reportController.js:45-50 | no documents in the range gives 404 whatever the mode, before any student lookup |
| ReportController.IndividualReportDays | backend/controllers/reportController.js:57-96 | an Individual report for a known student counts exactly the days holding their record, with percentage at most 100.00 |
| ReportController.ComputeReportBody | backend/controllers/reportController.js:45-162 | the report body computed with the source's loops equals the specification `ReportBody` |
| ReportController.GenerateReport | backend/controllers/reportController.js:13-187 | missing fields: 400 with nothing stored; body errors pass through with nothing stored; otherwise exactly one report appended, titled and dated as the source does |
| ReportController.ShareReport | backend/controllers/reportController.js:237-280 | bad channel: 400 with no change; unknown id: 404 with no change; otherwise that report is marked shared via the channel at `now` |
| ReportController.DeleteReport | backend/controllers/reportController.js:283-305 | 404 iff the id is unknown, with no change; otherwise only that report is removed |
| ReportModel.ParseReportType | backend/models/Report.js:19-23 | accepts exactly "Individual" and "Class" |
| ReportModel.ReportTypeRoundTrip | backend/models/Report.js:19-23 | parsing a type's name gives the type back |
| ReportModel.ParseChannel | backend/models/Report.js:53-56 | accepts exactly "Email", "WhatsApp" and "SMS" |
| ReportModel.ChannelRoundTrip | backend/models/Report.js:53-56 | parsing a channel's name gives the channel back |
| ReportModel.CreateReport | backend/models/Report.js:1-61 | a report is created iff the type is in the enum; format defaults to JSON and isShared to false |
| ReportModel.ShareById | backend/controllers/reportController.js:248-256 | only the report with that id changes: shared, with channel and time |
| ReportModel.ShareByIdIdempotent | backend/controllers/reportController.js:248-256 | sharing twice through the same channel at the same time equals sharing once |
| ReportModel.DeleteById | backend/controllers/reportController.js:285 | removes exactly the reports with that id |
| NotificationService.CalculateAttendancePercentage | backend/services/notificationService.js:37-40 | 0 with no days; otherwise the nearest integer to present/total × 100, within [0, 100] when present ≤ total |
| NotificationService.PercentageMonotone | backend/services/notificationService.js:39 | for a fixed total the percentage never decreases as presentDays grows |
| NotificationService.PercentageExtremes | backend/services/notificationService.js:39 | all days present gives 100, none gives 0 |
| NotificationService.PercentageExamples | frontend/src/utils/helpers.js:29-32 | 3/4 gives 75, 2/3 gives 67, 1/8 gives 13 (the frontend copy computes the same function) |
| NotificationService.FormatPhone | backend/services/notificationService.js:3-19 | "" iff the input is empty; otherwise the trimmed number behind "", "+" or "+91", always starting with "+", unchanged iff it already starts with "+91" |
| NotificationService.FormatPhoneCountryCode | backend/services/notificationService.js:12 | a number starting with "91" only gets a "+", even when it has 10 characters |
| NotificationService.FormatPhoneLocal | backend/services/notificationService.js:15 | any other 10-character number gets "+91" |
| NotificationService.FormatPhoneStable | backend/services/notificationService.js:9 | formatting again changes nothing iff the result starts with "+91" |
| NotificationController.ScanRecords | backend/controllers/notificationController.js:43-45 | the unguarded `find`: a found record belongs to the student; it throws iff a record whose student no longer exists comes before the student's first record, with every record before that one resolved; with none dangling, the first record of the student or nothing |
| NotificationController.DanglingRecordThrows | backend/controllers/notificationController.js:43-44 | a dangling record anywhere ahead of the student's records makes the scan throw, although the report code finds the student's record when there is one |
| NotificationController.StudentDaysThrows | backend/controllers/notificationController.js:42-52 | the history scan fails iff some document's scan throws |
| NotificationController.StudentDaysAgree | backend/controllers/notificationController.js:42-52 | with no dangling records the history is the non-null per-day records, as in the report path |
| NotificationController.CountAttended | backend/controllers/notificationController.js:55-60 | the counting loop returns the Present plus Late records, at most all of them |
| NotificationController.AssessBounds | backend/controllers/notificationController.js:55-63 | attended ≤ total days and the percentage lies in [0, 100] |
| NotificationController.AssessAgreesWithReport | backend/controllers/notificationController.js:42-63 | total days count the documents holding a record for the student, attended days are Present plus Late, and the percentage is the integer-rounded one |
| NotificationController.Assess | backend/controllers/notificationController.js:42-63 | one iteration's statistics, computed as the source does |
| NotificationController.NoHistoryNeverSelected | backend/controllers/notificationController.js:70 | a student with no record is never selected, whatever the threshold |
| NotificationController.SelectedMonotone | backend/controllers/notificationController.js:70 | a student selected under a threshold is selected under any higher one |
| NotificationController.EntryOf | backend/controllers/notificationController.js:71-84 | the entry copies the student's id, name, rollNumber, email and phoneNumber; its parentPhone is the student's phoneNumber; its parentEmail is parentEmail, else the student's email; the statistics are the assessment's |
| NotificationController.LowListSelects | backend/controllers/notificationController.js:41-86 | the list fails iff some student's scan throws; otherwise it holds exactly the selected students' entries |
| NotificationController.LowListBelowThreshold | backend/controllers/notificationController.js:70 | every listed student is below the threshold with at least one day |
| NotificationController.GetLowAttendanceStudents | backend/controllers/notificationController.js:16-108 | unknown class: 404; a dangling record: 500; otherwise the class info, the threshold (75 by default) and the low list with its count |
| NotificationController.ResolvedNeverThrows | backend/controllers/notificationController.js:43-44 | with no dangling records the selection never fails |
| NotificationController.AlertFor | backend/controllers/notificationController.js:163-185 | no contact gives a failed entry ("No phone number available" or "No email available") under the student's name; otherwise a send, under the student's name, to the target, whose status mirrors the transport |
| NotificationController.Candidates | backend/controllers/notificationController.js:129-134 | an empty id list means the whole roster; otherwise exactly the roster students with a listed id |
| NotificationController.AlertsFollowLowList | backend/controllers/notificationController.js:141-186 | the alert loop crashes iff the selection would; otherwise it makes one entry per selected student, in order |
| NotificationController.AttemptsAreTargets | backend/controllers/notificationController.js:175 | the transport is called exactly once per attempted entry, with its target |
| NotificationController.AlertRunStops | backend/controllers/notificationController.js:193-198 | after a throw no further student is processed |
| NotificationController.RunAlerts | backend/controllers/notificationController.js:141-186 | the `for ... of` loop computes exactly the specified run |
| NotificationController.SendLowAttendanceAlerts | backend/controllers/notificationController.js:111-200 | unknown class: 404 and no send; otherwise the sends attempted and either the results or a 500 after a throw |
| CsvValidator.ValidateCsv | backend/utils/csvValidator.js:1-47 | the loops push exactly `CsvErrors(data)`: header errors first, then each row's errors in input order |
| CsvValidator.EmptyFileOnlyForNoRows | backend/utils/csvValidator.js:4-7 | the result is exactly ["CSV file is empty"] iff data is null or empty |
| CsvValidator.HeaderErrorsSpec | backend/utils/csvValidator.js:9-17 | no header error iff the first row has both keys; each header error is a "Missing required field" message |
| CsvValidator.RowErrorsEmpty | backend/utils/csvValidator.js:20-43 | a row gives no error iff its roll number and name are non-blank, its e-mail is blank or well formed, and its phone is blank or has ≥ 10 digits |
| CsvValidator.RowMessagesTagged | backend/utils/csvValidator.js:22-40 | every row message starts with "Row n: " for a row number n between 1 and the row count |
| CsvValidator.CsvErrorsEmpty | backend/utils/csvValidator.js:1-47 | no error iff the data is non-empty, the first row has both keys and every row passes |
| StudentModel.CastStudent | backend/models/Student.js:1-70 | the schema accepts iff roll number and name are given and the e-mails match the pattern; the stored student has a trimmed name and phones, a lower-cased e-mail, a lower-cased and trimmed parent e-mail, and isActive set |
| StudentModel.EmailPatternLower | backend/models/Student.js:16-19 | lower-casing keeps an e-mail that matches the schema pattern matching |
| StudentModel.InsertStudentValid | backend/models/Student.js:68 | adding a student whose (rollNumber, class) is free keeps the store invariant |
| StudentModel.Roster | backend/controllers/studentController.js:185 | exactly the students of the class |
| StudentModel.FindStudentHas | backend/controllers/studentController.js:269-276 | the id lookup succeeds iff a student has that id |
| StudentBatch.InsertUnorderedSpec | backend/controllers/studentController.js:124-126 | an unordered insertMany stores the documents whose roll number is still free and reports a duplicate iff one was skipped |
| StudentBatch.InsertUnorderedValid | backend/controllers/studentController.js:124-126 | the unordered insert keeps the store invariant |
| StudentBatch.InsertOrderedPrefix | backend/controllers/studentController.js:207 | an ordered insertMany stores a prefix of the documents and stops at the first taken roll number |
| StudentBatch.InsertOrderedValid | backend/controllers/studentController.js:207 | the ordered insert keeps the store invariant |
| StudentCsvRows.RowInput | backend/controllers/studentController.js:113-122 | a CSV row's roll number, name, e-mail, phone and parent phone are trimmed, a missing cell becomes "", and no parent e-mail is set |
| StudentCsvRows.ValidatedRowsCast | backend/controllers/studentController.js:102-124 | rows that pass CSV validation all pass the schema |
| StudentCopy.CopyDocs | backend/controllers/studentController.js:195-205 | each source student is copied field by field with the class set to the target and a fresh id |
| StudentCopy.SelfCopyStoresNothing | backend/controllers/studentController.js:195-214 | copying a class into itself stores nothing and reports duplicates |
| StudentController.AddStudent | backend/controllers/studentController.js:35-79 | missing roll number or name: 400 with no change; a taken roll number: 400 with no change; otherwise the student is appended and the class counter rises by exactly 1 |
| StudentController.DeleteStudent | backend/controllers/studentController.js:267-295 | unknown id: 404 with no change; otherwise that student is removed and their own class's counter drops by 1 |
| StudentController.AddThenDeleteRestoresCounter | backend/controllers/studentController.js:57-61 | adding then deleting a student leaves every class counter as it was |
| StudentController.FirstErrors | backend/controllers/studentController.js:108 | at most the first 10 errors, in order |
| StudentController.ImportStudentsCsv | backend/controllers/studentController.js:100-155 | failed validation: 400, the first 10 errors, nothing stored; otherwise the unordered insert, with the counter raised by the number stored or a duplicate 400 |
| StudentController.ImportFromExisting | backend/controllers/studentController.js:173-233 | missing source: 400; empty source: 404; otherwise the ordered insert of the copies, with the counter raised by their number or a duplicate 400 |
| ClassModel.NormalizeCode | backend/models/Class.js:10-16 | the stored class code is upper-cased and trimmed, empty iff the input is blank |
| ClassModel.NormalizeCodeFixed | backend/models/Class.js:10-16 | a code is left unchanged iff it is already upper-case and trimmed; normalising twice equals once |
| ClassModel.CastClass | backend/models/Class.js:1-63 | the schema accepts iff name and code are non-blank and the year is given; defaults: section "A", semester 1, totalStudents 0, active |
| ClassModel.ApplyPatch | backend/controllers/classController.js:145-148 | an update validates iff the patched required fields stay non-blank; it keeps the id and validity |
| ClassModel.ApplyPatchFields | backend/controllers/classController.js:145-148 | an accepted update stores each sent field (the name trimmed, the code upper-cased and trimmed) and keeps every field not sent |
| ClassModel.EmptyPatchChangesNothing | backend/controllers/classController.js:145-148 | an empty update body leaves the class and the store as they were |
| ClassModel.IncTotalAdds | backend/controllers/studentController.js:57-61 | two counter increments equal one by their sum |
| ClassModel.IncTotalValid | backend/controllers/studentController.js:57-61 | the counter update keeps the store invariant |
| ClassController.CreateClass | backend/controllers/classController.js:7-53 | a missing field: 400; a taken code: 400 "Class code already exists"; otherwise a class owned by the caller with counter 0 is appended |
| ClassController.ClassesOf | backend/controllers/classController.js:56-73 | exactly the caller's classes |
| ClassController.CreatedIsListed | backend/controllers/classController.js:34 | a class created by a teacher is listed for them, last |
| ClassController.OthersNotListed | backend/controllers/classController.js:58 | a class of another teacher never appears in the caller's list |
| ClassController.GetClass | backend/controllers/classController.js:76-124 | 404 iff no class has the id; 403 for a non-owner; otherwise the caller's own class |
| ClassController.GetClassOwner | backend/controllers/classController.js:88-108 | a stored class is returned to its owner and refused with 403 to anyone else |
| ClassController.UpdateClass | backend/controllers/classController.js:127-160 | unknown: 404; non-owner: 401; invalid or duplicate code: 500; all with no change; otherwise only that class is replaced |
| ClassController.Cascade | backend/controllers/classController.js:181-191 | removes the class and all its students, attendance documents and reports, and nothing else |
| ClassController.DeleteClass | backend/controllers/classController.js:163-203 | unknown: 404; non-owner: 401; both with no change; otherwise the cascade |
| Validators.ValidateEmailMatchesRegex | frontend/src/utils/validators.js:1-4 | the computed check accepts exactly the strings `a@b.c` with `a`, `b`, `c` non-empty runs free of white space and `@` |
| Validators.ValidatePhoneNumber | frontend/src/utils/validators.js:6-9 | true iff at least 10 digits remain after removing non-digits |
| Validators.ValidateNonBlank | frontend/src/utils/validators.js:11-21 | true iff some character is not white space |
| Validators.ValidateForm | frontend/src/utils/validators.js:23-45 | an error key exists iff the field is required and missing or blank, or is a non-blank invalid email or phone; each with the source's message |
| Helpers.GetAttendanceColor | frontend/src/utils/helpers.js:34-38 | on the two-decimal percentage the report page passes it, in hundredths: green iff ≥ 75.00, orange iff 50.00 ≤ p < 75.00 (so 74.99 is orange), red iff < 50.00 |
| Helpers.AttendanceColorMonotone | frontend/src/utils/helpers.js:34-38 | a higher percentage never gets a worse colour |
| Helpers.FormatDate | frontend/src/utils/helpers.js:1-8 | "" iff no date; otherwise the year, "-", two digits, "-", two digits |
| Helpers.FormatDateRoundTrip | frontend/src/utils/helpers.js:3-7 | reading the string back gives the year, the 0-based month and the day: the month is written 1-based and both are zero-padded |
| Sorting.SortBy | backend/controllers/reportController.js:102 | the sort returns a permutation of its input |
| Sorting.SortBySorted | backend/controllers/reportController.js:102 | with a comparator that is a total preorder on the elements, the result is sorted |
| Util.Trim | frontend/src/utils/validators.js:12 | `trim()`: the slice of the input between a white-space prefix and a white-space suffix; empty iff the input is all white space; otherwise it starts and ends with a non-space |
| Util.TrimIdempotent | frontend/src/utils/validators.js:12 | trimming twice equals trimming once |
| Util.LexCompareTransitive | backend/controllers/reportController.js:112-117 | string comparison is transitive |
| Store.Database.constructor | backend/models/Class.js:1-63 | an empty store, which satisfies the invariant |

## Left out

- Date handling: the local time zone, `new Date(string)` parsing and `setHours` are not modelled. Dates are integer milliseconds and a day is a fixed 86 400 000 ms window.
- Float arithmetic: report percentages are exact hundredths and the notification percentage rounds half up. Float edge cases of `Math.round` at the .5 boundary are not modelled.
- `Number()` parsing in the roster sort: only decimal digit strings count as numeric. Hex, exponent, signed and fractional forms are not recognised.
- `localeCompare` is modelled as code-point order, without locale collation.
- Sorting.SortBy: the roster sort is an insertion sort on a value, not V8's in-place `Array.prototype.sort`. On mixed rosters, where the comparator is inconsistent, the order V8 produces may differ.
- `getAttendanceHistory`'s `sort({ date: 1 })` is the same insertion sort. The order of equal dates is not constrained, since stability is not proved.
- Mongoose mechanics: `populate`, `findOneAndUpdate`, `runValidators` and duplicate-key errors are stated as their outcome on the store. An `_id` is a natural number from the store's counter; malformed ids (cast errors, 500) are not modelled.
- A record whose populated student is null is modelled as a record whose student id is not in the store.
- saveAttendance's `filter(r => r.student != null)` runs on the request's unpopulated records. It drops only records with no student id, not records naming deleted students. The model follows the code.
- The notification phone fallback reads `student.parentPhone`, which is not a schema field (the field is `parentPhoneNumber`). The target is therefore always `phoneNumber`. The model follows the code.
- The threshold arrives as a query or body value that JavaScript coerces in `percentage < threshold`. It is modelled as an integer; non-numeric thresholds are not modelled.
- Message templates (`generateSMSMessage`, `generateWhatsAppMessage`, `generateEmailHTML`), `generateHTMLReport` and `generatePDFReport` are presentation and are not modelled. The alert text and the report HTML are therefore absent.
- The transports (Twilio, nodemailer, `sendSMS`, `sendWhatsApp`, `sendEmail`) are network I/O. They are a `deliver` parameter returning success or failure. Message ids and error texts are not modelled.
- CSV streaming, multer uploads and `fs.unlinkSync` are file I/O. Import starts from the parsed rows, and a parse or read error (500) is not modelled.
- `getStudents` and `updateStudent` are not part of this model, nor are the report read endpoints `getStudentReports` and `getClassReports` (reportController.js:190-234), which only query and populate.
- `exportReport` (reportController.js:308-361) is not part of this model: it renders a stored report as PDF or HTML, which is presentation.
- Authentication (JWT, bcrypt, the `protect` middleware) is not modelled. The caller's id is a parameter.
- Express routes, `server.js`, the seed and clear scripts, and all frontend pages and contexts are not modelled.
- `console.log` output and the JSON response wrappers (`success`, `message`) are not modelled. Answers are `Ok(value)` or `Err(status(message))`.
- `formatDateDisplay` and `formatTime` depend on the locale and are not modelled.
- Student.js optional fields with no logic (gender enum, dateOfBirth, address, enrollmentDate) are not modelled. Neither are Class.js's description, room and schedule, or the `timestamps` fields.
- ReportController.ClassInfoOf: the fallbacks for a class with an empty name or code ("Class", the id as a string) are computed but not stated in the contract.
- ClassModel.NormalizeCode: upper-casing maps only the ASCII letters a-z, while JavaScript's `toUpperCase` maps all of Unicode. The source stores " cé " as "CÉ" and the model as "Cé", so codes that differ only in non-ASCII case collide on the unique classCode index in the source but not in the model.
- StudentModel.CastStudent: e-mail lower-casing maps only the ASCII letters A-Z, while `toLowerCase` maps all of Unicode. An address such as "\u212A@x.com" (KELVIN SIGN), which the source lower-cases to "k@x.com" and accepts, is refused by the model.
- StudentModel.EmailPattern: the schema's `match` regular expression for e-mails is read as dotted words, `@`, dotted words, a dot and a last group of two or three word characters. That this reading accepts exactly the strings the regular expression matches is not proved.
- ClassController.GetClass: the owner check dereferences the populated `teacher`. When the teacher's document has been deleted, that dereference throws and the source answers 500. Teachers are bare ids here, so that 500 is not modelled.
- Helpers.FormatDate: the date is given as year, 0-based month and day; how `new Date(date)` derives them is not modelled.
- Concurrency: the source's requests run one at a time here. Interleaved requests are not modelled.

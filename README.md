# Attendance bookkeeping of the school attendance API, in Dafny

This project models the attendance core of a Laravel + Vue school application. Staff register
students, record a day's attendance for a class in one bulk request, and read two kinds of
aggregate: today's statistics, which are cached, and a monthly report per class.

The model covers:

- **The attendances table** (`Models`, `Schema`). It is a map keyed by (student_id, date). Its
  invariant comes from the migration: one row per pair, rows under their own key, and foreign
  keys to students and users. Deleting a student cascades to its rows. The query scopes of the
  `Attendance` and `Student` models are modelled as filters, and mass assignment as a restriction
  to the fillable columns.
- **`recordBulkAttendance`** (`BulkRecording`, `AttendanceService`). The batch is a sequence of
  upserts applied in input order, so the last write for a pair wins. It runs inside a transaction
  modelled as snapshot and restore. A persistence error can be injected at any record or at
  commit. On success, exactly one `AttendanceRecorded` event is appended to a ghost event log.
- **`generateMonthlyReport`** (`MonthlyReport`, `Calendar`, `Rounding`, `AttendanceService`). The
  denominator is the number of distinct tracked days in the month, across all classes. When no
  day was tracked, it falls back to the month's Monday–Friday count. Each student gets a
  percentage, and the class gets a summary. Percentages are exact rationals rounded half away from
  zero to hundredths.
- **Today's statistics** (`TodayStatistics`, `AttendanceService`). The read is cache-aside over a
  key-value store, and every store failure is swallowed. The namespace flush of
  `invalidateStatisticsCache` is modelled too.
- **The two listeners** (`Listeners`). One forgets a single key in the application cache, and
  one builds the activity-log payload.
- **The controllers** (`AttendanceController`, `StudentController`). For `bulkStore` the model
  covers validation, the request-to-record mapping and the response statistics. For
  `monthlyReport` it covers the input bounds. For the student list (`index`) it covers
  filtering, name ordering and pagination. For `destroy` it covers the order of its effects.
- **The `attendance:generate-report` console command** (`ReportCommand`). The model covers argument
  validation, the branches of `handle`, filename sanitising and the text report.
- **The Vue side.** The attendance-form edits of `useAttendance.js` (`UseAttendance`, a class
  whose methods update the form in place) and the navigation guard of `router/index.js`
  (`Router`).

Inputs the code takes from its environment are parameters:

- the clock: `today`, `now`, `currentYear`;
- failures of the database, the cache and storage: `fault`, `readFails`, `writeFails`,
  `failing`, `serviceError`, and the `storage` outcome of the report write.

### Behaviour of the code that the model keeps

- The business-day fallback applies only when no class at all has attendance rows in the
  month. The tracked days are the distinct dates of the whole table in that month, with no
  class filter (`backend/app/Services/AttendanceService.php:96-98`). So a class with no rows of
  its own still gets the tracked-day count of the other classes. `MonthlyReport.TotalDays`
  follows this.
- A write does not refresh today's cached statistics:
  - The listener forgets `attendance:stats:today:` followed by the first model's `date`
    attribute. That attribute is date-cast, so it renders as `Y-m-d H:i:s`.
  - The reader's key is `Y-m-d`.
  - The listener also works on the `Cache` store, while the reader uses the `Redis` connection.
  - `Listeners.ListenerMissesReaderKey` and `Listeners.ReaderEntrySurvives` prove that a
    non-empty batch never forgets the reader's key.
  - The model therefore keeps two separate stores.
- `saveReport` ignores the result of `Storage::put`
  (`backend/app/Console/Commands/GenerateAttendanceReport.php:153`). When the write only
  returns false, the command still reports SUCCESS and nothing is saved.
- Some test expectations disagree with the code:
  - the `total_students` key versus `total` in today's statistics;
  - HTTP 200 versus 201 from `bulkStore`;
  - the console line printed at the start of `handle`.

  The model follows the code in each case.

## Model

| member | source | states |
|---|---|---|
| Models.ForDate | backend/app/Models/Attendance.php:44-47 | keeps exactly the rows whose date is d, unchanged |
| Models.ForMonth | backend/app/Models/Attendance.php:52-56 | keeps exactly the rows whose month is m and whose year is y |
| Models.ByStatus | backend/app/Models/Attendance.php:61-64 | keeps exactly the rows with status s |
| Models.ByClass | backend/app/Models/Student.php:32-35 | membership iff class equals c; every matching student keeps its multiplicity, others vanish |
| Models.BySection | backend/app/Models/Student.php:40-43 | membership iff section equals s; multiplicities kept as for ByClass |
| Models.AttendancesOf | backend/app/Models/Student.php:24-27 | a student's attendances are exactly the rows whose student_id is its id |
| Models.ParseStatus | backend/database/migrations/2024_11_15_000002_create_attendances_table.php:18 | accepts exactly "Present", "Absent", "Late", and the parsed status names the input |
| Models.StatusNameRoundTrip | backend/database/migrations/2024_11_15_000002_create_attendances_table.php:18 | every status's name parses back to that status |
| Models.StatusPartition | backend/database/migrations/2024_11_15_000002_create_attendances_table.php:18 | the three status scopes partition any set of rows: their sizes add up to its size |
| Models.CountStatusPartition | backend/database/migrations/2024_11_15_000002_create_attendances_table.php:18 | on a collection of models, the three status counts add up to its length |
| Models.StudentRowsAtMostDates | backend/database/migrations/2024_11_15_000002_create_attendances_table.php:24 | by the unique (student_id, date) index, one student has no more rows than there are distinct dates |
| Models.ForDateWithinMonth | backend/app/Models/Attendance.php:44-56 | filtering by a day's month first does not change that day's rows |
| Models.AttendanceAssignmentIsGuarded | backend/app/Models/Attendance.php:13-19 | mass assignment sets only student_id, date, status, note and recorded_by; never id or timestamps |
| Models.StudentAssignmentIsGuarded | backend/app/Models/Student.php:13-19 | mass assignment sets only name, student_id, class, section and photo |
| Models.Fill | backend/app/Models/Attendance.php:13-19 | mass assignment keeps exactly the given attributes that are fillable, with their values |
| Models.CountStatus | backend/app/Http/Controllers/AttendanceController.php:53-55 | `where('status', s)->count()` on a collection, at most its size (partitioned by CountStatusPartition) |
| Schema.CascadeKeepsInvariant | backend/database/migrations/2024_11_15_000002_create_attendances_table.php:16-24 | after deleting a student and cascading, no row references it and the table invariant holds for the remaining students |
| Schema.Database.constructor | backend/database/migrations/2024_11_15_000002_create_attendances_table.php:14-24 | a fresh database with an empty attendances table satisfies the invariant |
| Schema.Database.DeleteStudent | backend/database/migrations/2024_11_15_000002_create_attendances_table.php:16 | removes the student and exactly that student's attendance rows, keeping the invariant |
| BulkRecording.EntriesMatchInputs | backend/app/Services/AttendanceService.php:32-56 | one result entry per input in order; entry i has input i's student, date, status and note, with recorded_by the actor |
| BulkRecording.RowFor | backend/app/Services/AttendanceService.php:48-54 | definition: the row `Attendance::create` inserts for an input, with recorded_by the actor |
| BulkRecording.Upsert | backend/app/Services/AttendanceService.php:34-56 | definition: update status, note and recorded_by of the pair's row when it exists, else insert RowFor |
| BulkRecording.ApplyAll | backend/app/Services/AttendanceService.php:32-57 | definition: the upserts in input order (characterised by LastWriteWins, OtherPairsUnchanged, ApplyAllKeys, RowCountGrowth) |
| BulkRecording.Entries | backend/app/Services/AttendanceService.php:30-57 | definition: the `$recorded` collection, one model per input (characterised by EntriesMatchInputs) |
| BulkRecording.RecordFailure | backend/app/Services/AttendanceService.php:34-56 | definition: the exception record i raises: an injected persistence error, else a foreign-key violation for an unknown student or actor |
| BulkRecording.FirstFailure | backend/app/Services/AttendanceService.php:29-73 | definition: the first exception in input order, or one at commit (characterised by NoFailureIff and FaultAlwaysFails) |
| BulkRecording.LastWriteWins | backend/app/Services/AttendanceService.php:34-55 | every pair of the batch has a row, holding status, note and recorder of the last input for that pair |
| BulkRecording.OtherPairsUnchanged | backend/app/Services/AttendanceService.php:34-55 | pairs the batch does not mention keep their row, or stay absent |
| BulkRecording.ApplyAllKeys | backend/app/Services/AttendanceService.php:34-55 | the keys after the batch are the old keys plus the batch's pairs |
| BulkRecording.RowCountGrowth | backend/app/Services/AttendanceService.php:34-55 | the row count grows exactly by the batch's pairs that had no row |
| BulkRecording.DistinctPairsGiveOneRowEach | backend/tests/Unit/AttendanceServiceTest.php:29-79 | N inputs for N distinct pairs on an empty table give N rows |
| BulkRecording.ResubmissionKeepsRowCount | backend/tests/Unit/AttendanceServiceTest.php:84-136 | re-submitting pairs that already have rows updates in place: the row count stays the same |
| BulkRecording.ApplyAllConsistent | backend/database/migrations/2024_11_15_000002_create_attendances_table.php:24 | upserting keeps every row under its own (student_id, date) key |
| BulkRecording.ApplyAllKeepsInvariant | backend/database/migrations/2024_11_15_000002_create_attendances_table.php:16-24 | with existing students and an existing actor, the batch keeps the table invariant |
| BulkRecording.NoFailureIff | backend/app/Services/AttendanceService.php:25-74 | without an injected fault, the batch fails iff some record's student or the actor does not exist |
| BulkRecording.FaultAlwaysFails | backend/app/Services/AttendanceService.php:65-73 | a persistence error at any record or at commit makes the batch fail |
| AttendanceService.EventLog.constructor | backend/app/Services/AttendanceService.php:62 | the event log starts empty |
| AttendanceService.RecordBulkAttendance | backend/app/Services/AttendanceService.php:25-74 | on failure: returns the first exception, table restored, no event. On success: returns Entries, table is ApplyAll of the old one, exactly one AttendanceRecorded(result, actor) appended. Invariant kept |
| AttendanceService.CalculateBusinessDays | backend/app/Services/AttendanceService.php:257-271 | the loop counts the Monday–Friday days of the month, between 20 and 23 |
| AttendanceService.MonthTotalDays | backend/app/Services/AttendanceService.php:93-103 | the distinct tracked dates of the month, or the business-day count when there are none |
| AttendanceService.ReportLines | backend/app/Services/AttendanceService.php:110-133 | the loop builds one line per roster student and the three running totals equal the column sums |
| AttendanceService.TotalOfAppend | backend/app/Services/AttendanceService.php:130-132 | appending a line adds its count to a running total |
| AttendanceService.GenerateMonthlyReport | backend/app/Services/AttendanceService.php:84-152 | returns exactly ReportOf for the class's roster over the current table |
| AttendanceService.GetTodayStatistics | backend/app/Services/AttendanceService.php:159-189 | a readable hit returns the cached value and leaves the store alone. Otherwise it returns the fresh statistics and stores them under today's key with TTL 3600, unless the write fails |
| AttendanceService.InvalidateStatisticsCache | backend/app/Services/AttendanceService.php:226-248 | deletes today's key, then every `attendance:stats:*` key, keeping other keys. A failure at a step keeps only the earlier steps' effect and never propagates |
| MonthlyReport.TotalDaysPositive | backend/app/Services/AttendanceService.php:93-103 | the denominator is at least 1; the fallback lies in 20..23 |
| MonthlyReport.LinesMatchRoster | backend/app/Services/AttendanceService.php:110-133 | line i belongs to roster student i and carries that student's month counts and percentage |
| MonthlyReport.StudentCountsWithinTotalDays | backend/app/Services/AttendanceService.php:110-117 | a student's present + absent + late in the month never exceeds total_days |
| MonthlyReport.LinePercentageBounded | backend/app/Services/AttendanceService.php:115-117 | each student's percentage lies in 0..100 |
| MonthlyReport.ReportPercentagesBounded | backend/app/Services/AttendanceService.php:110-151 | every line's percentage and the class average lie in 0..100 |
| MonthlyReport.TotalOfCountsRows | backend/app/Services/AttendanceService.php:110-133 | for a roster with distinct ids, a status column of the lines adds up to the month's rows with that status belonging to the roster's students |
| MonthlyReport.ReportSummaryCountsClassRows | backend/app/Services/AttendanceService.php:84-152 | total_students is the class roster's size; total_present, total_absent and total_late are the numbers of the month's rows of the class's students with each status, and together they count all of those rows |
| MonthlyReport.TotalDays | backend/app/Services/AttendanceService.php:93-103 | definition: the distinct tracked dates of the month, else the month's business days (bounded by TotalDaysPositive) |
| MonthlyReport.CountFor | backend/app/Services/AttendanceService.php:111-113 | definition: the number of a student's rows in the month with the status |
| MonthlyReport.LineFor | backend/app/Services/AttendanceService.php:110-128 | definition: a student's report line (characterised by LinesMatchRoster and LinePercentageBounded) |
| MonthlyReport.SummaryOf | backend/app/Services/AttendanceService.php:135-150 | definition: the summary block (characterised by ReportSummaryCountsClassRows) |
| MonthlyReport.ReportOf | backend/app/Services/AttendanceService.php:84-152 | definition: the whole report for a class (characterised by LinesMatchRoster, ReportPercentagesBounded and ReportSummaryCountsClassRows) |
| MonthlyReport.EmptyClassReport | backend/app/Services/AttendanceService.php:87-91 | a class with no students gives no lines and a zero summary |
| Calendar.BusinessDaysBounds | backend/app/Services/AttendanceService.php:257-271 | every month has 20 to 23 Monday–Friday days |
| Calendar.BusinessDaysInMonth | backend/app/Services/AttendanceService.php:257-271 | definition: the number of days of the month whose ISO weekday is 1..5 (bounded by BusinessDaysBounds) |
| Calendar.IsoWeekday | backend/app/Services/AttendanceService.php:263-268 | Carbon's dayOfWeekIso, in 1..7 (anchored by KnownWeekdays, stepped by NextWeekday) |
| Calendar.SevenDaysHoldFiveWeekdays | backend/app/Services/AttendanceService.php:263-268 | any seven consecutive days of a month hold exactly five weekdays |
| Calendar.NextWeekday | backend/app/Services/AttendanceService.php:263-268 | the ISO weekday advances by one per day, Sunday wrapping to Monday |
| Calendar.KnownWeekdays | backend/app/Services/AttendanceService.php:263-268 | anchors the weekday function: 1970-01-01 is a Thursday, 2024-03-01 a Friday |
| Calendar.YearLength | backend/app/Services/AttendanceService.php:94-95 | Gregorian years have 366 days exactly when leap, else 365 |
| Calendar.FormatYmdRoundTrip | backend/app/Services/AttendanceService.php:161 | formatting a date as `Y-m-d` and parsing it back gives the date |
| Calendar.FormatYmdInjective | backend/app/Services/AttendanceService.php:161 | distinct dates give distinct `Y-m-d` strings |
| Rounding.RoundTo2 | backend/app/Services/AttendanceService.php:115-117 | the rounded value is within 0.005 of x and keeps x's sign |
| Rounding.RoundTo2Idempotent | backend/app/Services/AttendanceService.php:115-117 | rounding an already rounded value changes nothing |
| Rounding.Percentage | backend/app/Services/AttendanceService.php:115-117 | 0 when the total is 0, else within 0.005 of part/total·100 |
| Rounding.PercentageBounds | backend/app/Services/AttendanceService.php:115-117 | a part of at most the whole is a percentage in 0..100 |
| Rounding.PercentageExtremes | backend/app/Services/AttendanceService.php:115-117 | all present gives 100, none gives 0 |
| Rounding.PercentageExamples | backend/tests/Unit/AttendanceServiceTest.php:218-231 | 2 of 4 is 50, 4 of 5 is 80, 3 of 5 is 60 |
| Rounding.RoundedMean | backend/app/Services/AttendanceService.php:135-137 | 0 for an empty list, else within 0.005 of the mean |
| Rounding.RoundedMeanBounds | backend/app/Services/AttendanceService.php:135-137 | the rounded mean of percentages is a percentage |
| TodayStatistics.TodayKey | backend/app/Services/AttendanceService.php:161 | the reader's key lies under `attendance:stats:` and has the fixed length of prefix + `Y-m-d` |
| TodayStatistics.TodayKeyInjective | backend/app/Services/AttendanceService.php:161 | different days never share a statistics key |
| TodayStatistics.CalculateTodayStatistics | backend/app/Services/AttendanceService.php:196-219 | total is today's row count; present, absent and late are the sizes of today's rows with each status; percentage is Percentage(present, total), i.e. round(present/total·100, 2), in 0..100 and 0 without rows |
| TodayStatistics.TwoRowsExample | backend/app/Services/AttendanceService.php:196-219 | one present and one absent row today give total 2 and 50 percent |
| TodayStatistics.Forget | backend/app/Listeners/InvalidateAttendanceCache.php:35 | removes the key and keeps every other key with its value |
| TodayStatistics.ForgetIdempotent | backend/app/Listeners/InvalidateAttendanceCache.php:35 | forgetting twice equals forgetting once; forgetting an absent key changes nothing |
| TodayStatistics.FlushPrefix | backend/app/Services/AttendanceService.php:233-240 | keeps exactly the keys outside the prefix, with their values |
| TodayStatistics.FlushClearsEveryDay | backend/app/Services/AttendanceService.php:233-240 | after flushing `attendance:stats:` no day's statistics key remains |
| Listeners.InvalidationKey | backend/app/Listeners/InvalidateAttendanceCache.php:31-34 | the prefix plus the first model's date as `Y-m-d H:i:s`; for an empty set, the prefix plus today as `Y-m-d` |
| Listeners.HandleInvalidation | backend/app/Listeners/InvalidateAttendanceCache.php:27-47 | forgets exactly that key in the application cache; a failing store is left unchanged and nothing propagates |
| Listeners.ListenerMissesReaderKey | backend/app/Listeners/InvalidateAttendanceCache.php:31-35 | for a non-empty batch the forgotten key is never the reader's key for any day |
| Listeners.ReaderEntrySurvives | backend/app/Listeners/InvalidateAttendanceCache.php:31-35 | so a statistics entry cached by the reader survives the listener unchanged |
| Listeners.EmptyEventForgetsTodaysKey | backend/app/Listeners/InvalidateAttendanceCache.php:31-35 | an empty batch falls back to today's reader key and removes it |
| Listeners.ActivityPayload | backend/app/Listeners/LogAttendanceActivity.php:26-49 | recorded_by and user_id are the actor's; total_records is the entry count; present, absent and late are the numbers of recorded models with each status; the date is the first entry's or today's; the timestamp is now |
| Listeners.ActivityCountsPartition | backend/app/Listeners/LogAttendanceActivity.php:32-45 | the logged present + absent + late equals total_records |
| Listeners.UniformCount | backend/app/Listeners/LogAttendanceActivity.php:32-34 | models that all have one status are all counted under it |
| Listeners.UniformBatchCounts | backend/app/Listeners/LogAttendanceActivity.php:32-45 | the logged payload of a single-status batch puts total_records under that status and 0 under the other two |
| Listeners.BatchActivity | backend/app/Listeners/LogAttendanceActivity.php:28-29 | for the event of a batch, total_records is the input count and the date is the first input's (today when empty) |
| AttendanceController.ToServiceRecords | backend/app/Http/Controllers/AttendanceController.php:41-48 | one record per entry, each with the request's date and the entry's student, parsed status and note (null stays null) |
| AttendanceController.ValidateBulk | backend/app/Http/Controllers/AttendanceController.php:29-48 | Some exactly when the request passes validation; then one record per entry, each for an existing student on the request's date |
| AttendanceController.BulkValid | backend/app/Http/Controllers/AttendanceController.php:29-35 | definition: the validation rules of bulkStore: a date, at least one entry, each with an existing student, a known status and a note of at most 500 characters |
| AttendanceController.ValidatedBatchCommits | backend/app/Http/Controllers/AttendanceController.php:29-50 | a validated batch with a known actor and no persistence error commits |
| AttendanceController.ResponseStatistics | backend/app/Http/Controllers/AttendanceController.php:53-57 | total is the number of returned entries; counts by status; percentage is Percentage(present, total), i.e. round(present/total·100, 2), and 0 without entries |
| AttendanceController.ResponseStatisticsConsistent | backend/app/Http/Controllers/AttendanceController.php:53-57 | present + absent + late = total, and the percentage lies in 0..100 |
| AttendanceController.TwoOfFourPresent | backend/tests/Feature/CriticalUserFlowsTest.php:215-219 | two present, one absent, one late give counts 2/1/1 of 4 and 50 percent |
| AttendanceController.BulkStore | backend/app/Http/Controllers/AttendanceController.php:27-86 | invalid: 422 and nothing changes, no event. Service failure: 500 with the exception's message, table unchanged, no event. Success: 201 with recorded_count = number of entries, the date and the statistics; the table is the upserted one and exactly one AttendanceRecorded(entries, user) is appended |
| AttendanceController.RepeatedStudentCountedTwice | backend/app/Http/Controllers/AttendanceController.php:50-63 | a student submitted twice is counted twice in recorded_count yet owns one row |
| AttendanceController.MonthlyReportAction | backend/app/Http/Controllers/AttendanceController.php:94-125 | month outside 1..12, year outside 2000..2100, or a class that is missing, blank after `trim` or over 50 characters, answer 422 before the service runs; a service exception answers 500 with its message; otherwise the report |
| AttendanceController.ReportQueryValid | backend/app/Http/Controllers/AttendanceController.php:96-100 | definition: month in 1..12, year in 2000..2100, class `required` (some character other than those `trim` strips) and of at most 50 characters |
| AttendanceController.BlankClassRejected | backend/app/Http/Controllers/AttendanceController.php:99 | a class that is empty or made only of characters `trim` strips, such as "   ", fails `required` |
| StudentController.MatchesExactly | backend/app/Http/Controllers/StudentController.php:33-49 | the listed students are exactly those passing every active filter (search on name or student_id, exact class, exact section), with multiplicities |
| StudentController.Truthy | backend/app/Http/Controllers/StudentController.php:33 | definition: a parameter is present and neither "" nor "0" |
| StudentController.SearchFilter | backend/app/Http/Controllers/StudentController.php:33-39 | definition: the search clause, name or student_id containing the term |
| StudentController.Matches | backend/app/Http/Controllers/StudentController.php:30-49 | definition: the three conditional clauses in query order (characterised by MatchesExactly) |
| StudentController.NoFiltersNoRestriction | backend/app/Http/Controllers/StudentController.php:33-47 | missing, empty or "0" filters select everyone |
| StudentController.SearchByNameExample | backend/tests/Feature/CriticalUserFlowsTest.php:141-154 | searching "John" finds "John Doe" and "Bob Johnson" |
| StudentController.NameLeTotal | backend/app/Http/Controllers/StudentController.php:53 | the name order is total |
| StudentController.InsertByName | backend/app/Http/Controllers/StudentController.php:53 | inserting into a name-sorted list keeps it sorted and adds exactly the element |
| StudentController.SortByName | backend/app/Http/Controllers/StudentController.php:53 | the result is sorted by name and a permutation of the input |
| StudentController.PerPage | backend/app/Http/Controllers/StudentController.php:52 | page size is the given per_page when it is at least 1, else 15 |
| StudentController.CurrentPage | backend/app/Http/Controllers/StudentController.php:53 | the requested page when it is at least 1, else page 1 |
| StudentController.LastPage | backend/app/Http/Controllers/StudentController.php:58-63 | the last page is the least page count covering every match, at least 1 |
| StudentController.PageSlice | backend/app/Http/Controllers/StudentController.php:53 | a page holds item (page-1)·per_page + j at position j; its length is per_page, or what is left of the list, or 0 past the end |
| StudentController.PageSliceSorted | backend/app/Http/Controllers/StudentController.php:53 | a page of a sorted list is sorted |
| StudentController.EveryItemOnItsPage | backend/app/Http/Controllers/StudentController.php:53-63 | every match appears on page i / per_page + 1, which is within the last page |
| StudentController.IndexOf | backend/app/Http/Controllers/StudentController.php:28-65 | meta.total counts every match, not only the page; per_page and current_page are the resolved ones; last_page is LastPage(total, per_page); data holds exactly the name-sorted matches from (current_page-1)·per_page on, as many as fit on the page |
| StudentController.IndexListsEveryMatch | backend/app/Http/Controllers/StudentController.php:52-63 | the k-th name-sorted match is listed on page k / per_page + 1 at position k % per_page, and that page is within last_page |
| StudentController.IndexDataSelected | backend/app/Http/Controllers/StudentController.php:28-65 | every listed student exists and passes the filters |
| StudentController.Index | backend/app/Http/Controllers/StudentController.php:28-65 | the step-by-step query building returns IndexOf |
| StudentController.StudentWithId | backend/app/Http/Controllers/StudentController.php:165 | the bound student exists and has the id |
| StudentController.Destroy | backend/app/Http/Controllers/StudentController.php:165-196 | unknown id: 404, nothing done. The photo is deleted only when set, before the row. A failing photo or row step answers 500 and keeps the student and its rows. Success removes the student and cascades its rows |
| StudentController.PhotoBeforeRow | backend/app/Http/Controllers/StudentController.php:169-173 | the row deletion comes last and is preceded by a photo deletion exactly when a photo is set |
| ReportCommand.DotIndex | backend/app/Console/Commands/GenerateAttendanceReport.php:48 | the position of the first '.', or the length when there is none |
| ReportCommand.NumericValue | backend/app/Console/Commands/GenerateAttendanceReport.php:48 | definition: `is_numeric` and the numeric value for an optional sign, digits and at most one '.' (DigitsAreNumeric and the month examples) |
| ReportCommand.DecimalValue | backend/app/Console/Commands/GenerateAttendanceReport.php:48 | a digit string with an optional fraction reads as its whole part plus less than one; without a fraction it is the integer |
| ReportCommand.ValidMonth | backend/app/Console/Commands/GenerateAttendanceReport.php:43-52 | Some exactly when the argument is numeric with value in 1..12, and then the month is the floor of that value, in 1..12 |
| ReportCommand.ValidYear | backend/app/Console/Commands/GenerateAttendanceReport.php:45-58 | without --year the current year, accepted exactly when in 2000..2100; with --year, Some exactly when numeric in 2000..2100, and then its floor |
| ReportCommand.DigitsAreNumeric | backend/app/Console/Commands/GenerateAttendanceReport.php:48 | a non-empty digit string is numeric with its decimal value |
| ReportCommand.MonthInRangeExamples | backend/app/Console/Commands/GenerateAttendanceReport.php:48-52 | "3" and "12" are accepted as 3 and 12 |
| ReportCommand.MonthOutOfRangeExamples | backend/app/Console/Commands/GenerateAttendanceReport.php:48-52 | "13" and "0" are rejected |
| ReportCommand.NonNumericMonthExamples | backend/app/Console/Commands/GenerateAttendanceReport.php:48-52 | "March" and "" are rejected |
| ReportCommand.SanitizeClass | backend/app/Console/Commands/GenerateAttendanceReport.php:141 | same length; every character outside [A-Za-z0-9-] becomes '_' and every other stays |
| ReportCommand.SanitizeIdempotent | backend/app/Console/Commands/GenerateAttendanceReport.php:141 | sanitising twice equals once; no '/' or '.' survives |
| ReportCommand.SanitizeKeepsSafeNames | backend/app/Console/Commands/GenerateAttendanceReport.php:141 | a class name of allowed characters is kept as it is |
| ReportCommand.SanitizeCollision | backend/app/Console/Commands/GenerateAttendanceReport.php:141-142 | "10/A" and "10 A" both become "10_A", so their reports share a file name |
| ReportCommand.FilenameShape | backend/app/Console/Commands/GenerateAttendanceReport.php:142 | the file name is "attendance-" + sanitised class + "-" + month + "-" + year + ".txt" |
| ReportCommand.Filename | backend/app/Console/Commands/GenerateAttendanceReport.php:141-142 | definition: `attendance-{class}-{month}-{year}.txt` with the sanitised class (characterised by FilenameShape) |
| ReportCommand.PercentText | backend/app/Console/Commands/GenerateAttendanceReport.php:196 | definition: PHP's float-to-string of a percentage with at most two decimals (PercentTextExamples) |
| ReportCommand.PercentTextExamples | backend/app/Console/Commands/GenerateAttendanceReport.php:196-205 | PHP prints 50.0 as "50", 66.67 as "66.67", 80.5 as "80.5", 0.0 as "0" |
| ReportCommand.RowsStep | backend/app/Console/Commands/GenerateAttendanceReport.php:187-198 | the rows of one more student are the previous rows followed by that student's line |
| ReportCommand.BuildReportContent | backend/app/Console/Commands/GenerateAttendanceReport.php:165-211 | the loop's `.=` appends produce exactly header, one row per student in order, and the summary block |
| ReportCommand.ReportContent | backend/app/Console/Commands/GenerateAttendanceReport.php:165-211 | definition: header, one row per student, summary block (characterised by BuildReportContent, RowsOneLinePerStudent, StudentRowNameField) |
| ReportCommand.CountCharAppend | backend/app/Console/Commands/GenerateAttendanceReport.php:187-198 | counting a character over a concatenation adds the counts |
| ReportCommand.StudentRowOneLine | backend/app/Console/Commands/GenerateAttendanceReport.php:189-197 | each student's row is exactly one line |
| ReportCommand.RowsOneLinePerStudent | backend/app/Console/Commands/GenerateAttendanceReport.php:187-198 | the rows section has exactly one line per student |
| ReportCommand.StudentRowNameField | backend/app/Console/Commands/GenerateAttendanceReport.php:189-197 | the row starts with the padded student_id, then the name cut to its first 30 characters and padded to 30 |
| ReportCommand.Handle | backend/app/Console/Commands/GenerateAttendanceReport.php:41-86 | bad month or year: FAILURE, nothing saved. Service exception: FAILURE. Empty roster: SUCCESS, nothing saved. A write that throws: FAILURE. A write that returns false: SUCCESS, nothing saved. Otherwise the report content is saved under reports/ + Filename and the command succeeds |
| ReportCommand.EmptyRosterSavesNothing | backend/app/Console/Commands/GenerateAttendanceReport.php:67-70 | the report has no students exactly when the class roster is empty |
| UseAttendance.InitialEntries | backend/resources/js/composables/useAttendance.js:119-125 | one entry per student in order, status "Present" and note "" |
| UseAttendance.FirstIndex | backend/resources/js/composables/useAttendance.js:133 | the index of the first entry with the student id, or None when there is none |
| UseAttendance.UpdateFirstChangesOnlyFirstMatch | backend/resources/js/composables/useAttendance.js:132-139 | only the status of the first matching entry changes; no match leaves the list unchanged |
| UseAttendance.UpdateFirst | backend/resources/js/composables/useAttendance.js:132-139 | definition: set the status of the entry `find` returns (characterised by UpdateFirstChangesOnlyFirstMatch) |
| UseAttendance.MarkAll | backend/resources/js/composables/useAttendance.js:145-149 | every entry gets the status with its other fields kept |
| UseAttendance.MarkAllProperties | backend/resources/js/composables/useAttendance.js:145-149 | length, student ids and notes are kept; marking twice equals marking once |
| UseAttendance.AttendanceForm.constructor | backend/resources/js/composables/useAttendance.js:12-17 | the form starts with today's date, empty class and section, no entries |
| UseAttendance.AttendanceForm.InitializeAttendanceData | backend/resources/js/composables/useAttendance.js:119-125 | replaces the entries with InitialEntries |
| UseAttendance.AttendanceForm.UpdateAttendanceStatus | backend/resources/js/composables/useAttendance.js:132-139 | the search loop updates the first match in place: the new list is UpdateFirst of the old |
| UseAttendance.AttendanceForm.MarkAllAs | backend/resources/js/composables/useAttendance.js:145-149 | the loop sets every status in place: the new list is MarkAll of the old |
| UseAttendance.FirstIndexIs | backend/resources/js/composables/useAttendance.js:133 | an entry with no earlier match is the one found |
| UseAttendance.FirstIndexNone | backend/resources/js/composables/useAttendance.js:133 | with no matching entry nothing is found |
| UseAttendance.ToFixed2 | backend/resources/js/composables/useAttendance.js:158 | the text has two decimals after a point |
| UseAttendance.ToFixed2ReadsBack | backend/resources/js/composables/useAttendance.js:158 | the text is a two-decimal numeral that reads back as the value rounded to hundredths |
| UseAttendance.CountStatusText | backend/resources/js/composables/useAttendance.js:170-172 | a status count never exceeds the list length |
| UseAttendance.PresentShare | backend/resources/js/composables/useAttendance.js:156-157 | the Present count over the list length ×100, never negative |
| UseAttendance.CalculatePercentage | backend/resources/js/composables/useAttendance.js:155-159 | 0 exactly for a missing or empty list; otherwise a two-decimal text that reads back as Percentage(present count, length), the Present share ×100 rounded to hundredths |
| UseAttendance.CurrentStats | backend/resources/js/composables/useAttendance.js:164-177 | all zeros for an empty list; total is the length; counts by status; otherwise the percentage text reads back as Percentage(present, total) |
| UseAttendance.StatsAgreeWithPercentage | backend/resources/js/composables/useAttendance.js:155-177 | the stats percentage equals calculatePercentage of the same list |
| UseAttendance.CountsAddUp | backend/resources/js/composables/useAttendance.js:170-176 | with known statuses, present + absent + late equals total |
| UseAttendance.AllPresentCount | backend/resources/js/composables/useAttendance.js:170 | a list of only "Present" entries counts all of them as present |
| UseAttendance.HundredPercentText | backend/resources/js/composables/useAttendance.js:158 | 100 prints as "100.00" |
| UseAttendance.InitialFormAllPresent | backend/resources/js/composables/useAttendance.js:119-177 | a freshly initialised form reports every student present and "100.00" percent |
| Router.RequiresAuthIn | backend/resources/js/router/index.js:8-48 | definition: the requiresAuth flag of the first route with the path, false when none matches (characterised by RequiresAuthInFirstMatch) |
| Router.RequiresAuthInFirstMatch | backend/resources/js/router/index.js:8-48 | true exactly when some route has the path and requires authentication and no earlier route has the path |
| Router.OnlyLoginIsPublic | backend/resources/js/router/index.js:8-38 | every route except /login requires authentication |
| Router.ProceedIsSafe | backend/resources/js/router/index.js:45-55 | a navigation that proceeds to a protected route has a token, and one to /login has none |
| Router.NoRedirectLoop | backend/resources/js/router/index.js:8-55 | the target of a redirect is accepted under the same token state |
| Router.GuardDecisions | backend/resources/js/router/index.js:45-55 | redirect to /login iff protected and no token; redirect to / iff a token and /login; otherwise proceed |
| Router.BeforeEach | backend/resources/js/router/index.js:45-55 | definition: the guard's three branches (characterised by GuardDecisions, ProceedIsSafe, NoRedirectLoop) |

## Left out

- Database, ORM and transaction engine: the table is a map. The transaction is snapshot and
  restore of that map. Exceptions are an injected `Fault` (at record k, or at commit) and the
  foreign-key checks.
- Event dispatch and listener discovery: the event is appended to a ghost log. The listeners
  are separate members that take the event as input.
- All `Log::` calls and the console output of `displayReport`.
- Floating point: PHP `round` and JavaScript `toFixed` work on exact rationals, rounding half
  away from zero. IEEE artefacts are not modelled.
- The clock is passed in as `today`, `now` and `currentYear`. Cache TTL expiry is kept only as the
  inert `StatsTtl` value.
- The JSON encoding of cached statistics, and the Redis connection's key prefix, which `keys`
  returns and `del` applies again. The model treats keys as unprefixed.
- Storage: `Storage::put` and `makeDirectory` in `saveReport` are reduced to a returned
  `SavedFile` and one of three outcomes of the write: written, thrown, or false returned.
  The photo deletion in `destroy` is recorded only as an `Effect`.
- Dates: request dates accept only `Y-m-d`. Other `strtotime` formats are not modelled. Valid
  years are 1..9999, the DATE column's range.
- Console arguments: `is_numeric` is modelled for an optional sign, digits and at most one
  fraction. Exponents and surrounding whitespace are not. The coercion of a fractional month
  to an int parameter is modelled as the floor.
- ReportCommand.SanitizeClass: `preg_replace` without the `/u` flag works on bytes, so a
  multibyte character becomes one `_` per byte. The model works on characters and writes one `_`
  per character.
- ReportCommand.StudentRowNameField: `substr` is taken on characters; multibyte names are not
  modelled.
- StudentController.MatchesExactly: `LIKE` is modelled as substring search under ASCII case
  folding. `%` and `_` in the term and collation rules are not modelled.
- StudentController.SortByName: names are ordered by code point. The order of students with
  equal names is left unspecified.
- StudentController.PerPage: a negative `per_page` is not modelled (the page size is a natural
  number).
- Router.RequiresAuthIn: path matching is exact; case and trailing-slash variants and
  parameterised routes are not modelled. An unmatched path has empty meta.
- The `users` table and its `recorded_by` restrict rule on delete: users are a fixed set of ids.
- `StudentController` store, update and show, and `StudentService`: photo upload and
  delete through the storage layer.
- The `todayStatistics` controller action: it only wraps `getTodayStatistics`.
- The asynchronous fetch functions of `useAttendance.js`, the other composables, the JavaScript
  network services, login and token issuance, API resources, seeders and factories.

/**
 * AttendanceService: bulk recording inside a transaction, the monthly report, the business-day
 * fallback, and the cache-aside read and flush of today's statistics.
 */
module AttendanceService {
  import opened Wrappers
  import opened Text
  import opened Calendar
  import opened Models
  import opened Schema
  import opened BulkRecording
  import opened MonthlyReport
  import opened TodayStatistics

  /** The event dispatched after a successful batch: the recorded models and the acting user. */
  datatype AttendanceRecorded = AttendanceRecorded(attendances: seq<Attendance>, recordedBy: User)

  /** The events dispatched so far, in order. */
  class EventLog {
    ghost var dispatched: seq<AttendanceRecorded>

    constructor ()
      ensures dispatched == []
    {
      dispatched := [];
    }
  }

  /**
   * `recordBulkAttendance`: upsert every record in order inside one transaction. On an exception
   * the table is restored and nothing is dispatched; on success exactly one event follows the commit.
   */
  method RecordBulkAttendance(db: Database, events: EventLog, records: seq<BulkInput>, user: User,
                              fault: Option<Fault>)
    returns (result: Result<seq<Attendance>, Failure>)
    requires db.Valid()
    modifies db`attendances, events
    ensures db.Valid()
    ensures var failure := FirstFailure(records, 0, StudentIds(db.students), db.users, user.id, fault);
      if failure.Some? then
        result == Err(failure.value) && db.attendances == old(db.attendances)
        && events.dispatched == old(events.dispatched)
      else
        result == Ok(Entries(records, user.id))
        && db.attendances == ApplyAll(old(db.attendances), records, user.id)
        && events.dispatched == old(events.dispatched) + [AttendanceRecorded(Entries(records, user.id), user)]
  {
    ghost var studentIds := StudentIds(db.students);
    var snapshot := db.attendances;
    var recorded: seq<Attendance> := [];
    var i := 0;
    while i < |records|
      invariant 0 <= i <= |records|
      invariant db.attendances == ApplyAll(snapshot, records[..i], user.id)
      invariant TableInvariant(db.attendances, studentIds, db.users)
      invariant recorded == Entries(records[..i], user.id)
      invariant events.dispatched == old(events.dispatched)
      invariant FirstFailure(records, 0, studentIds, db.users, user.id, fault)
             == FirstFailure(records, i, studentIds, db.users, user.id, fault)
    {
      PrefixStep(records, i);
      var r := records[i];
      var k := Key(r.student, r.date);
      if fault.Some? && fault.value.at == i {
        db.attendances := snapshot;
        return Err(PersistenceFailure(fault.value.message));
      }
      if k in db.attendances {
        if user.id !in db.users {
          db.attendances := snapshot;
          return Err(ConstraintViolation(ForeignKeyMessage));
        }
        var updated := db.attendances[k].(status := r.status, note := r.note, recordedBy := user.id);
        db.attendances := db.attendances[k := updated];
        recorded := recorded + [updated];
      } else {
        if r.student !in StudentIds(db.students) || user.id !in db.users {
          db.attendances := snapshot;
          return Err(ConstraintViolation(ForeignKeyMessage));
        }
        var row := RowFor(r, user.id);
        db.attendances := db.attendances[k := row];
        recorded := recorded + [row];
      }
      i := i + 1;
    }
    assert records[..i] == records;
    if fault.Some? {
      db.attendances := snapshot;
      return Err(PersistenceFailure(fault.value.message));
    }
    events.dispatched := events.dispatched + [AttendanceRecorded(recorded, user)];
    result := Ok(recorded);
  }

  /**
   * `calculateBusinessDays`, called with the first and the last day of a month: walk the days
   * one by one and count Monday to Friday.
   */
  method CalculateBusinessDays(start: Date, end: Date) returns (days: nat)
    requires ValidDate(start) && start.day == 1
    requires end == Date(start.year, start.month, DaysInMonth(start.year, start.month))
    ensures days == BusinessDaysInMonth(start.year, start.month)
    ensures 20 <= days <= 23
  {
    var y, m, last := start.year, start.month, end.day;
    days := 0;
    var current := start;
    ghost var d := 1;
    while NotAfter(current, end)
      invariant 1 <= d <= last + 1
      invariant d <= last ==> current == Date(y, m, d)
      invariant d == last + 1 ==> current == NextDay(end)
      invariant days == WeekdayCount(y, m, d - 1)
      decreases last + 1 - d
    {
      if IsWeekday(current) {
        days := days + 1;
      }
      current := NextDay(current);
      d := d + 1;
    }
    BusinessDaysBounds(y, m);
  }

  /** Appending a line adds its counts to each status total. */
  lemma TotalOfAppend(lines: seq<StudentLine>, line: StudentLine, s: Status)
    ensures TotalOf(lines + [line], s) == TotalOf(lines, s) + StatusCount(line, s)
  {
    assert (lines + [line])[..|lines|] == lines;
  }

  /** The report's denominator: the distinct tracked dates of the month, else the month's business days. */
  method MonthTotalDays(db: Database, month: int, year: int) returns (totalDays: nat)
    requires 1 <= month <= 12
    requires 1 <= year <= 9999
    ensures totalDays == TotalDays(db.attendances, month, year)
  {
    totalDays := |DatesOf(ForMonth(db.attendances, month, year))|;
    if totalDays == 0 {
      var start := Date(year, month, 1);
      var end := Date(year, month, DaysInMonth(year, month));
      totalDays := CalculateBusinessDays(start, end);
    }
  }

  /** One more roster student adds one line at the end. */
  lemma LinesStep(roster: seq<Student>, i: nat, t: Table, m: int, y: int, totalDays: nat)
    requires i < |roster|
    ensures Lines(roster[..i + 1], t, m, y, totalDays)
         == Lines(roster[..i], t, m, y, totalDays) + [LineFor(roster[i], t, m, y, totalDays)]
  {
    assert roster[..i + 1][..i] == roster[..i];
  }

  /** The per-student loop of `generateMonthlyReport`: a line per student and the three running totals. */
  method ReportLines(roster: seq<Student>, t: Table, m: int, y: int, totalDays: nat)
    returns (lines: seq<StudentLine>, totalPresent: nat, totalAbsent: nat, totalLate: nat)
    ensures lines == Lines(roster, t, m, y, totalDays)
    ensures totalPresent == TotalOf(lines, Present)
    ensures totalAbsent == TotalOf(lines, Absent)
    ensures totalLate == TotalOf(lines, Late)
  {
    lines := [];
    totalPresent, totalAbsent, totalLate := 0, 0, 0;
    for i := 0 to |roster|
      invariant lines == Lines(roster[..i], t, m, y, totalDays)
      invariant totalPresent == TotalOf(lines, Present)
      invariant totalAbsent == TotalOf(lines, Absent)
      invariant totalLate == TotalOf(lines, Late)
    {
      var line := LineFor(roster[i], t, m, y, totalDays);
      LinesStep(roster, i, t, m, y, totalDays);
      TotalOfAppend(lines, line, Present);
      TotalOfAppend(lines, line, Absent);
      TotalOfAppend(lines, line, Late);
      lines := lines + [line];
      totalPresent := totalPresent + StatusCount(line, Present);
      totalAbsent := totalAbsent + StatusCount(line, Absent);
      totalLate := totalLate + StatusCount(line, Late);
    }
    assert roster[..|roster|] == roster;
  }

  /**
   * `generateMonthlyReport`: the class roster with each student's month counts and percentage,
   * accumulated in one pass, then the summary.
   */
  method GenerateMonthlyReport(db: Database, month: int, year: int, className: string) returns (report: Report)
    requires 1 <= month <= 12
    requires 1 <= year <= 9999
    ensures report == ReportOf(db.students, db.attendances, month, year, className)
  {
    var roster := ByClass(db.students, className);
    var totalDays := MonthTotalDays(db, month, year);
    var lines, totalPresent, totalAbsent, totalLate := ReportLines(roster, db.attendances, month, year, totalDays);
    var average := Rounding.RoundedMean(Percentages(lines));
    report := Report(month, year, className, lines,
                     Summary(|lines|, average, totalPresent, totalAbsent, totalLate));
  }

  /**
   * `getTodayStatistics`: return the cached value when the read succeeds and finds one; otherwise
   * compute from the table and try to store it for an hour. Store failures are swallowed.
   */
  method GetTodayStatistics(db: Database, redis: KeyValueStore, today: Date, readFails: bool, writeFails: bool)
    returns (stats: Stats)
    requires ValidDate(today)
    modifies redis
    ensures var key := TodayKey(today);
      if !readFails && key in old(redis.entries) then
        stats == old(redis.entries)[key].value && redis.entries == old(redis.entries)
      else
        stats == CalculateTodayStatistics(db.attendances, today)
        && redis.entries == if writeFails then old(redis.entries)
                            else old(redis.entries)[key := CacheEntry(stats, StatsTtl)]
  {
    var key := TodayKey(today);
    if !readFails && key in redis.entries {
      return redis.entries[key].value;
    }
    stats := CalculateTodayStatistics(db.attendances, today);
    if !writeFails {
      redis.entries := redis.entries[key := CacheEntry(stats, StatsTtl)];
    }
  }

  /** The store calls `invalidateStatisticsCache` makes, in order; any one of them may throw. */
  datatype FlushStep = DeleteTodayKey | ListKeys | DeleteMatchingKeys

  /**
   * `invalidateStatisticsCache`: delete today's key, then every key matching `attendance:stats:*`.
   * An exception from any step ends the method quietly, keeping what earlier steps did.
   */
  method InvalidateStatisticsCache(redis: KeyValueStore, today: Date, failing: Option<FlushStep>)
    requires ValidDate(today)
    modifies redis
    ensures failing == Some(DeleteTodayKey) ==> redis.entries == old(redis.entries)
    ensures failing == Some(ListKeys) ==> redis.entries == Forget(old(redis.entries), TodayKey(today))
    ensures failing == Some(DeleteMatchingKeys) ==>
      redis.entries == Forget(old(redis.entries), TodayKey(today))
    ensures failing.None? ==> redis.entries == FlushPrefix(old(redis.entries), StatsKeyPrefix)
  {
    var key := TodayKey(today);
    if failing == Some(DeleteTodayKey) {
      return;
    }
    redis.entries := Forget(redis.entries, key);
    if failing == Some(ListKeys) {
      return;
    }
    var keys := MatchingKeys(redis.entries, StatsKeyPrefix);
    if keys != {} {
      if failing == Some(DeleteMatchingKeys) {
        return;
      }
      redis.entries := redis.entries - keys;
    }
  }
}

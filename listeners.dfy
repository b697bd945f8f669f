/**
 * The two listeners of the `AttendanceRecorded` event: one forgets a cached statistics key,
 * the other builds the activity log entry.
 */
module Listeners {
  import opened Text
  import opened Calendar
  import opened Models
  import opened TodayStatistics
  import opened AttendanceService
  import opened BulkRecording

  /** The dates carried by the event's models are calendar dates (the column is a DATE). */
  predicate EventDatesValid(event: AttendanceRecorded)
  {
    forall i :: 0 <= i < |event.attendances| ==> ValidDate(event.attendances[i].date)
  }

  // ---- InvalidateAttendanceCache

  /**
   * The key the listener forgets: the prefix followed by the first model's date, which is a
   * date-cast attribute and so turns into a `Y-m-d H:i:s` string; with no model, today as `Y-m-d`.
   */
  function InvalidationKey(event: AttendanceRecorded, today: Date): (k: string)
    requires EventDatesValid(event) && ValidDate(today)
    ensures HasPrefix(k, TodayKeyPrefix)
    ensures |event.attendances| > 0 ==> k == TodayKeyPrefix + FormatDateTime(event.attendances[0].date)
    ensures |event.attendances| == 0 ==> k == TodayKey(today)
  {
    if |event.attendances| > 0 then TodayKeyPrefix + FormatDateTime(event.attendances[0].date)
    else TodayKeyPrefix + FormatYmd(today)
  }

  /**
   * `InvalidateAttendanceCache::handle`: forget the key in the application cache; an exception
   * from the cache is caught and logged, leaving the cache as it was.
   */
  method HandleInvalidation(cache: KeyValueStore, event: AttendanceRecorded, today: Date, forgetFails: bool)
    requires EventDatesValid(event) && ValidDate(today)
    modifies cache
    ensures cache.entries == if forgetFails then old(cache.entries)
                             else Forget(old(cache.entries), InvalidationKey(event, today))
  {
    if forgetFails {
      return;
    }
    var key := InvalidationKey(event, today);
    cache.entries := Forget(cache.entries, key);
  }

  /**
   * For a non-empty batch the forgotten key is never the statistics reader's key for any day:
   * the reader's keys are `Y-m-d` (ten characters after the prefix), the listener's carry a time.
   */
  lemma ListenerMissesReaderKey(event: AttendanceRecorded, today: Date, d: Date)
    requires EventDatesValid(event) && ValidDate(today) && ValidDate(d)
    requires |event.attendances| > 0
    ensures InvalidationKey(event, today) != TodayKey(d)
  {
    assert |InvalidationKey(event, today)| == |TodayKeyPrefix| + 19;
  }

  /** Hence an entry the reader cached survives the listener in a store the two shared. */
  lemma ReaderEntrySurvives(entries: map<string, CacheEntry>, event: AttendanceRecorded, today: Date, d: Date)
    requires EventDatesValid(event) && ValidDate(today) && ValidDate(d)
    requires |event.attendances| > 0 && TodayKey(d) in entries
    ensures TodayKey(d) in Forget(entries, InvalidationKey(event, today))
    ensures Forget(entries, InvalidationKey(event, today))[TodayKey(d)] == entries[TodayKey(d)]
  {
    ListenerMissesReaderKey(event, today, d);
  }

  /** An empty batch falls back to today's `Y-m-d`, which is exactly the reader's key for today. */
  lemma EmptyEventForgetsTodaysKey(entries: map<string, CacheEntry>, event: AttendanceRecorded, today: Date)
    requires EventDatesValid(event) && ValidDate(today)
    requires |event.attendances| == 0
    ensures TodayKey(today) !in Forget(entries, InvalidationKey(event, today))
  {
  }

  // ---- LogAttendanceActivity

  /** The context of the `Attendance recorded` log line. */
  datatype ActivityLog = ActivityLog(recordedBy: string, userId: int, date: Date, totalRecords: nat,
                                     present: nat, absent: nat, late: nat, timestamp: string)

  /** `LogAttendanceActivity::handle`: who recorded, the first model's date (else today), and the counts. */
  function ActivityPayload(event: AttendanceRecorded, today: Date, now: string): (log: ActivityLog)
    ensures log.recordedBy == event.recordedBy.name && log.userId == event.recordedBy.id
    ensures log.totalRecords == |event.attendances|
    ensures log.date == if |event.attendances| > 0 then event.attendances[0].date else today
    ensures log.timestamp == now
    ensures log.present == CountStatus(event.attendances, Present)
    ensures log.absent == CountStatus(event.attendances, Absent)
    ensures log.late == CountStatus(event.attendances, Late)
  {
    var rows := event.attendances;
    ActivityLog(event.recordedBy.name, event.recordedBy.id,
                if |rows| > 0 then rows[0].date else today,
                |rows|, CountStatus(rows, Present), CountStatus(rows, Absent), CountStatus(rows, Late), now)
  }

  /** The logged statistics account for every recorded model exactly once. */
  lemma ActivityCountsPartition(event: AttendanceRecorded, today: Date, now: string)
    ensures var log := ActivityPayload(event, today, now);
      log.present + log.absent + log.late == log.totalRecords
  {
    CountStatusPartition(event.attendances);
  }

  /** Rows that all have status s are all counted under s. */
  lemma {:induction false} UniformCount(rows: seq<Attendance>, s: Status)
    requires forall i :: 0 <= i < |rows| ==> rows[i].status == s
    ensures CountStatus(rows, s) == |rows|
  {
    if rows != [] {
      UniformCount(rows[..|rows| - 1], s);
    }
  }

  /** A batch where every model has status s is logged entirely under s and with 0 under the others. */
  lemma UniformBatchCounts(event: AttendanceRecorded, today: Date, now: string, s: Status)
    requires forall i :: 0 <= i < |event.attendances| ==> event.attendances[i].status == s
    ensures var log := ActivityPayload(event, today, now);
      && (s == Present ==> log.present == log.totalRecords && log.absent == 0 && log.late == 0)
      && (s == Absent ==> log.absent == log.totalRecords && log.present == 0 && log.late == 0)
      && (s == Late ==> log.late == log.totalRecords && log.present == 0 && log.absent == 0)
  {
    UniformCount(event.attendances, s);
    CountStatusPartition(event.attendances);
  }

  /** For the event of a successful batch, the log counts every input record and dates the batch by its first. */
  lemma BatchActivity(rs: seq<BulkInput>, user: User, today: Date, now: string)
    ensures var log := ActivityPayload(AttendanceRecorded(Entries(rs, user.id), user), today, now);
      log.totalRecords == |rs| && (|rs| > 0 ==> log.date == rs[0].date) && (rs == [] ==> log.date == today)
  {
    EntriesMatchInputs(rs, user.id);
  }
}

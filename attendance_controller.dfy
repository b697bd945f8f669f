/**
 * AttendanceController: request validation, the request-to-record mapping of `bulkStore`, the
 * statistics in its response, and the input bounds of `monthlyReport`.
 */
module AttendanceController {
  import opened Wrappers
  import opened Calendar
  import opened Rounding
  import opened Models
  import opened Schema
  import opened BulkRecording
  import opened MonthlyReport
  import opened AttendanceService

  // ---- bulkStore

  /** One element of the `attendances` array; a missing field is None. */
  datatype EntryRequest = EntryRequest(studentId: Option<int>, status: Option<string>, note: Option<string>)

  datatype BulkRequest = BulkRequest(date: Option<string>, attendances: Option<seq<EntryRequest>>)

  const MaxNoteLength: nat := 500

  /** The per-entry rules: student present and existing, status in the enum, note null or at most 500 characters. */
  predicate EntryValid(e: EntryRequest, studentIds: set<int>)
  {
    && e.studentId.Some? && e.studentId.value in studentIds
    && e.status.Some? && ParseStatus(e.status.value).Some?
    && (e.note.Some? ==> |e.note.value| <= MaxNoteLength)
  }

  /** The whole request passes validation. */
  predicate BulkValid(req: BulkRequest, studentIds: set<int>)
  {
    && req.date.Some? && ParseYmd(req.date.value).Some?
    && req.attendances.Some? && |req.attendances.value| >= 1
    && forall i :: 0 <= i < |req.attendances.value| ==> EntryValid(req.attendances.value[i], studentIds)
  }

  /** The collection `map` of `bulkStore`: every entry gets the request's single date; note stays null when absent. */
  function ToServiceRecords(date: Date, entries: seq<EntryRequest>, studentIds: set<int>): (rs: seq<BulkInput>)
    requires forall i :: 0 <= i < |entries| ==> EntryValid(entries[i], studentIds)
    ensures |rs| == |entries|
    ensures forall i :: 0 <= i < |entries| ==>
      && EntryValid(entries[i], studentIds)
      && rs[i].student == entries[i].studentId.value
      && rs[i].date == date
      && Some(rs[i].status) == ParseStatus(entries[i].status.value)
      && rs[i].note == entries[i].note
  {
    if entries == [] then []
    else
      var e := entries[|entries| - 1];
      assert EntryValid(e, studentIds);
      ToServiceRecords(date, entries[..|entries| - 1], studentIds)
        + [BulkInput(e.studentId.value, date, ParseStatus(e.status.value).value, e.note)]
  }

  /** The validated request as the service's input, or None (HTTP 422) when a rule fails. */
  function ValidateBulk(req: BulkRequest, studentIds: set<int>): (r: Option<seq<BulkInput>>)
    ensures r.Some? <==> BulkValid(req, studentIds)
    ensures r.Some? ==> |r.value| == |req.attendances.value| >= 1
    ensures r.Some? ==> forall i :: 0 <= i < |r.value| ==>
      r.value[i].student in studentIds && Some(r.value[i].date) == ParseYmd(req.date.value)
  {
    if BulkValid(req, studentIds) then
      Some(ToServiceRecords(ParseYmd(req.date.value).value, req.attendances.value, studentIds))
    else None
  }

  /** A validated batch only references existing students, so with a known actor and no fault it commits. */
  lemma ValidatedBatchCommits(req: BulkRequest, studentIds: set<int>, userIds: set<int>, actorId: int)
    requires BulkValid(req, studentIds) && actorId in userIds
    ensures FirstFailure(ValidateBulk(req, studentIds).value, 0, studentIds, userIds, actorId, None).None?
  {
    NoFailureIff(ValidateBulk(req, studentIds).value, 0, studentIds, userIds, actorId, None);
  }

  /** The `statistics` object of the 201 response. */
  datatype BulkStatistics = BulkStatistics(present: nat, absent: nat, late: nat, total: nat, percentage: real)

  function ResponseStatistics(recorded: seq<Attendance>): (s: BulkStatistics)
    ensures s.total == |recorded|
    ensures s.present == CountStatus(recorded, Present) && s.absent == CountStatus(recorded, Absent)
    ensures s.late == CountStatus(recorded, Late)
    ensures s.percentage == Percentage(s.present, s.total)
    ensures s.total == 0 ==> s.percentage == 0.0
  {
    var present := CountStatus(recorded, Present);
    BulkStatistics(present, CountStatus(recorded, Absent), CountStatus(recorded, Late), |recorded|,
                   Percentage(present, |recorded|))
  }

  /** The three counts add up to recorded_count, and the percentage is a share of it within 0 and 100. */
  lemma ResponseStatisticsConsistent(recorded: seq<Attendance>)
    ensures var s := ResponseStatistics(recorded);
      s.present + s.absent + s.late == s.total && 0.0 <= s.percentage <= 100.0
  {
    CountStatusPartition(recorded);
    PercentageBounds(CountStatus(recorded, Present), |recorded|);
  }

  /** Two present out of four gives 50. */
  lemma TwoOfFourPresent(a: Attendance, b: Attendance, c: Attendance, d: Attendance)
    requires a.status == Present && b.status == Present && c.status == Absent && d.status == Late
    ensures ResponseStatistics([a, b, c, d]) == BulkStatistics(2, 1, 1, 4, 50.0)
  {
    var rows := [a, b, c, d];
    assert rows[..3] == [a, b, c] && [a, b, c][..2] == [a, b] && [a, b][..1] == [a] && [a][..0] == [];
    assert CountStatus([a], Present) == 1 && CountStatus([a, b], Present) == 2;
    assert CountStatus([a, b, c], Present) == 2 && CountStatus(rows, Present) == 2;
    assert CountStatus([a], Absent) == 0 && CountStatus([a, b], Absent) == 0;
    assert CountStatus([a, b, c], Absent) == 1 && CountStatus(rows, Absent) == 1;
    assert CountStatus([a], Late) == 0 && CountStatus([a, b], Late) == 0;
    assert CountStatus([a, b, c], Late) == 0 && CountStatus(rows, Late) == 1;
    PercentageExamples();
  }

  datatype BulkResponse =
    | Created(recordedCount: nat, date: string, statistics: BulkStatistics)   // 201
    | ServerError(error: string)                                               // 500
    | Unprocessable                                                            // 422

  function FailureMessage(f: Failure): string
  {
    match f
    case ConstraintViolation(m) => m
    case PersistenceFailure(m) => m
  }

  /**
   * `bulkStore`: validate, map, record through the service, answer with the statistics; a
   * service exception answers 500 with its message.
   */
  method BulkStore(db: Database, events: EventLog, req: BulkRequest, user: User, fault: Option<Fault>)
    returns (response: BulkResponse)
    requires db.Valid()
    modifies db`attendances, events
    ensures db.Valid()
    ensures !BulkValid(req, old(StudentIds(db.students))) ==>
      response == Unprocessable && db.attendances == old(db.attendances)
      && events.dispatched == old(events.dispatched)
    ensures BulkValid(req, old(StudentIds(db.students))) ==>
      var rs := ValidateBulk(req, StudentIds(db.students)).value;
      var failure := FirstFailure(rs, 0, StudentIds(db.students), db.users, user.id, fault);
      if failure.Some? then
        response == ServerError(FailureMessage(failure.value)) && db.attendances == old(db.attendances)
        && events.dispatched == old(events.dispatched)
      else
        response == Created(|rs|, req.date.value, ResponseStatistics(Entries(rs, user.id)))
        && db.attendances == ApplyAll(old(db.attendances), rs, user.id)
        && events.dispatched == old(events.dispatched) + [AttendanceRecorded(Entries(rs, user.id), user)]
  {
    var validated := ValidateBulk(req, StudentIds(db.students));
    if validated.None? {
      return Unprocessable;
    }
    var result := RecordBulkAttendance(db, events, validated.value, user, fault);
    if result.Err? {
      return ServerError(FailureMessage(result.error));
    }
    var recorded := result.value;
    EntriesMatchInputs(validated.value, user.id);
    response := Created(|recorded|, req.date.value, ResponseStatistics(recorded));
  }

  /** recorded_count is the number of submitted entries: a student listed twice counts twice, yet owns one row. */
  lemma RepeatedStudentCountedTwice(t: Table, r1: BulkInput, r2: BulkInput, actorId: int)
    requires InputKey(r1) == InputKey(r2) && InputKey(r1) !in t
    ensures |Entries([r1, r2], actorId)| == 2
    ensures |ApplyAll(t, [r1, r2], actorId)| == |t| + 1
  {
    EntriesMatchInputs([r1, r2], actorId);
    assert [r1, r2][..1] == [r1] && [r1][..0] == [];
    assert ApplyAll(t, [r1], actorId) == t[InputKey(r1) := RowFor(r1, actorId)];
  }

  // ---- monthlyReport

  datatype ReportQuery = ReportQuery(month: Option<int>, year: Option<int>, className: Option<string>)

  /** The characters PHP's `trim` strips: space, tab, newline, carriage return, NUL and vertical tab. */
  predicate TrimmedByPhp(c: char)
  {
    c == ' ' || c == '\t' || c == '\n' || c == '\r' || c == 0 as char || c == 11 as char
  }

  /** `required` on a string: present, and something is left after `trim`. */
  predicate RequiredString(s: Option<string>)
  {
    s.Some? && exists i :: 0 <= i < |s.value| && !TrimmedByPhp(s.value[i])
  }

  /** month in 1..12, year in 2000..2100, class `required` and of at most 50 characters. */
  predicate ReportQueryValid(q: ReportQuery)
  {
    && q.month.Some? && 1 <= q.month.value <= 12
    && q.year.Some? && 2000 <= q.year.value <= 2100
    && RequiredString(q.className) && |q.className.value| <= 50
  }

  /** A class made only of characters `trim` strips, the empty class included, is rejected with 422. */
  lemma BlankClassRejected(db: Database, q: ReportQuery, serviceError: Option<string>)
    requires q.className.Some?
    requires forall i :: 0 <= i < |q.className.value| ==> TrimmedByPhp(q.className.value[i])
    ensures !ReportQueryValid(q)
    ensures !ReportQueryValid(q.(className := Some("   ")))
  {
  }

  datatype ReportResponse = ReportOk(report: Report) | ReportServerError(error: string) | ReportUnprocessable

  /**
   * `monthlyReport`: reject bad bounds before the service runs; otherwise the service's report,
   * or 500 with the message of an exception the data layer raised (`serviceError`).
   */
  method MonthlyReportAction(db: Database, q: ReportQuery, serviceError: Option<string>) returns (response: ReportResponse)
    ensures !ReportQueryValid(q) ==> response == ReportUnprocessable
    ensures ReportQueryValid(q) && serviceError.Some? ==> response == ReportServerError(serviceError.value)
    ensures ReportQueryValid(q) && serviceError.None? ==>
      response == ReportOk(ReportOf(db.students, db.attendances, q.month.value, q.year.value, q.className.value))
  {
    if !ReportQueryValid(q) {
      return ReportUnprocessable;
    }
    if serviceError.Some? {
      return ReportServerError(serviceError.value);
    }
    var report := GenerateMonthlyReport(db, q.month.value, q.year.value, q.className.value);
    response := ReportOk(report);
  }
}

/**
 * The monthly report of `generateMonthlyReport` as a function of the tables: the tracked-days
 * denominator, one line per student of the class, and the class summary.
 */
module MonthlyReport {
  import opened Calendar
  import opened Rounding
  import opened Models
  import opened Schema

  datatype StudentLine = StudentLine(id: int, name: string, studentId: string, totalDays: nat,
                                     present: nat, absent: nat, late: nat, percentage: real)

  datatype Summary = Summary(totalStudents: nat, averagePercentage: real,
                             totalPresent: nat, totalAbsent: nat, totalLate: nat)

  datatype Report = Report(month: int, year: int, className: string, students: seq<StudentLine>, summary: Summary)

  /** Distinct dates with any attendance in the month, across every class. */
  function TrackedDays(t: Table, m: int, y: int): nat
  {
    |DatesOf(ForMonth(t, m, y))|
  }

  /** The denominator: the tracked days, or the month's business days when nothing was tracked. */
  function TotalDays(t: Table, m: int, y: int): nat
    requires 1 <= m <= 12
  {
    if TrackedDays(t, m, y) == 0 then BusinessDaysInMonth(y, m) else TrackedDays(t, m, y)
  }

  /** The denominator is never zero, so the report's `: 0` branch for percentages is never taken. */
  lemma TotalDaysPositive(t: Table, m: int, y: int)
    requires 1 <= m <= 12
    ensures TotalDays(t, m, y) >= 1
    ensures TrackedDays(t, m, y) == 0 ==> 20 <= TotalDays(t, m, y) <= 23
  {
    BusinessDaysBounds(y, m);
  }

  /** A student's rows in the month with status s (`$student->attendances->where('status', s)->count()`). */
  function CountFor(t: Table, m: int, y: int, studentId: int, s: Status): nat
  {
    |ByStatus(AttendancesOf(ForMonth(t, m, y), studentId), s)|
  }

  function LineFor(st: Student, t: Table, m: int, y: int, totalDays: nat): StudentLine
  {
    var present := CountFor(t, m, y, st.id, Present);
    StudentLine(st.id, st.name, st.studentId, totalDays, present, CountFor(t, m, y, st.id, Absent),
                CountFor(t, m, y, st.id, Late), Percentage(present, totalDays))
  }

  /** The report lines of a roster, in roster order. */
  function Lines(roster: seq<Student>, t: Table, m: int, y: int, totalDays: nat): seq<StudentLine>
  {
    if roster == [] then []
    else Lines(roster[..|roster| - 1], t, m, y, totalDays) + [LineFor(roster[|roster| - 1], t, m, y, totalDays)]
  }

  function StatusCount(l: StudentLine, s: Status): nat
  {
    match s
    case Present => l.present
    case Absent => l.absent
    case Late => l.late
  }

  /** The sum over the lines of one status column. */
  function TotalOf(lines: seq<StudentLine>, s: Status): nat
  {
    if lines == [] then 0 else TotalOf(lines[..|lines| - 1], s) + StatusCount(lines[|lines| - 1], s)
  }

  function Percentages(lines: seq<StudentLine>): (ps: seq<real>)
    ensures |ps| == |lines| && forall i :: 0 <= i < |lines| ==> ps[i] == lines[i].percentage
  {
    if lines == [] then [] else Percentages(lines[..|lines| - 1]) + [lines[|lines| - 1].percentage]
  }

  function SummaryOf(lines: seq<StudentLine>): Summary
  {
    Summary(|lines|, RoundedMean(Percentages(lines)), TotalOf(lines, Present), TotalOf(lines, Absent), TotalOf(lines, Late))
  }

  /** The report for the students of class c, from the tables. */
  function ReportOf(students: seq<Student>, t: Table, m: int, y: int, c: string): Report
    requires 1 <= m <= 12
  {
    var lines := Lines(ByClass(students, c), t, m, y, TotalDays(t, m, y));
    Report(m, y, c, lines, SummaryOf(lines))
  }

  /** Line i belongs to roster student i and carries that student's counts in the month. */
  lemma {:induction false} LinesMatchRoster(roster: seq<Student>, t: Table, m: int, y: int, totalDays: nat)
    ensures |Lines(roster, t, m, y, totalDays)| == |roster|
    ensures forall i :: 0 <= i < |roster| ==> Lines(roster, t, m, y, totalDays)[i] == LineFor(roster[i], t, m, y, totalDays)
  {
    if roster != [] {
      LinesMatchRoster(roster[..|roster| - 1], t, m, y, totalDays);
    }
  }

  lemma SubmapSize(a: Table, b: Table)
    requires a.Keys <= b.Keys
    ensures |a| <= |b|
  {
    assert b.Keys == a.Keys + (b.Keys - a.Keys);
  }

  /**
   * Thanks to the unique (student_id, date) key, a student's present, absent and late rows in a
   * month together never exceed the month's total days.
   */
  lemma StudentCountsWithinTotalDays(t: Table, m: int, y: int, studentId: int)
    requires 1 <= m <= 12
    requires KeysConsistent(t)
    ensures CountFor(t, m, y, studentId, Present) + CountFor(t, m, y, studentId, Absent)
          + CountFor(t, m, y, studentId, Late) <= TotalDays(t, m, y)
  {
    var month := ForMonth(t, m, y);
    var mine := AttendancesOf(month, studentId);
    StatusPartition(mine);
    StudentRowsAtMostDates(month, studentId);
  }

  /** Every student's percentage lies between 0 and 100. */
  lemma LinePercentageBounded(st: Student, t: Table, m: int, y: int)
    requires 1 <= m <= 12
    requires KeysConsistent(t)
    ensures 0.0 <= LineFor(st, t, m, y, TotalDays(t, m, y)).percentage <= 100.0
  {
    StudentCountsWithinTotalDays(t, m, y, st.id);
    PercentageBounds(CountFor(t, m, y, st.id, Present), TotalDays(t, m, y));
  }

  /** Per student 0 <= percentage <= 100, and so is the class average. */
  lemma ReportPercentagesBounded(students: seq<Student>, t: Table, m: int, y: int, c: string)
    requires 1 <= m <= 12
    requires KeysConsistent(t)
    ensures forall i :: 0 <= i < |ReportOf(students, t, m, y, c).students| ==>
      0.0 <= ReportOf(students, t, m, y, c).students[i].percentage <= 100.0
    ensures 0.0 <= ReportOf(students, t, m, y, c).summary.averagePercentage <= 100.0
  {
    var roster := ByClass(students, c);
    var lines := Lines(roster, t, m, y, TotalDays(t, m, y));
    LinesMatchRoster(roster, t, m, y, TotalDays(t, m, y));
    forall i | 0 <= i < |lines| ensures 0.0 <= lines[i].percentage <= 100.0 {
      LinePercentageBounded(roster[i], t, m, y);
    }
    RoundedMeanBounds(Percentages(lines));
  }

  /** The rows of a set of rows that belong to the students with the given ids. */
  function RowsOfStudents(t: Table, ids: set<int>): (r: Table)
    ensures forall k :: k in r <==> k in t && t[k].student in ids
    ensures forall k :: k in r ==> r[k] == t[k]
  {
    map k | k in t && t[k].student in ids :: t[k]
  }

  /**
   * For a roster with distinct ids, a status column of the lines adds up to the number of the
   * month's rows with that status that belong to the roster's students.
   */
  lemma {:induction false} TotalOfCountsRows(roster: seq<Student>, t: Table, m: int, y: int, totalDays: nat, s: Status)
    requires DistinctIds(roster)
    ensures TotalOf(Lines(roster, t, m, y, totalDays), s) == |ByStatus(RowsOfStudents(ForMonth(t, m, y), StudentIds(roster)), s)|
    decreases |roster|
  {
    var month := ForMonth(t, m, y);
    if roster == [] {
      assert ByStatus(RowsOfStudents(month, StudentIds(roster)), s).Keys == {};
    } else {
      var init, last := roster[..|roster| - 1], roster[|roster| - 1];
      SplitLastStudent(roster);
      TotalOfCountsRows(init, t, m, y, totalDays, s);
      var lines := Lines(init, t, m, y, totalDays);
      assert (lines + [LineFor(last, t, m, y, totalDays)])[..|lines|] == lines;
      RowsOfOneMoreStudent(month, StudentIds(init), last.id, s);
    }
  }

  /** Taking the last student off a roster with distinct ids. */
  lemma SplitLastStudent(roster: seq<Student>)
    requires DistinctIds(roster) && roster != []
    ensures var init, last := roster[..|roster| - 1], roster[|roster| - 1];
      DistinctIds(init) && StudentIds(roster) == StudentIds(init) + {last.id} && last.id !in StudentIds(init)
  {
    var init, last := roster[..|roster| - 1], roster[|roster| - 1];
    forall i, j | 0 <= i < j < |init| ensures init[i].id != init[j].id {
      assert init[i] == roster[i] && init[j] == roster[j];
    }
    forall x | x in StudentIds(roster) ensures x in StudentIds(init) + {last.id} {
      var i :| 0 <= i < |roster| && roster[i].id == x;
      if i < |init| { assert init[i].id == x; }
    }
    forall x | x in StudentIds(init) ensures x in StudentIds(roster) {
      var i :| 0 <= i < |init| && init[i].id == x;
      assert roster[i].id == x;
    }
    forall i | 0 <= i < |init| ensures init[i].id != last.id {
      assert init[i] == roster[i];
    }
  }

  /** One more student adds exactly that student's rows of each status. */
  lemma RowsOfOneMoreStudent(t: Table, ids: set<int>, id: int, s: Status)
    requires id !in ids
    ensures |ByStatus(RowsOfStudents(t, ids + {id}), s)| == |ByStatus(RowsOfStudents(t, ids), s)| + |ByStatus(AttendancesOf(t, id), s)|
  {
    var all := ByStatus(RowsOfStudents(t, ids + {id}), s).Keys;
    var before := ByStatus(RowsOfStudents(t, ids), s).Keys;
    var mine := ByStatus(AttendancesOf(t, id), s).Keys;
    assert all == before + mine by {
      forall k | k in all ensures k in before + mine {
        assert t[k].student in ids || t[k].student == id;
      }
      forall k | k in before + mine ensures k in all {
        assert t[k].student in ids + {id};
      }
    }
    assert before * mine == {} by {
      forall k | k in before ensures k !in mine {
        assert t[k].student in ids;
      }
    }
    DisjointUnionSize(before, mine);
  }

  /**
   * The summary of the report for class c: total_students is the class's roster size, and each
   * status total is the number of the month's rows with that status belonging to the class's
   * students, so the three totals together count exactly those rows.
   */
  lemma ReportSummaryCountsClassRows(students: seq<Student>, t: Table, m: int, y: int, c: string)
    requires 1 <= m <= 12
    requires DistinctIds(students)
    ensures var summary := ReportOf(students, t, m, y, c).summary;
      var rows := RowsOfStudents(ForMonth(t, m, y), StudentIds(ByClass(students, c)));
      && summary.totalStudents == |ByClass(students, c)|
      && summary.totalPresent == |ByStatus(rows, Present)|
      && summary.totalAbsent == |ByStatus(rows, Absent)|
      && summary.totalLate == |ByStatus(rows, Late)|
      && summary.totalPresent + summary.totalAbsent + summary.totalLate == |rows|
  {
    var roster := ByClass(students, c);
    var totalDays := TotalDays(t, m, y);
    DistinctIdsOfFilter(students, (s: Student) => s.className == c);
    LinesMatchRoster(roster, t, m, y, totalDays);
    TotalOfCountsRows(roster, t, m, y, totalDays, Present);
    TotalOfCountsRows(roster, t, m, y, totalDays, Absent);
    TotalOfCountsRows(roster, t, m, y, totalDays, Late);
    StatusPartition(RowsOfStudents(ForMonth(t, m, y), StudentIds(roster)));
  }

  /** A class without students gives an empty roster and a zeroed summary. */
  lemma EmptyClassReport(students: seq<Student>, t: Table, m: int, y: int, c: string)
    requires 1 <= m <= 12
    requires forall i :: 0 <= i < |students| ==> students[i].className != c
    ensures ReportOf(students, t, m, y, c).students == []
    ensures ReportOf(students, t, m, y, c).summary == Summary(0, 0.0, 0, 0, 0)
  {
  }
}

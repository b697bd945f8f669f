/**
 * The attendance form of the `useAttendance` composable: the list of entries the page edits in
 * place, and the statistics and percentage it derives from a list.
 */
module UseAttendance {
  import opened Wrappers
  import opened Text
  import opened Rounding
  import opened Models

  /** One form entry; the status is whatever string the page set. */
  datatype FormEntry = FormEntry(studentId: int, status: string, note: string)

  // ---- the form and its in-place edits

  /** What `students.map(...)` builds: one entry per student, Present, with an empty note. */
  function InitialEntries(students: seq<Student>): (r: seq<FormEntry>)
    ensures |r| == |students|
    ensures forall i :: 0 <= i < |r| ==> r[i] == FormEntry(students[i].id, "Present", "")
  {
    if students == [] then []
    else InitialEntries(students[..|students| - 1]) + [FormEntry(students[|students| - 1].id, "Present", "")]
  }

  /** The index `find` stops at: the first entry for the student, if any. */
  function FirstIndex(entries: seq<FormEntry>, studentId: int): (r: Option<nat>)
    ensures r.Some? ==> (r.value < |entries| && entries[r.value].studentId == studentId
                         && forall j :: 0 <= j < r.value ==> entries[j].studentId != studentId)
    ensures r.None? ==> forall j :: 0 <= j < |entries| ==> entries[j].studentId != studentId
  {
    if entries == [] then None
    else if entries[0].studentId == studentId then Some(0)
    else
      var rest := FirstIndex(entries[1..], studentId);
      if rest.Some? then Some(rest.value + 1) else None
  }

  /** The list after `updateAttendanceStatus`: the found entry's status replaced. */
  function UpdateFirst(entries: seq<FormEntry>, studentId: int, status: string): seq<FormEntry>
  {
    var i := FirstIndex(entries, studentId);
    if i.Some? then entries[i.value := entries[i.value].(status := status)] else entries
  }

  /** Only the first entry of the student changes, and only in its status; with no entry nothing changes. */
  lemma UpdateFirstChangesOnlyFirstMatch(entries: seq<FormEntry>, studentId: int, status: string)
    ensures var r := UpdateFirst(entries, studentId, status);
      |r| == |entries|
      && (forall j :: 0 <= j < |entries| ==> r[j].studentId == entries[j].studentId && r[j].note == entries[j].note)
      && (forall j :: 0 <= j < |entries| && entries[j].studentId != studentId ==> r[j] == entries[j])
      && (FirstIndex(entries, studentId).None? ==> r == entries)
      && (FirstIndex(entries, studentId).Some? ==>
            r[FirstIndex(entries, studentId).value].status == status
            && forall j :: FirstIndex(entries, studentId).value < j < |entries| ==> r[j] == entries[j])
  {
  }

  /** The list after `markAllAs(status)`. */
  function MarkAll(entries: seq<FormEntry>, status: string): (r: seq<FormEntry>)
    ensures |r| == |entries|
    ensures forall i :: 0 <= i < |r| ==> r[i] == entries[i].(status := status)
  {
    if entries == [] then [] else MarkAll(entries[..|entries| - 1], status) + [entries[|entries| - 1].(status := status)]
  }

  /** Marking keeps the students and notes, sets every status, and marking twice is marking once. */
  lemma MarkAllProperties(entries: seq<FormEntry>, status: string)
    ensures forall i :: 0 <= i < |entries| ==>
      MarkAll(entries, status)[i].studentId == entries[i].studentId
      && MarkAll(entries, status)[i].note == entries[i].note
      && MarkAll(entries, status)[i].status == status
    ensures MarkAll(MarkAll(entries, status), status) == MarkAll(entries, status)
  {
  }

  /** The reactive `attendanceData` object; only its `attendances` list is edited here. */
  class AttendanceForm {
    var date: string
    var className: string
    var section: string
    var attendances: seq<FormEntry>

    constructor (today: string)
      ensures date == today && className == "" && section == "" && attendances == []
    {
      date := today;
      className := "";
      section := "";
      attendances := [];
    }

    /** `initializeAttendanceData(students)`: replace the list. */
    method InitializeAttendanceData(students: seq<Student>)
      modifies this`attendances
      ensures attendances == InitialEntries(students)
    {
      attendances := InitialEntries(students);
    }

    /** `updateAttendanceStatus(studentId, status)`: find the first entry of the student and set its status. */
    method UpdateAttendanceStatus(studentId: int, status: string)
      modifies this`attendances
      ensures attendances == UpdateFirst(old(attendances), studentId, status)
    {
      var i := 0;
      while i < |attendances| && attendances[i].studentId != studentId
        invariant 0 <= i <= |attendances|
        invariant forall j :: 0 <= j < i ==> attendances[j].studentId != studentId
      {
        i := i + 1;
      }
      if i < |attendances| {
        FirstIndexIs(attendances, studentId, i);
        attendances := attendances[i := attendances[i].(status := status)];
      } else {
        FirstIndexNone(attendances, studentId);
      }
    }

    /** `markAllAs(status)`: set the status of every entry, one by one. */
    method MarkAllAs(status: string)
      modifies this`attendances
      ensures attendances == MarkAll(old(attendances), status)
    {
      ghost var before := attendances;
      for i := 0 to |attendances|
        invariant |attendances| == |before|
        invariant forall j :: 0 <= j < i ==> attendances[j] == before[j].(status := status)
        invariant forall j :: i <= j < |attendances| ==> attendances[j] == before[j]
      {
        attendances := attendances[i := attendances[i].(status := status)];
      }
    }
  }

  lemma {:induction false} FirstIndexIs(entries: seq<FormEntry>, studentId: int, i: nat)
    requires i < |entries| && entries[i].studentId == studentId
    requires forall j :: 0 <= j < i ==> entries[j].studentId != studentId
    ensures FirstIndex(entries, studentId) == Some(i)
  {
    if i > 0 {
      FirstIndexIs(entries[1..], studentId, i - 1);
    }
  }

  lemma FirstIndexNone(entries: seq<FormEntry>, studentId: int)
    requires forall j :: 0 <= j < |entries| ==> entries[j].studentId != studentId
    ensures FirstIndex(entries, studentId).None?
  {
  }

  // ---- percentage and statistics

  /** `x.toFixed(2)` for a non-negative x: the rounded value with exactly two decimals. */
  function ToFixed2(x: real): (s: string)
    requires x >= 0.0
    ensures |s| >= 4 && s[|s| - 3] == '.'
  {
    var c := Cents(x);
    NatToString(c / 100) + "." + FixedDigits(c % 100, 2)
  }

  /** s is a decimal numeral with two digits after its point, whose value is v. */
  predicate ReadsBackAs(s: string, v: real)
  {
    |s| >= 4 && s[|s| - 3] == '.' && AllDigits(s[..|s| - 3]) && AllDigits(s[|s| - 2..])
    && DigitsValue(s[..|s| - 3]) as real + DigitsValue(s[|s| - 2..]) as real / 100.0 == v
  }

  /** The text reads back as the value rounded to hundredths. */
  lemma ToFixed2ReadsBack(x: real)
    requires x >= 0.0
    ensures ReadsBackAs(ToFixed2(x), RoundTo2(x))
  {
    var c := Cents(x);
    var whole, fraction := NatToString(c / 100), FixedDigits(c % 100, 2);
    var s := ToFixed2(x);
    assert s == whole + "." + fraction;
    assert s[..|s| - 3] == whole;
    assert s[|s| - 2..] == fraction;
    NatToStringRoundTrip(c / 100);
    FixedDigitsRoundTrip(c % 100, 2);
    CentsSplit(c);
    assert RoundTo2(x) == c as real / 100.0;
  }

  /** Whole units and hundredths of a count of cents add back up to it. */
  lemma CentsSplit(c: nat)
    ensures (c / 100) as real + (c % 100) as real / 100.0 == c as real / 100.0
  {
    var q, r := c / 100, c % 100;
    assert c == q * 100 + r;
    assert c as real == q as real * 100.0 + r as real;
  }

  /** The text of the share part / total, times 100, reads back as the rounded percentage. */
  lemma PercentTextReadsBack(part: nat, total: nat)
    requires total > 0
    ensures ReadsBackAs(ToFixed2(part as real / total as real * 100.0), Percentage(part, total))
  {
    ToFixed2ReadsBack(part as real / total as real * 100.0);
  }

  /** The percentage is the number 0 for an empty list, else a `toFixed(2)` string. */
  datatype JsPercent = Zero | Fixed(text: string)

  function CountStatusText(entries: seq<FormEntry>, status: string): (n: nat)
    ensures n <= |entries|
  {
    if entries == [] then 0
    else CountStatusText(entries[..|entries| - 1], status) + (if entries[|entries| - 1].status == status then 1 else 0)
  }

  /** `presentCount / attendances.length * 100`, before it is rounded to text. */
  function PresentShare(entries: seq<FormEntry>): (x: real)
    requires entries != []
    ensures 0.0 <= x
  {
    CountStatusText(entries, "Present") as real / |entries| as real * 100.0
  }

  /** `calculatePercentage(attendances)`: 0 for null or empty, else the Present share times 100 to 2 decimals. */
  function CalculatePercentage(attendances: Option<seq<FormEntry>>): (p: JsPercent)
    ensures attendances.None? || attendances.value == [] <==> p == Zero
    ensures attendances.Some? && attendances.value != [] ==>
      p.Fixed? && ReadsBackAs(p.text, Percentage(CountStatusText(attendances.value, "Present"), |attendances.value|))
  {
    if attendances.None? || |attendances.value| == 0 then Zero
    else
      var entries := attendances.value;
      PercentTextReadsBack(CountStatusText(entries, "Present"), |entries|);
      Fixed(ToFixed2(PresentShare(entries)))
  }

  datatype FormStats = FormStats(present: nat, absent: nat, late: nat, total: nat, percentage: JsPercent)

  /** `getCurrentStats`: all zeros for an empty list, else the counts, the length and the percentage. */
  function CurrentStats(entries: seq<FormEntry>): (s: FormStats)
    ensures entries == [] ==> s == FormStats(0, 0, 0, 0, Zero)
    ensures s.total == |entries|
    ensures s.present == CountStatusText(entries, "Present") && s.absent == CountStatusText(entries, "Absent")
    ensures s.late == CountStatusText(entries, "Late")
    ensures entries != [] ==> s.percentage.Fixed? && ReadsBackAs(s.percentage.text, Percentage(s.present, s.total))
  {
    if entries == [] then FormStats(0, 0, 0, 0, Zero)
    else
      var present := CountStatusText(entries, "Present");
      PercentTextReadsBack(present, |entries|);
      FormStats(present, CountStatusText(entries, "Absent"), CountStatusText(entries, "Late"), |entries|,
                Fixed(ToFixed2(PresentShare(entries))))
  }

  /** The statistics card and `calculatePercentage` agree on the percentage of the same list. */
  lemma StatsAgreeWithPercentage(entries: seq<FormEntry>)
    ensures CurrentStats(entries).percentage == CalculatePercentage(Some(entries))
  {
  }

  predicate KnownStatus(e: FormEntry)
  {
    e.status == "Present" || e.status == "Absent" || e.status == "Late"
  }

  /** When every status is one of the three, the counts add up to the total. */
  lemma {:induction false} CountsAddUp(entries: seq<FormEntry>)
    requires forall i :: 0 <= i < |entries| ==> KnownStatus(entries[i])
    ensures CountStatusText(entries, "Present") + CountStatusText(entries, "Absent")
          + CountStatusText(entries, "Late") == |entries|
  {
    if entries != [] {
      CountsAddUp(entries[..|entries| - 1]);
    }
  }

  /** A freshly initialised form shows every student present: 100.00. */
  lemma {:induction false} InitialFormAllPresent(students: seq<Student>)
    requires students != []
    ensures CurrentStats(InitialEntries(students)).present == |students|
    ensures CurrentStats(InitialEntries(students)).percentage == Fixed("100.00")
  {
    AllPresentCount(InitialEntries(students));
    var n := |students|;
    assert n as real / n as real * 100.0 == 100.0;
    HundredPercentText();
  }

  lemma HundredPercentText()
    ensures ToFixed2(100.0) == "100.00"
  {
    assert Cents(100.0) == 10000;
    assert NatToString(100) == "100";
    assert FixedDigits(0, 2) == "00";
  }

  lemma {:induction false} AllPresentCount(entries: seq<FormEntry>)
    requires forall i :: 0 <= i < |entries| ==> entries[i].status == "Present"
    ensures CountStatusText(entries, "Present") == |entries|
  {
    if entries != [] {
      AllPresentCount(entries[..|entries| - 1]);
    }
  }
}

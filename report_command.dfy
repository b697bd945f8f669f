/**
 * The `attendance:generate-report {month} {class} {--year=}` console command: argument checks,
 * the report file's name and its text, and the exit code of each branch.
 */
module ReportCommand {
  import opened Wrappers
  import opened Text
  import opened Calendar
  import opened Models
  import opened Schema
  import opened MonthlyReport
  import opened AttendanceService

  // ---- numeric arguments

  /** Index of the first '.' in s, or |s| when there is none. */
  function DotIndex(s: string): (i: nat)
    ensures i <= |s|
    ensures i < |s| ==> s[i] == '.'
    ensures forall j :: 0 <= j < i ==> s[j] != '.'
  {
    if s == [] then 0 else if s[0] == '.' then 0 else 1 + DotIndex(s[1..])
  }

  /**
   * PHP's `is_numeric` and numeric value for plain decimal strings: an optional sign, then digits
   * with at most one '.', and at least one digit. Anything else is not numeric.
   */
  function NumericValue(s: string): (v: Option<real>)
    ensures v.Some? ==> |s| >= 1
  {
    var negative := |s| > 0 && s[0] == '-';
    var body := if |s| > 0 && (s[0] == '+' || s[0] == '-') then s[1..] else s;
    var dot := DotIndex(body);
    var whole := body[..dot];
    var fraction := if dot < |body| then body[dot + 1..] else [];
    if AllDigits(whole) && AllDigits(fraction) && |whole| + |fraction| >= 1 then
      var magnitude := DecimalValue(whole, fraction);
      Some(if negative then -magnitude else magnitude)
    else None
  }

  /** The value of `whole.fraction` written in decimal digits. */
  function DecimalValue(whole: string, fraction: string): (v: real)
    requires AllDigits(whole) && AllDigits(fraction)
    ensures DigitsValue(whole) as real <= v < DigitsValue(whole) as real + 1.0
    ensures fraction == [] ==> v == DigitsValue(whole) as real
  {
    DigitsBelowPow10(fraction);
    ShareBelowOne(DigitsValue(fraction) as real, Pow10(|fraction|) as real);
    DigitsValue(whole) as real + DigitsValue(fraction) as real / Pow10(|fraction|) as real
  }

  lemma ShareBelowOne(a: real, b: real)
    requires 0.0 <= a < b
    ensures 0.0 <= a / b < 1.0
  {
    assert a / b * b == a;
  }

  /** The month argument, when numeric and between 1 and 12, truncated to an integer. */
  function ValidMonth(arg: string): (m: Option<int>)
    ensures m.Some? <==> NumericValue(arg).Some? && 1.0 <= NumericValue(arg).value <= 12.0
    ensures m.Some? ==> 1 <= m.value <= 12 && m.value == NumericValue(arg).value.Floor
  {
    var v := NumericValue(arg);
    if v.Some? && 1.0 <= v.value <= 12.0 then Some(v.value.Floor) else None
  }

  /** The `--year` option, or the current year when absent, when numeric and between 2000 and 2100. */
  function ValidYear(option: Option<string>, currentYear: int): (y: Option<int>)
    ensures y.Some? ==> 2000 <= y.value <= 2100
    ensures option.None? ==> (y.Some? <==> 2000 <= currentYear <= 2100)
    ensures option.None? && y.Some? ==> y.value == currentYear
    ensures option.Some? ==>
      (y.Some? <==> NumericValue(option.value).Some? && 2000.0 <= NumericValue(option.value).value <= 2100.0)
    ensures option.Some? && y.Some? ==> y.value == NumericValue(option.value).value.Floor
  {
    if option.None? then
      if 2000 <= currentYear <= 2100 then Some(currentYear) else None
    else
      var v := NumericValue(option.value);
      if v.Some? && 2000.0 <= v.value <= 2100.0 then Some(v.value.Floor) else None
  }

  /** A plain run of digits is numeric with its decimal value. */
  lemma DigitsAreNumeric(s: string)
    requires |s| >= 1 && AllDigits(s)
    ensures NumericValue(s) == Some(DigitsValue(s) as real)
  {
    assert IsDigit(s[0]);
    var d := DotIndex(s);
    if d < |s| {
      assert false;
    }
    assert s[..d] == s;
  }

  lemma MonthInRangeExamples()
    ensures ValidMonth("3") == Some(3)
    ensures ValidMonth("12") == Some(12)
  {
    DigitsAreNumeric("3");
    DigitsAreNumeric("12");
    assert "3"[..0] == [];
    assert "12"[..1] == "1" && "1"[..0] == [];
  }

  lemma MonthOutOfRangeExamples()
    ensures ValidMonth("13").None? && ValidMonth("0").None?
  {
    DigitsAreNumeric("13");
    DigitsAreNumeric("0");
    assert "0"[..0] == [];
    assert "13"[..1] == "1" && "1"[..0] == [];
  }

  lemma NonNumericMonthExamples()
    ensures ValidMonth("March").None? && ValidMonth("").None?
  {
    var m := "March";
    assert m[0] != '.';
    assert DotIndex(m) >= 1;
    assert !IsDigit(m[..DotIndex(m)][0]);
  }

  // ---- file name

  predicate FilenameChar(c: char)
  {
    'A' <= c <= 'Z' || 'a' <= c <= 'z' || '0' <= c <= '9' || c == '-'
  }

  /** `preg_replace('/[^A-Za-z0-9\-]/', '_', class)`, character by character. */
  function SanitizeClass(c: string): (r: string)
    ensures |r| == |c|
    ensures forall i :: 0 <= i < |c| ==> r[i] == if FilenameChar(c[i]) then c[i] else '_'
  {
    if c == [] then [] else SanitizeClass(c[..|c| - 1]) + [if FilenameChar(c[|c| - 1]) then c[|c| - 1] else '_']
  }

  /** Sanitising again changes nothing, and no path separator or dot survives. */
  lemma SanitizeIdempotent(c: string)
    ensures SanitizeClass(SanitizeClass(c)) == SanitizeClass(c)
    ensures forall i :: 0 <= i < |c| ==> SanitizeClass(c)[i] != '/' && SanitizeClass(c)[i] != '.'
  {
  }

  /** A class name that is already safe is kept as it is. */
  lemma SanitizeKeepsSafeNames(c: string)
    requires forall i :: 0 <= i < |c| ==> FilenameChar(c[i])
    ensures SanitizeClass(c) == c
  {
  }

  /** `"attendance-{$sanitizedClass}-{$month}-{$year}.txt"`. */
  function Filename(c: string, month: int, year: int): string
  {
    "attendance-" + SanitizeClass(c) + "-" + PeriodSuffix(month, year)
  }

  function PeriodSuffix(month: int, year: int): string
  {
    IntToString(month) + "-" + IntToString(year) + ".txt"
  }

  /** The file name starts with `attendance-` followed by the sanitised class and ends with `.txt`. */
  lemma FilenameShape(c: string, month: int, year: int)
    ensures var f := Filename(c, month, year);
      f[..11] == "attendance-" && f[11..11 + |c|] == SanitizeClass(c) && f[11 + |c|] == '-'
      && f[|f| - 4..] == ".txt"
  {
    var f := Filename(c, month, year);
    var named := "attendance-" + SanitizeClass(c) + "-";
    var suffix := PeriodSuffix(month, year);
    assert f == named + suffix;
    assert f[..|named|] == named;
    assert f[|f| - 4..] == suffix[|suffix| - 4..];
    assert named[..11] == "attendance-" && named[11..11 + |c|] == SanitizeClass(c);
  }

  /** Distinct classes can share a file: "10/A" and "10 A" both become `10_A`. */
  lemma SanitizeCollision()
    ensures SanitizeClass("10/A") == SanitizeClass("10 A") == "10_A"
  {
    assert "10/A"[..3] == "10/" && "10/"[..2] == "10" && "10"[..1] == "1" && "1"[..0] == [];
    assert "10 A"[..3] == "10 " && "10 "[..2] == "10";
  }

  // ---- report text

  /** PHP's string form of a float that is a whole number of hundredths: no trailing zeros, no dot for integers. */
  function CentsText(c: int): (s: string)
  {
    var sign := if c < 0 then "-" else "";
    var m := if c < 0 then -c else c;
    var whole := NatToString(m / 100);
    var hundredths := m % 100;
    sign + whole + (if hundredths == 0 then ""
                    else if hundredths % 10 == 0 then "." + [DigitChar(hundredths / 10)]
                    else "." + FixedDigits(hundredths, 2))
  }

  function PercentText(p: real): string
  {
    CentsText((p * 100.0).Floor)
  }

  lemma PercentTextExamples()
    ensures PercentText(50.0) == "50"
    ensures PercentText(66.67) == "66.67"
    ensures PercentText(80.5) == "80.5"
    ensures PercentText(0.0) == "0"
  {
    assert (50.0 * 100.0).Floor == 5000 && (66.67 * 100.0).Floor == 6667;
    assert (80.5 * 100.0).Floor == 8050 && (0.0 * 100.0).Floor == 0;
    assert NatToString(50) == "50" && NatToString(66) == "66" && NatToString(80) == "80";
    assert FixedDigits(67, 2) == "67";
  }

  /** `sprintf("%-15s %-30s %-12s %-10s %-10s %-10s %-12s\n", ...)`. */
  function Columns(a: string, b: string, c: string, d: string, e: string, f: string, g: string): string
  {
    ColumnFields(a, b, c, d, e, f, g) + "\n"
  }

  function ColumnFields(a: string, b: string, c: string, d: string, e: string, f: string, g: string): string
  {
    PadRight(a, 15) + " " + PadRight(b, 30) + " " + PadRight(c, 12) + " " + PadRight(d, 10) + " "
      + PadRight(e, 10) + " " + PadRight(f, 10) + " " + PadRight(g, 12)
  }

  function StudentRow(l: StudentLine): string
  {
    Columns(l.studentId, Take(l.name, 30), NatToString(l.totalDays), NatToString(l.present),
            NatToString(l.absent), NatToString(l.late), PercentText(l.percentage) + "%")
  }

  function Header(r: Report, now: string): string
  {
    "ATTENDANCE REPORT\n" + Repeat('=', 100) + "\n"
      + "Class: " + r.className + "\n"
      + "Month: " + IntToString(r.month) + "/" + IntToString(r.year) + "\n"
      + "Generated: " + now + "\n"
      + Repeat('=', 100) + "\n\n"
      + Columns("Student ID", "Name", "Total Days", "Present", "Absent", "Late", "Percentage")
      + Repeat('-', 100) + "\n"
  }

  function Rows(lines: seq<StudentLine>): string
  {
    if lines == [] then "" else Rows(lines[..|lines| - 1]) + StudentRow(lines[|lines| - 1])
  }

  function SummaryBlock(s: Summary): string
  {
    "\n" + Repeat('=', 100) + "\n"
      + "SUMMARY STATISTICS\n"
      + Repeat('-', 100) + "\n"
      + "Total Students: " + NatToString(s.totalStudents) + "\n"
      + "Average Attendance: " + PercentText(s.averagePercentage) + "%\n"
      + "Total Present: " + NatToString(s.totalPresent) + "\n"
      + "Total Absent: " + NatToString(s.totalAbsent) + "\n"
      + "Total Late: " + NatToString(s.totalLate) + "\n"
  }

  /** The text `buildReportContent` writes for a report; `now` is the "Generated:" timestamp. */
  function ReportContent(r: Report, now: string): string
  {
    Header(r, now) + Rows(r.students) + SummaryBlock(r.summary)
  }

  lemma ConcatAssoc(a: string, b: string, c: string)
    ensures (a + b) + c == a + (b + c)
  {
  }

  lemma RowsStep(lines: seq<StudentLine>, i: nat)
    requires i < |lines|
    ensures Rows(lines[..i + 1]) == Rows(lines[..i]) + StudentRow(lines[i])
  {
    assert lines[..i + 1][..i] == lines[..i];
  }

  /** `buildReportContent`: the header, then one row appended per student, then the summary. */
  method BuildReportContent(r: Report, now: string) returns (content: string)
    ensures content == ReportContent(r, now)
  {
    var head := Header(r, now);
    content := head;
    for i := 0 to |r.students|
      invariant content == head + Rows(r.students[..i])
    {
      RowsStep(r.students, i);
      var row := StudentRow(r.students[i]);
      ConcatAssoc(head, Rows(r.students[..i]), row);
      content := content + row;
    }
    assert r.students[..|r.students|] == r.students;
    content := content + SummaryBlock(r.summary);
  }

  /** The number of occurrences of c in s. */
  function CountChar(s: string, c: char): nat
  {
    if s == [] then 0 else CountChar(s[..|s| - 1], c) + (if s[|s| - 1] == c then 1 else 0)
  }

  lemma {:induction false} CountCharAppend(a: string, b: string, c: char)
    ensures CountChar(a + b, c) == CountChar(a, c) + CountChar(b, c)
  {
    if b != [] {
      assert (a + b)[..|a + b| - 1] == a + b[..|b| - 1];
      CountCharAppend(a, b[..|b| - 1], c);
    } else {
      assert a + b == a;
    }
  }

  predicate NoNewline(s: string)
  {
    forall i :: 0 <= i < |s| ==> s[i] != '\n'
  }

  lemma {:induction false} NoNewlineCount(s: string)
    requires NoNewline(s)
    ensures CountChar(s, '\n') == 0
  {
    if s != [] {
      NoNewlineCount(s[..|s| - 1]);
    }
  }

  lemma NoNewlineConcat(a: string, b: string)
    requires NoNewline(a) && NoNewline(b)
    ensures NoNewline(a + b)
  {
  }

  lemma NoNewlinePad(s: string, w: nat)
    requires NoNewline(s)
    ensures NoNewline(PadRight(s, w))
  {
  }

  lemma DigitsNoNewline(s: string)
    requires AllDigits(s)
    ensures NoNewline(s)
  {
  }

  lemma PercentTextNoNewline(p: real)
    ensures NoNewline(PercentText(p) + "%")
  {
    var c := (p * 100.0).Floor;
    var m := if c < 0 then -c else c;
    DigitsNoNewline(NatToString(m / 100));
    DigitsNoNewline(FixedDigits(m % 100, 2));
  }

  lemma ColumnFieldsNoNewline(a: string, b: string, c: string, d: string, e: string, f: string, g: string)
    requires NoNewline(a) && NoNewline(b) && NoNewline(c) && NoNewline(d)
    requires NoNewline(e) && NoNewline(f) && NoNewline(g)
    ensures NoNewline(ColumnFields(a, b, c, d, e, f, g))
  {
    NoNewlinePad(a, 15);
    NoNewlinePad(b, 30);
    NoNewlinePad(c, 12);
    NoNewlinePad(d, 10);
    NoNewlinePad(e, 10);
    NoNewlinePad(f, 10);
    NoNewlinePad(g, 12);
    var x := PadRight(a, 15) + " ";
    x := x + PadRight(b, 30);
    x := x + " ";
    x := x + PadRight(c, 12);
    x := x + " ";
    x := x + PadRight(d, 10);
    x := x + " ";
    x := x + PadRight(e, 10);
    x := x + " ";
    x := x + PadRight(f, 10);
    x := x + " ";
    x := x + PadRight(g, 12);
  }

  /** A student row is one line: its only newline is its last character. */
  lemma StudentRowOneLine(l: StudentLine)
    requires NoNewline(l.studentId) && NoNewline(l.name)
    ensures CountChar(StudentRow(l), '\n') == 1
  {
    PercentTextNoNewline(l.percentage);
    DigitsNoNewline(NatToString(l.totalDays));
    DigitsNoNewline(NatToString(l.present));
    DigitsNoNewline(NatToString(l.absent));
    DigitsNoNewline(NatToString(l.late));
    var body := ColumnFields(l.studentId, Take(l.name, 30), NatToString(l.totalDays), NatToString(l.present),
                             NatToString(l.absent), NatToString(l.late), PercentText(l.percentage) + "%");
    ColumnFieldsNoNewline(l.studentId, Take(l.name, 30), NatToString(l.totalDays), NatToString(l.present),
                          NatToString(l.absent), NatToString(l.late), PercentText(l.percentage) + "%");
    NoNewlineCount(body);
    CountCharAppend(body, "\n", '\n');
    assert "\n"[..0] == [];
  }

  /** The rows section holds exactly one line per student. */
  lemma {:induction false} RowsOneLinePerStudent(lines: seq<StudentLine>)
    requires forall i :: 0 <= i < |lines| ==> NoNewline(lines[i].studentId) && NoNewline(lines[i].name)
    ensures CountChar(Rows(lines), '\n') == |lines|
  {
    if lines != [] {
      RowsOneLinePerStudent(lines[..|lines| - 1]);
      StudentRowOneLine(lines[|lines| - 1]);
      CountCharAppend(Rows(lines[..|lines| - 1]), StudentRow(lines[|lines| - 1]), '\n');
    }
  }

  /** A short student id keeps the columns aligned: the name field is the first 30 characters, padded. */
  lemma StudentRowNameField(l: StudentLine)
    requires |l.studentId| <= 15
    ensures StudentRow(l)[..15] == PadRight(l.studentId, 15)
    ensures StudentRow(l)[16..46] == PadRight(Take(l.name, 30), 30)
    ensures Take(l.name, 30) == l.name[..if |l.name| <= 30 then |l.name| else 30]
  {
    var fields := ColumnFields(l.studentId, Take(l.name, 30), NatToString(l.totalDays), NatToString(l.present),
                               NatToString(l.absent), NatToString(l.late), PercentText(l.percentage) + "%");
    LeadingFields(l.studentId, Take(l.name, 30), NatToString(l.totalDays), NatToString(l.present),
                  NatToString(l.absent), NatToString(l.late), PercentText(l.percentage) + "%");
    assert StudentRow(l) == fields + "\n";
  }

  lemma KeepsLead(x: string, y: string, pa: string, pb: string)
    requires |x| >= 46 && x[..15] == pa && x[16..46] == pb
    ensures |x + y| >= 46 && (x + y)[..15] == pa && (x + y)[16..46] == pb
  {
    assert (x + y)[..46] == x[..46];
  }

  /** The first two columns sit at fixed offsets: characters 0..14 and 16..45. */
  lemma LeadingFields(a: string, b: string, c: string, d: string, e: string, f: string, g: string)
    requires |a| <= 15 && |b| <= 30
    ensures |ColumnFields(a, b, c, d, e, f, g)| >= 46
    ensures ColumnFields(a, b, c, d, e, f, g)[..15] == PadRight(a, 15)
    ensures ColumnFields(a, b, c, d, e, f, g)[16..46] == PadRight(b, 30)
  {
    var pa, pb := PadRight(a, 15), PadRight(b, 30);
    var x := pa + " " + pb;
    assert x[..15] == pa && x[16..46] == pb;
    KeepsLead(x, " ", pa, pb);
    x := x + " ";
    KeepsLead(x, PadRight(c, 12), pa, pb);
    x := x + PadRight(c, 12);
    KeepsLead(x, " ", pa, pb);
    x := x + " ";
    KeepsLead(x, PadRight(d, 10), pa, pb);
    x := x + PadRight(d, 10);
    KeepsLead(x, " ", pa, pb);
    x := x + " ";
    KeepsLead(x, PadRight(e, 10), pa, pb);
    x := x + PadRight(e, 10);
    KeepsLead(x, " ", pa, pb);
    x := x + " ";
    KeepsLead(x, PadRight(f, 10), pa, pb);
    x := x + PadRight(f, 10);
    KeepsLead(x, " ", pa, pb);
    x := x + " ";
    KeepsLead(x, PadRight(g, 12), pa, pb);
    x := x + PadRight(g, 12);
  }

  // ---- handle

  datatype ExitCode = Success | Failure

  datatype SavedFile = SavedFile(path: string, content: string)

  /**
   * What `Storage::put` does with the report: write it, throw (a disk configured to throw on
   * errors), or return false (the default configuration), which `saveReport` does not check.
   */
  datatype StorageOutcome = PutWrites | PutThrows | PutReturnsFalse

  /**
   * `handle`: reject a bad month, then a bad year; generate the report; an empty roster ends
   * successfully without a file; otherwise the report is saved under `reports/`. An exception
   * from the service (`serviceError`) or a storage write that throws ends with FAILURE; a write
   * that only returns false is ignored, so the command still ends with SUCCESS and nothing is
   * saved. The console table of `displayReport` is not modelled.
   */
  method Handle(db: Database, monthArg: string, className: string, yearOption: Option<string>, currentYear: int,
                now: string, serviceError: Option<string>, storage: StorageOutcome)
    returns (exit: ExitCode, saved: Option<SavedFile>)
    ensures ValidMonth(monthArg).None? ==> exit == Failure && saved.None?
    ensures ValidYear(yearOption, currentYear).None? ==> exit == Failure && saved.None?
    ensures ValidMonth(monthArg).Some? && ValidYear(yearOption, currentYear).Some? ==>
      var m, y := ValidMonth(monthArg).value, ValidYear(yearOption, currentYear).value;
      var report := ReportOf(db.students, db.attendances, m, y, className);
      if serviceError.Some? then exit == Failure && saved.None?
      else if report.students == [] then exit == Success && saved.None?
      else if storage == PutThrows then exit == Failure && saved.None?
      else if storage == PutReturnsFalse then exit == Success && saved.None?
      else (exit == Success
            && saved == Some(SavedFile("reports/" + Filename(className, m, y), ReportContent(report, now))))
  {
    var month := ValidMonth(monthArg);
    if month.None? {
      return Failure, None;
    }
    var year := ValidYear(yearOption, currentYear);
    if year.None? {
      return Failure, None;
    }
    if serviceError.Some? {
      return Failure, None;
    }
    var report := GenerateMonthlyReport(db, month.value, year.value, className);
    if report.students == [] {
      return Success, None;
    }
    var content := BuildReportContent(report, now);
    if storage == PutThrows {
      return Failure, None;
    }
    if storage == PutReturnsFalse {
      return Success, None;
    }
    exit, saved := Success, Some(SavedFile("reports/" + Filename(className, month.value, year.value), content));
  }

  /** The command saves nothing exactly when the class has no students (given valid arguments and no exception). */
  lemma EmptyRosterSavesNothing(students: seq<Student>, t: Table, m: int, y: int, c: string)
    requires 1 <= m <= 12
    ensures ReportOf(students, t, m, y, c).students == [] <==> ByClass(students, c) == []
  {
    LinesMatchRoster(ByClass(students, c), t, m, y, TotalDays(t, m, y));
  }
}

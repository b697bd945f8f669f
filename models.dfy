/**
 * The Eloquent models Attendance and Student: their attributes, their mass-assignable
 * fields, and their query scopes read as filters over the rows they select.
 */
module Models {
  import opened Calendar

  /** The `status` column, an enum of three values. */
  datatype Status = Present | Absent | Late

  function StatusName(s: Status): string
  {
    match s
    case Present => "Present"
    case Absent => "Absent"
    case Late => "Late"
  }

  /** Request validation `Rule::in(['Present', 'Absent', 'Late'])`, read as a status. */
  function ParseStatus(s: string): (r: Wrappers.Option<Status>)
    ensures r.Some? <==> (s == "Present" || s == "Absent" || s == "Late")
    ensures r.Some? ==> StatusName(r.value) == s
  {
    if s == "Present" then Wrappers.Some(Present)
    else if s == "Absent" then Wrappers.Some(Absent)
    else if s == "Late" then Wrappers.Some(Late)
    else Wrappers.None
  }

  lemma StatusNameRoundTrip(s: Status)
    ensures ParseStatus(StatusName(s)) == Wrappers.Some(s)
  {
  }

  /** A row of `students`: internal id, business key `student_id`, name, class, section, photo path. */
  datatype Student = Student(id: int, name: string, studentId: string, className: string,
                             section: string, photo: Wrappers.Option<string>)

  /** The acting user: id and display name. */
  datatype User = User(id: int, name: string)

  /** The unique key of the attendance table: (student_id, date). */
  datatype Key = Key(student: int, date: Date)

  /** A row of `attendances`; `note` may be null. */
  datatype Attendance = Attendance(student: int, date: Date, status: Status,
                                   note: Wrappers.Option<string>, recordedBy: int)

  function KeyOf(a: Attendance): Key { Key(a.student, a.date) }

  /** The attendance table, one row per (student_id, date). */
  type Table = map<Key, Attendance>

  /** Every row sits under its own (student_id, date): together with the map this is the unique index. */
  predicate KeysConsistent(t: Table)
  {
    forall k :: k in t ==> KeyOf(t[k]) == k
  }

  /** The order-preserving filter of a collection: keeps exactly the elements satisfying p. */
  function Filter<T(!new)>(s: seq<T>, p: T -> bool): (r: seq<T>)
    ensures |r| <= |s|
    ensures forall x :: multiset(r)[x] == if p(x) then multiset(s)[x] else 0
    ensures forall x :: x in r <==> x in s && p(x)
  {
    if s == [] then []
    else
      var init := s[..|s| - 1];
      var last := s[|s| - 1];
      assert s == init + [last];
      Filter(init, p) + (if p(last) then [last] else [])
  }

  // ---- Student scopes and relation

  /** `scopeByClass`: the students whose class equals c. */
  function ByClass(students: seq<Student>, c: string): (r: seq<Student>)
    ensures forall s :: s in r <==> s in students && s.className == c
    ensures forall s :: multiset(r)[s] == if s.className == c then multiset(students)[s] else 0
  {
    Filter(students, (s: Student) => s.className == c)
  }

  /** `scopeBySection`: the students whose section equals c. */
  function BySection(students: seq<Student>, c: string): (r: seq<Student>)
    ensures forall s :: s in r <==> s in students && s.section == c
    ensures forall s :: multiset(r)[s] == if s.section == c then multiset(students)[s] else 0
  {
    Filter(students, (s: Student) => s.section == c)
  }

  /** The `attendances` relation of a student: the rows whose student_id is the student's id. */
  function AttendancesOf(t: Table, studentId: int): (r: Table)
    ensures forall k :: k in r <==> k in t && t[k].student == studentId
    ensures forall k :: k in r ==> r[k] == t[k]
  {
    map k | k in t && t[k].student == studentId :: t[k]
  }

  // ---- Attendance scopes

  /** `scopeForDate`: the rows whose calendar date is d. */
  function ForDate(t: Table, d: Date): (r: Table)
    ensures forall k :: k in r <==> k in t && t[k].date == d
    ensures forall k :: k in r ==> r[k] == t[k]
  {
    map k | k in t && t[k].date == d :: t[k]
  }

  /** `scopeForMonth`: the rows whose date lies in month m of year y. */
  function ForMonth(t: Table, m: int, y: int): (r: Table)
    ensures forall k :: k in r <==> k in t && t[k].date.month == m && t[k].date.year == y
    ensures forall k :: k in r ==> r[k] == t[k]
  {
    map k | k in t && t[k].date.month == m && t[k].date.year == y :: t[k]
  }

  /** `scopeByStatus`: the rows with status s. */
  function ByStatus(t: Table, s: Status): (r: Table)
    ensures forall k :: k in r <==> k in t && t[k].status == s
    ensures forall k :: k in r ==> r[k] == t[k]
  {
    map k | k in t && t[k].status == s :: t[k]
  }

  /** The distinct dates of a set of rows (`distinct('date')`). */
  function DatesOf(t: Table): set<Date>
  {
    set k | k in t :: t[k].date
  }

  /** The three status scopes split any set of rows: their sizes add up to the whole. */
  lemma StatusPartition(t: Table)
    ensures |ByStatus(t, Present)| + |ByStatus(t, Absent)| + |ByStatus(t, Late)| == |t|
  {
    var p, a, l := ByStatus(t, Present).Keys, ByStatus(t, Absent).Keys, ByStatus(t, Late).Keys;
    assert p * a == {};
    assert (p + a) * l == {};
    assert t.Keys == p + a + l by {
      forall k | k in t.Keys ensures k in p + a + l {
        match t[k].status
        case Present => assert k in p;
        case Absent => assert k in a;
        case Late => assert k in l;
      }
    }
    DisjointUnionSize(p, a);
    DisjointUnionSize(p + a, l);
  }

  lemma DisjointUnionSize<T>(x: set<T>, y: set<T>)
    requires x * y == {}
    ensures |x + y| == |x| + |y|
  {
  }

  /** A day lies inside its month: filtering the month first changes nothing. */
  lemma ForDateWithinMonth(t: Table, d: Date)
    ensures ForDate(ForMonth(t, d.month, d.year), d) == ForDate(t, d)
  {
  }

  /**
   * The unique key bounds a student's rows: within any set of rows, one student's rows
   * have pairwise different dates, so there are no more of them than distinct dates.
   */
  lemma StudentRowsAtMostDates(t: Table, studentId: int)
    requires KeysConsistent(t)
    ensures |AttendancesOf(t, studentId)| <= |DatesOf(t)|
  {
    var mine := AttendancesOf(t, studentId);
    InjectiveOnDates(mine, t);
  }

  lemma {:induction false} InjectiveOnDates(mine: Table, t: Table)
    requires KeysConsistent(t)
    requires forall k :: k in mine ==> k in t && mine[k] == t[k]
    requires forall k1, k2 :: k1 in mine && k2 in mine && mine[k1].date == mine[k2].date ==> k1 == k2
    ensures |mine| <= |DatesOf(t)|
    decreases |mine|
  {
    if |mine| > 0 {
      var k :| k in mine;
      var rest := map k' | k' in mine && k' != k :: mine[k'];
      var others := map k' | k' in t && t[k'].date != mine[k].date :: t[k'];
      assert forall k' :: k' in rest ==> k' in others;
      assert rest.Keys == mine.Keys - {k};
      InjectiveOnDates(rest, others);
      assert DatesOf(others) == DatesOf(t) - {mine[k].date} by {
        assert forall d :: d in DatesOf(others) ==> d in DatesOf(t) && d != mine[k].date;
        forall d | d in DatesOf(t) && d != mine[k].date ensures d in DatesOf(others) {
          var w :| w in t && t[w].date == d;
          assert w in others;
        }
      }
      assert mine[k].date in DatesOf(t) by { assert k in t; }
    }
  }

  // ---- Collections of attendance models

  /** `$collection->where('status', s)->count()` on a collection of attendance models. */
  function CountStatus(rows: seq<Attendance>, s: Status): (n: nat)
    ensures n <= |rows|
  {
    if rows == [] then 0
    else CountStatus(rows[..|rows| - 1], s) + (if rows[|rows| - 1].status == s then 1 else 0)
  }

  /** Every model has one of the three statuses, so the three counts add up to the collection's size. */
  lemma {:induction false} CountStatusPartition(rows: seq<Attendance>)
    ensures CountStatus(rows, Present) + CountStatus(rows, Absent) + CountStatus(rows, Late) == |rows|
  {
    if rows != [] {
      CountStatusPartition(rows[..|rows| - 1]);
    }
  }

  // ---- Mass assignment

  const AttendanceFillable: set<string> := {"student_id", "date", "status", "note", "recorded_by"}
  const StudentFillable: set<string> := {"name", "student_id", "class", "section", "photo"}

  /** Mass assignment: attributes outside the fillable list are silently dropped. */
  function Fill(attrs: map<string, string>, fillable: set<string>): (r: map<string, string>)
    ensures r.Keys == attrs.Keys * fillable
    ensures forall k :: k in r ==> r[k] == attrs[k]
  {
    map k | k in attrs && k in fillable :: attrs[k]
  }

  /** Creating or updating an attendance sets only its five fillable columns, never id or timestamps. */
  lemma AttendanceAssignmentIsGuarded(attrs: map<string, string>)
    ensures Fill(attrs, AttendanceFillable).Keys <= AttendanceFillable
    ensures "id" !in Fill(attrs, AttendanceFillable) && "created_at" !in Fill(attrs, AttendanceFillable)
  {
  }

  lemma StudentAssignmentIsGuarded(attrs: map<string, string>)
    ensures Fill(attrs, StudentFillable).Keys <= StudentFillable
    ensures "id" !in Fill(attrs, StudentFillable) && "created_at" !in Fill(attrs, StudentFillable)
  {
  }
}

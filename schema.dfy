/**
 * The two tables and the constraints the attendances migration declares: one row per
 * (student_id, date), a status from the enum, foreign keys to students and to users, and
 * rows deleted together with their student.
 */
module Schema {
  import opened Models

  function StudentIds(students: seq<Student>): set<int>
  {
    set i | 0 <= i < |students| :: students[i].id
  }

  /** The primary key of `students`. */
  predicate DistinctIds(students: seq<Student>)
  {
    forall i, j :: 0 <= i < j < |students| ==> students[i].id != students[j].id
  }

  /**
   * The attendances table's invariant: unique (student_id, date), `student_id` and
   * `recorded_by` referencing existing rows. The enum status and nullable note are in the types.
   */
  predicate TableInvariant(t: Table, studentIds: set<int>, userIds: set<int>)
  {
    KeysConsistent(t)
    && (forall k :: k in t ==> t[k].student in studentIds)
    && (forall k :: k in t ==> t[k].recordedBy in userIds)
  }

  /** The attendance rows left after the cascade of deleting student `id`. */
  function WithoutStudent(t: Table, id: int): (r: Table)
    ensures forall k :: k in r <==> k in t && t[k].student != id
    ensures forall k :: k in r ==> r[k] == t[k]
  {
    map k | k in t && t[k].student != id :: t[k]
  }

  function RemoveStudent(students: seq<Student>, id: int): (r: seq<Student>)
    ensures forall s :: s in r <==> s in students && s.id != id
  {
    Filter(students, (s: Student) => s.id != id)
  }

  lemma StudentIdsOfRemove(students: seq<Student>, id: int)
    ensures StudentIds(RemoveStudent(students, id)) == StudentIds(students) - {id}
  {
    var r := RemoveStudent(students, id);
    forall x | x in StudentIds(students) - {id} ensures x in StudentIds(r) {
      var i :| 0 <= i < |students| && students[i].id == x;
      assert students[i] in r;
      var j :| 0 <= j < |r| && r[j] == students[i];
      assert r[j].id == x;
    }
    forall x | x in StudentIds(r) ensures x in StudentIds(students) - {id} {
      var j :| 0 <= j < |r| && r[j].id == x;
      assert r[j] in students;
      var i :| 0 <= i < |students| && students[i] == r[j];
      assert students[i].id == x && x != id;
    }
  }

  /** Filtering a list of students with distinct ids, by any condition, keeps the ids distinct. */
  lemma {:induction false} DistinctIdsOfFilter(students: seq<Student>, p: Student -> bool)
    requires DistinctIds(students)
    ensures DistinctIds(Filter(students, p))
    decreases |students|
  {
    var r := Filter(students, p);
    if students != [] {
      var init := students[..|students| - 1];
      var last := students[|students| - 1];
      DistinctIdsOfFilter(init, p);
      var ri := Filter(init, p);
      assert r == ri + (if p(last) then [last] else []);
      if p(last) {
        forall i, j | 0 <= i < j < |r| ensures r[i].id != r[j].id {
          if j == |ri| {
            assert r[i] == ri[i] && ri[i] in init;
            var k :| 0 <= k < |init| && init[k] == ri[i];
            assert students[k] == ri[i];
          } else {
            assert r[i] == ri[i] && r[j] == ri[j];
          }
        }
      }
    }
  }

  /** The cascade leaves no dangling reference: the invariant holds for the remaining students. */
  lemma CascadeKeepsInvariant(t: Table, students: seq<Student>, users: set<int>, id: int)
    requires TableInvariant(t, StudentIds(students), users)
    ensures TableInvariant(WithoutStudent(t, id), StudentIds(RemoveStudent(students, id)), users)
    ensures AttendancesOf(WithoutStudent(t, id), id) == map[]
  {
    var r := WithoutStudent(t, id);
    StudentIdsOfRemove(students, id);
    forall k | k in r ensures r[k].student in StudentIds(RemoveStudent(students, id)) {
      assert r[k].student in StudentIds(students) && r[k].student != id;
    }
    assert AttendancesOf(r, id).Keys == {};
  }

  class Database {
    var students: seq<Student>
    var users: set<int>
    var attendances: Table

    ghost predicate Valid()
      reads this
    {
      DistinctIds(students) && TableInvariant(attendances, StudentIds(students), users)
    }

    constructor (students: seq<Student>, users: set<int>)
      requires DistinctIds(students)
      ensures Valid()
      ensures this.students == students && this.users == users && attendances == map[]
    {
      this.students := students;
      this.users := users;
      attendances := map[];
    }

    /** Deleting a student row; `onDelete('cascade')` deletes that student's attendance rows with it. */
    method DeleteStudent(id: int)
      requires Valid()
      modifies this`students, this`attendances
      ensures Valid()
      ensures students == RemoveStudent(old(students), id)
      ensures attendances == WithoutStudent(old(attendances), id)
    {
      CascadeKeepsInvariant(attendances, students, users, id);
      DistinctIdsOfFilter(students, (s: Student) => s.id != id);
      students := RemoveStudent(students, id);
      attendances := WithoutStudent(attendances, id);
    }
  }
}

/**
 * What `recordBulkAttendance` does to the attendance table, stated as functions: each input
 * record is an upsert on its (student_id, date) key, applied in input order, so the last
 * record for a pair wins; and which exception, if any, stops the batch.
 */
module BulkRecording {
  import opened Wrappers
  import opened Calendar
  import opened Models
  import opened Schema

  /** One element of the service's input array. */
  datatype BulkInput = BulkInput(student: int, date: Date, status: Status, note: Option<string>)

  /** A persistence error the backend raises while writing record `at`, or at commit when `at` is past the end. */
  datatype Fault = Fault(at: nat, message: string)

  /** The exceptions the batch can end with. */
  datatype Failure = ConstraintViolation(message: string) | PersistenceFailure(message: string)

  const ForeignKeyMessage: string := "FOREIGN KEY constraint failed"

  function InputKey(r: BulkInput): Key { Key(r.student, r.date) }

  /** The row `Attendance::create` inserts for input r (note defaults to null upstream). */
  function RowFor(r: BulkInput, actorId: int): Attendance
  {
    Attendance(r.student, r.date, r.status, r.note, actorId)
  }

  /** One loop iteration: update status, note and recorder of the existing row, or insert a new one. */
  function Upsert(t: Table, r: BulkInput, actorId: int): Table
  {
    var k := InputKey(r);
    if k in t then t[k := t[k].(status := r.status, note := r.note, recordedBy := actorId)]
    else t[k := RowFor(r, actorId)]
  }

  /** The table after upserting the records in order. */
  function ApplyAll(t: Table, rs: seq<BulkInput>, actorId: int): Table
  {
    if rs == [] then t else Upsert(ApplyAll(t, rs[..|rs| - 1], actorId), rs[|rs| - 1], actorId)
  }

  /** The collection the loop pushes onto: one entry per input record, in input order. */
  function Entries(rs: seq<BulkInput>, actorId: int): seq<Attendance>
  {
    if rs == [] then [] else Entries(rs[..|rs| - 1], actorId) + [RowFor(rs[|rs| - 1], actorId)]
  }

  function InputKeys(rs: seq<BulkInput>): set<Key>
  {
    set i | 0 <= i < |rs| :: InputKey(rs[i])
  }

  /** The exception raised while writing record i, if any: the injected fault, else a failed foreign key. */
  function RecordFailure(r: BulkInput, i: nat, studentIds: set<int>, userIds: set<int>, actorId: int,
                         fault: Option<Fault>): Option<Failure>
  {
    if fault.Some? && fault.value.at == i then Some(PersistenceFailure(fault.value.message))
    else if r.student !in studentIds || actorId !in userIds then Some(ConstraintViolation(ForeignKeyMessage))
    else None
  }

  /** The first exception of the batch from record `from` on, the commit included. */
  function FirstFailure(rs: seq<BulkInput>, from: nat, studentIds: set<int>, userIds: set<int>, actorId: int,
                        fault: Option<Fault>): Option<Failure>
    decreases |rs| - from
  {
    if from >= |rs| then
      (if fault.Some? then Some(PersistenceFailure(fault.value.message)) else None)
    else if RecordFailure(rs[from], from, studentIds, userIds, actorId, fault).Some? then
      RecordFailure(rs[from], from, studentIds, userIds, actorId, fault)
    else FirstFailure(rs, from + 1, studentIds, userIds, actorId, fault)
  }

  /** The batch goes through exactly when no fault is injected and every record satisfies the foreign keys. */
  lemma {:induction false} NoFailureIff(rs: seq<BulkInput>, from: nat, studentIds: set<int>, userIds: set<int>,
                                        actorId: int, fault: Option<Fault>)
    requires from <= |rs|
    requires fault.None?
    ensures FirstFailure(rs, from, studentIds, userIds, actorId, fault).None?
        <==> (forall i :: from <= i < |rs| ==> rs[i].student in studentIds) && (from < |rs| ==> actorId in userIds)
    decreases |rs| - from
  {
    if from < |rs| {
      NoFailureIff(rs, from + 1, studentIds, userIds, actorId, fault);
    }
  }

  /** Any injected fault makes the batch fail. */
  lemma {:induction false} FaultAlwaysFails(rs: seq<BulkInput>, from: nat, studentIds: set<int>, userIds: set<int>,
                                            actorId: int, fault: Option<Fault>)
    requires fault.Some?
    ensures FirstFailure(rs, from, studentIds, userIds, actorId, fault).Some?
    decreases |rs| - from
  {
    if from < |rs| {
      FaultAlwaysFails(rs, from + 1, studentIds, userIds, actorId, fault);
    }
  }

  /** The result has one entry per input record, and entry i carries record i's values and the actor. */
  lemma {:induction false} EntriesMatchInputs(rs: seq<BulkInput>, actorId: int)
    ensures |Entries(rs, actorId)| == |rs|
    ensures forall i :: 0 <= i < |rs| ==>
      var e := Entries(rs, actorId)[i];
      e.student == rs[i].student && e.date == rs[i].date && e.status == rs[i].status
      && e.note == rs[i].note && e.recordedBy == actorId
  {
    if rs != [] {
      EntriesMatchInputs(rs[..|rs| - 1], actorId);
    }
  }

  lemma PrefixStep<T>(s: seq<T>, i: nat)
    requires i < |s|
    ensures s[..i + 1][..i] == s[..i] && s[..i + 1][i] == s[i]
  {
  }

  /** After the batch, the table's keys are the old ones plus the batch's pairs: no pair is stored twice. */
  lemma {:induction false} ApplyAllKeys(t: Table, rs: seq<BulkInput>, actorId: int)
    ensures ApplyAll(t, rs, actorId).Keys == t.Keys + InputKeys(rs)
  {
    if rs != [] {
      var init := rs[..|rs| - 1];
      ApplyAllKeys(t, init, actorId);
      assert InputKeys(rs) == InputKeys(init) + {InputKey(rs[|rs| - 1])} by {
        forall k | k in InputKeys(rs) ensures k in InputKeys(init) + {InputKey(rs[|rs| - 1])} {
          var i :| 0 <= i < |rs| && InputKey(rs[i]) == k;
          if i < |rs| - 1 { assert InputKey(init[i]) == k; }
        }
        forall k | k in InputKeys(init) ensures k in InputKeys(rs) {
          var i :| 0 <= i < |init| && InputKey(init[i]) == k;
          assert InputKey(rs[i]) == k;
        }
      }
    }
  }

  /** The row count grows only by the batch's pairs that had no row yet. */
  lemma RowCountGrowth(t: Table, rs: seq<BulkInput>, actorId: int)
    ensures |ApplyAll(t, rs, actorId)| == |t| + |InputKeys(rs) - t.Keys|
  {
    ApplyAllKeys(t, rs, actorId);
    assert t.Keys + InputKeys(rs) == t.Keys + (InputKeys(rs) - t.Keys);
    assert t.Keys * (InputKeys(rs) - t.Keys) == {};
  }

  /** Pairs the batch does not mention keep their row, or their absence. */
  lemma {:induction false} OtherPairsUnchanged(t: Table, rs: seq<BulkInput>, actorId: int, k: Key)
    requires forall i :: 0 <= i < |rs| ==> InputKey(rs[i]) != k
    ensures k in ApplyAll(t, rs, actorId) <==> k in t
    ensures k in t ==> ApplyAll(t, rs, actorId)[k] == t[k]
  {
    if rs != [] {
      OtherPairsUnchanged(t, rs[..|rs| - 1], actorId, k);
    }
  }

  /** The index of the last record of the batch for pair k. */
  function LastIndexFor(rs: seq<BulkInput>, k: Key): (i: nat)
    requires k in InputKeys(rs)
    ensures i < |rs| && InputKey(rs[i]) == k
    ensures forall j :: i < j < |rs| ==> InputKey(rs[j]) != k
  {
    if InputKey(rs[|rs| - 1]) == k then |rs| - 1
    else
      var init := rs[..|rs| - 1];
      assert k in InputKeys(init) by {
        var j :| 0 <= j < |rs| && InputKey(rs[j]) == k;
        assert j < |init| && init[j] == rs[j];
      }
      LastIndexFor(init, k)
  }

  /** Last write wins: a pair of the batch holds status, note and recorder of its last record. */
  lemma {:induction false} LastWriteWins(t: Table, rs: seq<BulkInput>, actorId: int, k: Key)
    requires KeysConsistent(t)
    requires k in InputKeys(rs)
    ensures k in ApplyAll(t, rs, actorId)
    ensures ApplyAll(t, rs, actorId)[k] == RowFor(rs[LastIndexFor(rs, k)], actorId)
  {
    var n := |rs| - 1;
    var init := rs[..n];
    if InputKey(rs[n]) == k {
      ApplyAllConsistent(t, init, actorId);
    } else {
      assert k in InputKeys(init) by {
        var j :| 0 <= j < |rs| && InputKey(rs[j]) == k;
        assert j < n && init[j] == rs[j];
      }
      LastWriteWins(t, init, actorId, k);
    }
  }

  /** Upserting keeps every row under its own key. */
  lemma {:induction false} ApplyAllConsistent(t: Table, rs: seq<BulkInput>, actorId: int)
    requires KeysConsistent(t)
    ensures KeysConsistent(ApplyAll(t, rs, actorId))
  {
    if rs != [] {
      ApplyAllConsistent(t, rs[..|rs| - 1], actorId);
    }
  }

  /** With every record's student existing and the actor a user, the migration's invariant is kept. */
  lemma {:induction false} ApplyAllKeepsInvariant(t: Table, rs: seq<BulkInput>, actorId: int,
                                                  studentIds: set<int>, userIds: set<int>)
    requires TableInvariant(t, studentIds, userIds)
    requires forall i :: 0 <= i < |rs| ==> rs[i].student in studentIds
    requires rs != [] ==> actorId in userIds
    ensures TableInvariant(ApplyAll(t, rs, actorId), studentIds, userIds)
  {
    if rs != [] {
      ApplyAllKeepsInvariant(t, rs[..|rs| - 1], actorId, studentIds, userIds);
    }
  }

  /** N records for N distinct pairs on an empty table give N rows. */
  lemma DistinctPairsGiveOneRowEach(rs: seq<BulkInput>, actorId: int)
    requires forall i, j :: 0 <= i < j < |rs| ==> InputKey(rs[i]) != InputKey(rs[j])
    ensures |ApplyAll(map[], rs, actorId)| == |rs|
  {
    RowCountGrowth(map[], rs, actorId);
    DistinctKeysCount(rs);
  }

  lemma {:induction false} DistinctKeysCount(rs: seq<BulkInput>)
    requires forall i, j :: 0 <= i < j < |rs| ==> InputKey(rs[i]) != InputKey(rs[j])
    ensures |InputKeys(rs)| == |rs|
  {
    if rs != [] {
      var init := rs[..|rs| - 1];
      DistinctKeysCount(init);
      assert InputKeys(rs) == InputKeys(init) + {InputKey(rs[|rs| - 1])} by {
        forall k | k in InputKeys(rs) ensures k in InputKeys(init) + {InputKey(rs[|rs| - 1])} {
          var i :| 0 <= i < |rs| && InputKey(rs[i]) == k;
          if i < |rs| - 1 { assert InputKey(init[i]) == k; }
        }
        forall k | k in InputKeys(init) ensures k in InputKeys(rs) {
          var i :| 0 <= i < |init| && InputKey(init[i]) == k;
          assert InputKey(rs[i]) == k;
        }
      }
      assert InputKey(rs[|rs| - 1]) !in InputKeys(init);
    }
  }

  /** Re-submitting pairs that already have rows updates them in place: the row count stays the same. */
  lemma ResubmissionKeepsRowCount(t: Table, rs: seq<BulkInput>, again: seq<BulkInput>, actorId: int)
    requires InputKeys(again) <= InputKeys(rs)
    ensures |ApplyAll(ApplyAll(t, rs, actorId), again, actorId)| == |ApplyAll(t, rs, actorId)|
  {
    var once := ApplyAll(t, rs, actorId);
    ApplyAllKeys(t, rs, actorId);
    ApplyAllKeys(once, again, actorId);
    assert ApplyAll(once, again, actorId).Keys == once.Keys;
  }
}

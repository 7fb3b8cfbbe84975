/** The records of a session are those of its tasks, each in one task only. */
module SessionRecords {
  import opened Decisions
  import opened Responses

  lemma {:induction false} InAll(tasks: seq<Task>, n: nat, i: nat, r: Record)
    requires i < n <= |tasks| && r in tasks[i].records
    ensures r in RecordsUpTo(tasks, n)
  {
    if i < n - 1 {
      InAll(tasks, n - 1, i, r);
    }
  }

  lemma DistinctParts(a: seq<Record>, b: seq<Record>)
    requires DistinctRecords(a + b)
    ensures DistinctRecords(a) && DistinctRecords(b)
  {
    var all := a + b;
    assert forall i :: 0 <= i < |a| ==> all[i] == a[i];
    assert forall i :: 0 <= i < |b| ==> all[|a| + i] == b[i];
  }

  lemma {:induction false} TasksAreDistinct(tasks: seq<Task>, n: nat)
    requires n <= |tasks| && DistinctRecords(RecordsUpTo(tasks, n))
    ensures forall i :: 0 <= i < n ==> DistinctRecords(tasks[i].records)
  {
    hide DistinctRecords;
    if n > 0 {
      DistinctParts(RecordsUpTo(tasks, n - 1), tasks[n - 1].records);
      TasksAreDistinct(tasks, n - 1);
    }
  }

  /** What a task says of a message, the session says. */
  lemma FoundInAll(s: Session, t: Task, id: Id)
    requires DistinctRecords(AllRecords(s)) && t in s.tasks && RecordFor(t.records, id).Some?
    ensures RecordFor(AllRecords(s), id) == RecordFor(t.records, id)
  {
    hide DistinctRecords;
    hide RecordFor;
    FoundIsRecord(t.records, id);
    var r := RecordFor(t.records, id).value;
    var i :| 0 <= i < |s.tasks| && s.tasks[i] == t;
    InAll(s.tasks, |s.tasks|, i, r);
    var k :| 0 <= k < |AllRecords(s)| && AllRecords(s)[k] == r;
    RecordFound(AllRecords(s), k);
  }
}

/** What salvage recovers from an arbitrarily damaged response, and that journals and salvaged files
    load again. */
module Salvage {
  import opened Wrappers
  import opened Decisions
  import opened Responses

  // ---------------------------------------------------------------- which decisions are kept

  /** Decision d is the first that the file makes for its message. */
  ghost predicate FirstValid(c: Checks, records: seq<Record>, file: seq<Line>, k: nat, d: Decision)
    requires k <= |file|
  {
    exists i :: 0 <= i < k && DecisionOf(c, records, file[i]) == Some(d)
             && forall j :: 0 <= j < i ==> !DecidesOn(c, records, file[j], d.id)
  }

  ghost predicate DecidesOn(c: Checks, records: seq<Record>, l: Line, id: Id) {
    DecisionOf(c, records, l).Some? && DecisionOf(c, records, l).value.id == id
  }

  /** Salvage keeps, for each message, exactly the first valid decision of the file, if it has one. */
  lemma {:induction false} SalvageKeepsFirst(c: Checks, records: seq<Record>, file: seq<Line>, k: nat, id: Id)
    requires k <= |file|
    ensures var m := SalvageUpTo(c, records, file, k);
            && (id in m <==> exists i :: 0 <= i < k && DecidesOn(c, records, file[i], id))
            && (id in m ==> m[id].id == id && FirstValid(c, records, file, k, m[id]))
  {
    hide DecisionOf;
    hide IsHeader;
    if k > 0 {
      SalvageKeepsFirst(c, records, file, k - 1, id);
      var m := SalvageUpTo(c, records, file, k - 1);
      var l := file[k - 1];
      HeaderDecidesNothing(c, records, l);
      if id in m {
        assert FirstValid(c, records, file, k, m[id]);
      } else if DecidesOn(c, records, l, id) {
        assert forall j :: 0 <= j < k - 1 ==> !DecidesOn(c, records, file[j], id);
        assert FirstValid(c, records, file, k, DecisionOf(c, records, l).value);
      }
    }
  }

  lemma HeaderDecidesNothing(c: Checks, records: seq<Record>, l: Line)
    ensures IsHeader(l) ==> DecisionOf(c, records, l).None?
  {
    if DecisionOf(c, records, l).Some? {
      DecisionIsNormal(c, records, l);
    }
  }

  lemma {:induction false} SalvageIsValid(c: Checks, records: seq<Record>, file: seq<Line>, k: nat)
    requires k <= |file|
    ensures ValidMap(c, records, SalvageUpTo(c, records, file, k))
  {
    hide DecisionOf;
    hide IsNormal;
    hide RecordFor;
    hide IsHeader;
    if k > 0 {
      SalvageIsValid(c, records, file, k - 1);
      if DecisionOf(c, records, file[k - 1]).Some? {
        DecisionIsNormal(c, records, file[k - 1]);
      }
    }
  }

  // ---------------------------------------------------------------- what was written loads again

  ghost predicate InFirst(records: seq<Record>, k: nat, id: Id)
    requires k <= |records|
  {
    exists i :: 0 <= i < k && records[i].id == id
  }

  /** The part of a map that belongs to the first k records. */
  ghost function Restricted<V>(records: seq<Record>, m: map<Id, V>, k: nat): map<Id, V>
    requires k <= |records|
  {
    map id | id in m && InFirst(records, k, id) :: m[id]
  }

  lemma {:induction false} LoadPrefix(c: Checks, records: seq<Record>, lines: seq<Line>, more: seq<Line>, k: nat)
    requires k <= |lines|
    ensures LoadUpTo(c, records, lines + more, k) == LoadUpTo(c, records, lines, k)
  {
    hide DecisionOf;
    if k > 0 {
      LoadPrefix(c, records, lines, more, k - 1);
    }
  }

  lemma LoadAppend(c: Checks, records: seq<Record>, lines: seq<Line>, line: Line, m: map<Id, Decision>, d: Decision)
    requires LoadUpTo(c, records, lines, |lines|) == Some(m)
    requires DecisionOf(c, records, line) == Some(d) && d.id !in m
    ensures LoadUpTo(c, records, lines + [line], |lines| + 1) == Some(m[d.id := d])
  {
    hide DecisionOf;
    LoadPrefix(c, records, lines, [line], |lines|);
  }

  lemma RestrictedStep<V>(records: seq<Record>, m: map<Id, V>, k: nat)
    requires DistinctRecords(records) && 0 < k <= |records|
    ensures var id := records[k - 1].id;
            && id !in Restricted(records, m, k - 1)
            && Restricted(records, m, k)
               == if id in m then Restricted(records, m, k - 1)[id := m[id]] else Restricted(records, m, k - 1)
  {
    var id := records[k - 1].id;
    assert InFirst(records, k, id);
    assert forall other :: InFirst(records, k, other) <==> InFirst(records, k - 1, other) || other == id;
  }

  lemma {:induction false} OrderedLoads(c: Checks, records: seq<Record>, m: map<Id, Decision>, k: nat)
    requires ValidMap(c, records, m) && DistinctRecords(records) && k <= |records|
    ensures var lines := Ordered(records, m, k);
            LoadUpTo(c, records, lines, |lines|) == Some(Restricted(records, m, k))
  {
    hide DecisionOf;
    hide IsNormal;
    hide RecordFor;
    hide Restricted;
    hide DistinctRecords;
    hide LineOf;
    if k == 0 {
      RestrictedNothing(records, m);
    } else {
      OrderedLoads(c, records, m, k - 1);
      RestrictedStep(records, m, k);
      var id := records[k - 1].id;
      if id in m {
        LineRead(c, records, m[id]);
        LoadAppend(c, records, Ordered(records, m, k - 1), LineOf(m[id]), Restricted(records, m, k - 1), m[id]);
      } else {
        assert Ordered(records, m, k) == Ordered(records, m, k - 1);
      }
    }
  }

  lemma RestrictedNothing<V>(records: seq<Record>, m: map<Id, V>)
    ensures Restricted(records, m, 0) == map[]
  {
  }

  lemma RestrictedAll<V>(records: seq<Record>, m: map<Id, V>)
    requires forall id | id in m :: RecordFor(records, id).Some?
    ensures Restricted(records, m, |records|) == m
  {
    forall id | id in m
      ensures InFirst(records, |records|, id)
    {
      FoundIsRecord(records, id);
    }
  }

  lemma OrderedLoadsAll(c: Checks, records: seq<Record>, m: map<Id, Decision>)
    requires ValidMap(c, records, m) && DistinctRecords(records)
    ensures var lines := Ordered(records, m, |records|);
            LoadUpTo(c, records, lines, |lines|) == Some(m)
  {
    OrderedLoads(c, records, m, |records|);
    RestrictedAll(records, m);
  }

  lemma WrittenLines(header: Line, lines: seq<Line>)
    requires header.Object? && forall l | l in lines :: l.Object?
    ensures ReadLines([header] + lines) == Some([header] + lines)
  {
    var file := [header] + lines;
    assert forall l | l in file :: l.Object?;
    ObjectsOfObjects(file, |file|);
    assert file[..|file|] == file;
  }

  /** However damaged the response was, the salvaged file loads, as a response to the same task with
      exactly the salvaged decisions. */
  lemma SalvagedLoads(c: Checks, s: Session, t: Task, file: seq<Line>)
    requires ValidSession(s) && t in s.tasks
    ensures LoadResponse(c, s, Salvaged(c, s, t, file)) == Some((t, SalvageMap(c, t, file)))
  {
    hide LoadUpTo;
    hide SalvageUpTo;
    hide ReadLines;
    hide ResponseHeader;
    hide DistinctRecords;
    var m := SalvageMap(c, t, file);
    var lines := Ordered(t.records, m, |t.records|);
    var k :| 0 <= k < |s.tasks| && s.tasks[k] == t;
    SalvageIsValid(c, t.records, file, |file|);
    OrderedLoadsAll(c, t.records, m);
    HeaderIsObject(s, t);
    WrittenLines(ResponseHeader(s, t), lines);
    TaskFound(s, s.tasks, k);
    assert ([ResponseHeader(s, t)] + lines)[1..] == lines;
  }

  lemma HeaderIsObject(s: Session, t: Task)
    ensures ResponseHeader(s, t).Object? && IsHeader(ResponseHeader(s, t)) && JournalHeader(s).Object?
  {
  }

  /** The objects of a prefix of a file are a prefix of its objects. */
  lemma {:induction false} ObjectsPrefix(file: seq<Line>, k: nat, n: nat)
    requires k <= n <= |file|
    ensures Objects(file, k) <= Objects(file, n)
    decreases n
  {
    if k < n {
      ObjectsPrefix(file, k, n - 1);
    }
  }

  /** One more line, read by both. */
  lemma SalvageStep(c: Checks, records: seq<Record>, lines: seq<Line>, n: nat, l: Line, m: map<Id, Decision>)
    requires n < |lines| && lines[n] == l && LoadUpTo(c, records, lines, n) == Some(m)
    requires LoadUpTo(c, records, lines, |lines|).Some?
    ensures DecisionOf(c, records, l).Some? && !IsHeader(l)
    ensures var d := DecisionOf(c, records, l).value;
            d.id !in m && LoadUpTo(c, records, lines, n + 1) == Some(m[d.id := d])
  {
    hide DecisionOf;
    hide IsHeader;
    if LoadUpTo(c, records, lines, n + 1).None? {
      LoadFails(c, records, lines, n + 1, |lines|);
    }
    HeaderDecidesNothing(c, records, l);
  }

  /** Once the header is behind it, salvage keeps what strict loading keeps. */
  ghost predicate InStep(c: Checks, records: seq<Record>, file: seq<Line>, lines: seq<Line>, k: nat)
    requires k <= |file|
  {
    var n := |Objects(file, k)|;
    if n == 0 then SalvageUpTo(c, records, file, k) == map[]
    else n - 1 <= |lines| && LoadUpTo(c, records, lines, n - 1) == Some(SalvageUpTo(c, records, file, k))
  }

  lemma NextObject(file: seq<Line>, lines: seq<Line>, k: nat)
    requires 0 < k <= |file| && file[k - 1].Object?
    requires Objects(file, |file|) != [] && Objects(file, |file|)[1..] == lines
    ensures var n := |Objects(file, k)|;
            && n == |Objects(file, k - 1)| + 1
            && if n == 1 then Objects(file, |file|)[0] == file[k - 1]
               else n - 2 < |lines| && lines[n - 2] == file[k - 1]
  {
    ObjectsPrefix(file, k, |file|);
    var n := |Objects(file, k)|;
    assert Objects(file, |file|)[n - 1] == file[k - 1];
  }

  lemma SalvageLine(c: Checks, records: seq<Record>, file: seq<Line>, k: nat)
    requires 0 < k <= |file|
    ensures var m, l := SalvageUpTo(c, records, file, k - 1), file[k - 1];
            SalvageUpTo(c, records, file, k) ==
            if IsHeader(l) || DecisionOf(c, records, l).None? || DecisionOf(c, records, l).value.id in m then m
            else m[DecisionOf(c, records, l).value.id := DecisionOf(c, records, l).value]
  {
    hide DecisionOf;
    hide IsHeader;
  }

  lemma {:induction false} SalvageFollowsLoad(c: Checks, records: seq<Record>, file: seq<Line>, lines: seq<Line>,
                                              k: nat)
    requires k <= |file|
    requires Objects(file, |file|) != [] && IsHeader(Objects(file, |file|)[0]) && Objects(file, |file|)[1..] == lines
    requires LoadUpTo(c, records, lines, |lines|).Some?
    ensures InStep(c, records, file, lines, k)
  {
    hide *;
    if k == 0 {
      InStepStart(c, records, file, lines);
    } else {
      SalvageFollowsLoad(c, records, file, lines, k - 1);
      InStepNext(c, records, file, lines, k);
    }
  }

  lemma InStepStart(c: Checks, records: seq<Record>, file: seq<Line>, lines: seq<Line>)
    ensures InStep(c, records, file, lines, 0) && LoadUpTo(c, records, lines, 0) == Some(map[])
  {
  }

  lemma ObjectsSame(file: seq<Line>, k: nat)
    requires 0 < k <= |file|
    ensures !file[k - 1].Object? ==> |Objects(file, k)| == |Objects(file, k - 1)|
  {
  }

  lemma InStepNext(c: Checks, records: seq<Record>, file: seq<Line>, lines: seq<Line>, k: nat)
    requires 0 < k <= |file| && InStep(c, records, file, lines, k - 1)
    requires Objects(file, |file|) != [] && IsHeader(Objects(file, |file|)[0]) && Objects(file, |file|)[1..] == lines
    requires LoadUpTo(c, records, lines, |lines|).Some?
    ensures InStep(c, records, file, lines, k)
  {
    hide DecisionOf;
    hide IsHeader;
    hide SalvageUpTo;
    hide LoadUpTo;
    hide Objects;
    var n, l := |Objects(file, k)|, file[k - 1];
    InStepStart(c, records, file, lines);
    NoObjectDecidesNothing(c, records, l);
    ObjectsSame(file, k);
    SalvageLine(c, records, file, k);
    if l.Object? {
      NextObject(file, lines, k);
      if n > 1 {
        SalvageStep(c, records, lines, n - 2, l, SalvageUpTo(c, records, file, k - 1));
      }
    }
  }

  lemma NoObjectDecidesNothing(c: Checks, records: seq<Record>, l: Line)
    ensures !l.Object? ==> !IsHeader(l) && DecisionOf(c, records, l).None?
  {
  }

  /** Salvaging a response that is not damaged keeps its decisions. */
  lemma SalvageOfValid(c: Checks, s: Session, t: Task, file: seq<Line>)
    requires LoadResponse(c, s, file).Some? && LoadResponse(c, s, file).value.0 == t
    ensures SalvageMap(c, t, file) == LoadResponse(c, s, file).value.1
  {
    hide LoadUpTo;
    hide SalvageUpTo;
    hide ResponseHeader;
    TaskIsAmong(s, s.tasks, Objects(file, |file|)[0]);
    HeaderIsObject(s, t);
    SalvageFollowsLoad(c, t.records, file, Objects(file, |file|)[1..], |file|);
  }

  /** Salvaging twice is salvaging once. */
  lemma SalvageIdempotent(c: Checks, s: Session, t: Task, file: seq<Line>)
    requires ValidSession(s) && t in s.tasks
    ensures Salvaged(c, s, t, Salvaged(c, s, t, file)) == Salvaged(c, s, t, file)
  {
    hide LoadResponse;
    hide SalvageMap;
    SalvagedLoads(c, s, t, file);
    SalvageOfValid(c, s, t, Salvaged(c, s, t, file));
  }

  // ---------------------------------------------------------------- the journal

  function WrittenJournal(s: Session, m: map<Id, Decision>): seq<Line> {
    [JournalHeader(s)] + Ordered(AllRecords(s), m, |AllRecords(s)|)
  }

  function LoadJournal(c: Checks, s: Session, file: seq<Line>): Option<map<Id, Decision>> {
    match ReadLines(file)
    case None => None
    case Some(lines) =>
      if lines == [] || lines[0] != JournalHeader(s) then None
      else LoadUpTo(c, AllRecords(s), lines[1..], |lines| - 1)
  }

  /** Writing a journal and loading it gives the same decisions. */
  lemma JournalRoundTrip(c: Checks, s: Session, m: map<Id, Decision>)
    requires ValidSession(s) && ValidMap(c, AllRecords(s), m)
    ensures LoadJournal(c, s, WrittenJournal(s, m)) == Some(m)
  {
    hide LoadUpTo;
    hide ReadLines;
    hide JournalHeader;
    hide AllRecords;
    hide DistinctRecords;
    hide ValidMap;
    var records := AllRecords(s);
    var lines := Ordered(records, m, |records|);
    OrderedLoadsAll(c, records, m);
    HeaderIsObject(s, Task("", "", []));
    WrittenLines(JournalHeader(s), lines);
    assert ([JournalHeader(s)] + lines)[1..] == lines;
  }
}

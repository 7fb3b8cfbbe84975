/** Response files and the review journal of scripts/translation/translate_ts.py: loading, salvaging a
    damaged response, merging responses, writing and loading the journal. A file is its list of lines,
    each with what decoding and parsing it gives. */
module Responses {
  import opened Wrappers
  import opened Decisions

  datatype Line =
    | Undecodable            // not UTF-8
    | Malformed              // not JSON
    | Blank
    | NotObject
    | Object(id: RawId, fields: map<string, Json>)

  datatype Task = Task(name: string, sha256: string, records: seq<Record>)

  /** The immutable part of a session. */
  datatype Session = Session(name: string, tasks: seq<Task>)

  const RESPONSE_SCHEMA := "duckstation-qt-translation-response-v2"
  const REVIEW_SCHEMA := "duckstation-qt-translation-reviews-v2"
  const RECORD_TYPE := "record_type"

  function ResponseHeader(s: Session, t: Task): Line {
    Object(NoId, map[RECORD_TYPE := Text("metadata"), "schema" := Text(RESPONSE_SCHEMA), "session_id" := Text(s.name),
                     "task_id" := Text(t.name), "task_sha256" := Text(t.sha256)])
  }

  function JournalHeader(s: Session): Line {
    Object(NoId, map[RECORD_TYPE := Text("metadata"), "schema" := Text(REVIEW_SCHEMA), "session_id" := Text(s.name)])
  }

  predicate IsHeader(l: Line) {
    l.Object? && RECORD_TYPE in l.fields && l.fields[RECORD_TYPE] == Text("metadata")
  }

  function LineOf(d: Decision): Line {
    Object(Named(d.id), FieldsOf(d))
  }

  function AllRecords(s: Session): seq<Record> {
    RecordsUpTo(s.tasks, |s.tasks|)
  }

  function RecordsUpTo(tasks: seq<Task>, k: nat): seq<Record>
    requires k <= |tasks|
  {
    if k == 0 then [] else RecordsUpTo(tasks, k - 1) + tasks[k - 1].records
  }

  /** What loading a session checks: every message is in one task only, and task names differ. */
  ghost predicate DistinctRecords(records: seq<Record>) {
    forall i, j :: 0 <= i < j < |records| ==> records[i].id != records[j].id
  }

  ghost predicate ValidSession(s: Session) {
    && DistinctRecords(AllRecords(s))
    && (forall i, j :: 0 <= i < j < |s.tasks| ==> s.tasks[i].name != s.tasks[j].name)
    && (forall t | t in s.tasks :: DistinctRecords(t.records))
  }

  /** The record of a message in a list. */
  function RecordFor(records: seq<Record>, id: Id): Option<Record> {
    if records == [] then None
    else if records[0].id == id then Some(records[0])
    else RecordFor(records[1..], id)
  }

  lemma {:induction false} RecordFound(records: seq<Record>, k: nat)
    requires DistinctRecords(records) && k < |records|
    ensures RecordFor(records, records[k].id) == Some(records[k])
  {
    if k > 0 {
      RecordFound(records[1..], k - 1);
    }
  }

  lemma {:induction false} FoundIsRecord(records: seq<Record>, id: Id)
    ensures RecordFor(records, id).Some? ==>
              RecordFor(records, id).value in records && RecordFor(records, id).value.id == id
    ensures RecordFor(records, id).None? ==> forall r | r in records :: r.id != id
  {
    if records != [] && records[0].id != id {
      FoundIsRecord(records[1..], id);
    }
  }

  // ---------------------------------------------------------------- reading a file

  /** `read_jsonl`: any line that is not blank and not an object is an error. */
  function ReadLines(file: seq<Line>): Option<seq<Line>> {
    if exists l | l in file :: l.Undecodable? || l.Malformed? || l.NotObject? then None
    else Some(Objects(file, |file|))
  }

  function Objects(file: seq<Line>, k: nat): (objects: seq<Line>)
    requires k <= |file|
    ensures forall l | l in objects :: l.Object? && l in file
  {
    if k == 0 then [] else Objects(file, k - 1) + if file[k - 1].Object? then [file[k - 1]] else []
  }

  lemma {:induction false} ObjectsOfObjects(file: seq<Line>, k: nat)
    requires k <= |file| && forall l | l in file :: l.Object?
    ensures Objects(file, k) == file[..k]
  {
    if k > 0 {
      ObjectsOfObjects(file, k - 1);
      assert file[k - 1] in file;
    }
  }

  // ---------------------------------------------------------------- valid lines

  /** The decision that a line makes for a list of records, if it makes a valid one. */
  function DecisionOf(c: Checks, records: seq<Record>, l: Line): Option<Decision> {
    if !l.Object? || !l.id.Named? then None
    else
      match RecordFor(records, l.id.id)
      case None => None
      case Some(r) => Validate(c, r, l.id, l.fields)
  }

  lemma DecisionIsNormal(c: Checks, records: seq<Record>, l: Line)
    requires DecisionOf(c, records, l).Some?
    ensures var d := DecisionOf(c, records, l).value;
            && l.id == Named(d.id) && RecordFor(records, d.id).Some? && IsNormal(c, RecordFor(records, d.id).value, d)
            && !IsHeader(l)
  {
    var r := RecordFor(records, l.id.id).value;
    FoundIsRecord(records, l.id.id);
    ValidateIsIdempotent(c, r, l.id, l.fields);
    HeaderIsNoDecision(c, r, l);
    hide Validate;
    hide IsNormal;
  }

  lemma HeaderIsNoDecision(c: Checks, r: Record, l: Line)
    requires l.Object?
    ensures IsHeader(l) ==> Validate(c, r, l.id, l.fields).None?
    ensures l.Object? && Validate(c, r, l.id, l.fields).Some? ==> l.id == Named(Validate(c, r, l.id, l.fields).value.id)
  {
    assert RECORD_TYPE[0] == 'r' && SOURCE_REASON[0] == 's';
    assert FIELDS[0][0] == 't' && FIELDS[1][0] == 'p' && FIELDS[2][0] == 'a' && FIELDS[3][0] == 'a';
    assert FIELDS[4][0] == 'n';
    assert RECORD_TYPE !in FIELDS && RECORD_TYPE != SOURCE_REASON;
    hide GoodValue;
    hide ChoiceOf;
    hide Selected;
    hide Normalized;
  }

  /** Writing a decision in normal form and reading the line gives it back. */
  lemma LineRead(c: Checks, records: seq<Record>, d: Decision)
    requires RecordFor(records, d.id).Some? && IsNormal(c, RecordFor(records, d.id).value, d)
    ensures DecisionOf(c, records, LineOf(d)) == Some(d)
  {
    hide Validate;
    hide FieldsOf;
  }

  /** A map of valid decisions for a list of records. */
  ghost predicate ValidMap(c: Checks, records: seq<Record>, m: map<Id, Decision>) {
    forall id | id in m ::
      m[id].id == id && RecordFor(records, id).Some? && IsNormal(c, RecordFor(records, id).value, m[id])
  }

  // ---------------------------------------------------------------- strict loading

  /** The decisions of the first k lines; None if one is invalid, unowned or repeated. */
  function LoadUpTo(c: Checks, records: seq<Record>, lines: seq<Line>, k: nat): Option<map<Id, Decision>>
    requires k <= |lines|
  {
    if k == 0 then Some(map[])
    else
      match LoadUpTo(c, records, lines, k - 1)
      case None => None
      case Some(m) =>
        match DecisionOf(c, records, lines[k - 1])
        case None => None
        case Some(d) => if d.id in m then None else Some(m[d.id := d])
  }

  /** The task a response's first line names, if that line is its header. */
  function TaskOf(s: Session, header: Line): Option<Task> {
    TaskAmong(s, s.tasks, header)
  }

  function TaskAmong(s: Session, tasks: seq<Task>, header: Line): Option<Task> {
    if tasks == [] then None
    else if ResponseHeader(s, tasks[0]) == header then Some(tasks[0])
    else TaskAmong(s, tasks[1..], header)
  }

  function LoadResponse(c: Checks, s: Session, file: seq<Line>): Option<(Task, map<Id, Decision>)> {
    match ReadLines(file)
    case None => None
    case Some(lines) =>
      if lines == [] then None
      else
        match TaskOf(s, lines[0])
        case None => None
        case Some(task) =>
          match LoadUpTo(c, task.records, lines[1..], |lines| - 1)
          case None => None
          case Some(m) => Some((task, m))
  }

  method LoadResponseFile(c: Checks, s: Session, file: seq<Line>) returns (r: Option<(Task, map<Id, Decision>)>)
    ensures r == LoadResponse(c, s, file)
  {
    hide DecisionOf;
    hide ReadLines;
    hide TaskOf;
    var lines := ReadLines(file);
    if lines.None? || lines.value == [] {
      return None;
    }
    var task := TaskOf(s, lines.value[0]);
    if task.None? {
      return None;
    }
    var decisions: map<Id, Decision> := map[];
    var rest := lines.value[1..];
    for k := 0 to |rest|
      invariant LoadUpTo(c, task.value.records, rest, k) == Some(decisions)
    {
      var d := DecisionOf(c, task.value.records, rest[k]);
      if d.None? || d.value.id in decisions {
        LoadFails(c, task.value.records, rest, k + 1, |rest|);
        return None;
      }
      decisions := decisions[d.value.id := d.value];
    }
    return Some((task.value, decisions));
  }

  lemma {:induction false} LoadFails(c: Checks, records: seq<Record>, lines: seq<Line>, k: nat, n: nat)
    requires k <= n <= |lines| && LoadUpTo(c, records, lines, k).None?
    ensures LoadUpTo(c, records, lines, n).None?
    decreases n
  {
    hide DecisionOf;
    if k < n {
      LoadFails(c, records, lines, k, n - 1);
    }
  }

  lemma {:induction false} LoadIsValid(c: Checks, records: seq<Record>, lines: seq<Line>, k: nat)
    requires k <= |lines| && LoadUpTo(c, records, lines, k).Some?
    ensures ValidMap(c, records, LoadUpTo(c, records, lines, k).value)
  {
    hide DecisionOf;
    hide IsNormal;
    hide RecordFor;
    hide IsHeader;
    if k > 0 {
      LoadIsValid(c, records, lines, k - 1);
      DecisionIsNormal(c, records, lines[k - 1]);
    }
  }

  // ---------------------------------------------------------------- exactly what loads

  /** A line makes this decision. */
  ghost predicate Decides(c: Checks, records: seq<Record>, l: Line, d: Decision) {
    DecisionOf(c, records, l) == Some(d)
  }

  /** Each of the first k lines makes a decision, and no two for the same message. */
  ghost predicate AllDecideOnce(c: Checks, records: seq<Record>, lines: seq<Line>, k: nat)
    requires k <= |lines|
  {
    && (forall i :: 0 <= i < k ==> DecisionOf(c, records, lines[i]).Some?)
    && (forall i, j :: 0 <= i < j < k ==>
          DecisionOf(c, records, lines[i]).value.id != DecisionOf(c, records, lines[j]).value.id)
  }

  ghost predicate DecidedBefore(c: Checks, records: seq<Record>, lines: seq<Line>, k: nat, d: Decision)
    requires k <= |lines|
  {
    exists i :: 0 <= i < k && Decides(c, records, lines[i], d)
  }

  /** Loading succeeds exactly if every line makes a valid decision for a message of its own, and gives
      exactly those decisions, each under its message. */
  lemma {:induction false} LoadExactly(c: Checks, records: seq<Record>, lines: seq<Line>, k: nat)
    requires k <= |lines|
    ensures LoadUpTo(c, records, lines, k).Some? <==> AllDecideOnce(c, records, lines, k)
    ensures LoadUpTo(c, records, lines, k).Some? ==>
              var m := LoadUpTo(c, records, lines, k).value;
              && (forall id | id in m :: m[id].id == id)
              && forall d: Decision :: d.id in m && m[d.id] == d <==> DecidedBefore(c, records, lines, k, d)
  {
    hide DecisionOf;
    if k > 0 {
      LoadExactly(c, records, lines, k - 1);
      var l := lines[k - 1];
      var before := LoadUpTo(c, records, lines, k - 1);
      if before.Some? && DecisionOf(c, records, l).Some? {
        LoadStepExactly(c, records, lines, k, before.value, DecisionOf(c, records, l).value);
      }
    }
  }

  lemma LoadStepExactly(c: Checks, records: seq<Record>, lines: seq<Line>, k: nat, m: map<Id, Decision>, d: Decision)
    requires 0 < k <= |lines| && AllDecideOnce(c, records, lines, k - 1)
    requires forall id | id in m :: m[id].id == id
    requires forall e: Decision :: e.id in m && m[e.id] == e <==> DecidedBefore(c, records, lines, k - 1, e)
    requires Decides(c, records, lines[k - 1], d)
    ensures d.id !in m <==> AllDecideOnce(c, records, lines, k)
    ensures d.id !in m ==>
              forall e: Decision :: e.id in m[d.id := d] && m[d.id := d][e.id] == e <==>
                  DecidedBefore(c, records, lines, k, e)
  {
    hide DecisionOf;
    if d.id in m {
      var e := m[d.id];
      assert DecidedBefore(c, records, lines, k - 1, e);
      var i :| 0 <= i < k - 1 && Decides(c, records, lines[i], e);
      assert DecisionOf(c, records, lines[i]).value.id == DecisionOf(c, records, lines[k - 1]).value.id;
    }
    forall i | 0 <= i < k - 1
      ensures DecisionOf(c, records, lines[i]).value.id in m
    {
      var e := DecisionOf(c, records, lines[i]).value;
      assert Decides(c, records, lines[i], e);
      assert DecidedBefore(c, records, lines, k - 1, e);
    }
    forall e: Decision
      ensures DecidedBefore(c, records, lines, k, e) <==> DecidedBefore(c, records, lines, k - 1, e) || e == d
    {
    }
  }

  lemma {:induction false} TaskFound(s: Session, tasks: seq<Task>, k: nat)
    requires k < |tasks| && forall i, j :: 0 <= i < j < |tasks| ==> tasks[i].name != tasks[j].name
    ensures TaskAmong(s, tasks, ResponseHeader(s, tasks[k])) == Some(tasks[k])
  {
    var header := ResponseHeader(s, tasks[k]);
    if k > 0 {
      assert header.fields["task_id"] == Text(tasks[k].name);
      assert ResponseHeader(s, tasks[0]).fields["task_id"] == Text(tasks[0].name);
      TaskFound(s, tasks[1..], k - 1);
    }
  }

  lemma {:induction false} TaskIsAmong(s: Session, tasks: seq<Task>, header: Line)
    requires TaskAmong(s, tasks, header).Some?
    ensures TaskAmong(s, tasks, header).value in tasks && header == ResponseHeader(s, TaskAmong(s, tasks, header).value)
  {
    if ResponseHeader(s, tasks[0]) != header {
      TaskIsAmong(s, tasks[1..], header);
    }
  }

  /** A map of exactly the decisions that the first k lines make, each under its message. */
  ghost predicate DecisionsAre(c: Checks, records: seq<Record>, lines: seq<Line>, k: nat, m: map<Id, Decision>)
    requires k <= |lines|
  {
    && (forall id | id in m :: m[id].id == id)
    && forall d: Decision :: d.id in m && m[d.id] == d <==> DecidedBefore(c, records, lines, k, d)
  }

  lemma DecisionsWithin(c: Checks, records: seq<Record>, lines: seq<Line>, k: nat,
                        m: map<Id, Decision>, n: map<Id, Decision>)
    requires k <= |lines| && DecisionsAre(c, records, lines, k, m) && DecisionsAre(c, records, lines, k, n)
    ensures forall id | id in m :: id in n && n[id] == m[id]
  {
    hide DecidedBefore;
    forall id | id in m
      ensures id in n && n[id] == m[id]
    {
      var d := m[id];
      assert d.id in m && m[d.id] == d;
      assert d.id in n && n[d.id] == d;
    }
  }

  lemma SameDecisions(c: Checks, records: seq<Record>, lines: seq<Line>, k: nat,
                      m: map<Id, Decision>, n: map<Id, Decision>)
    requires k <= |lines| && DecisionsAre(c, records, lines, k, m) && DecisionsAre(c, records, lines, k, n)
    ensures m == n
  {
    hide DecisionsAre;
    DecisionsWithin(c, records, lines, k, m, n);
    DecisionsWithin(c, records, lines, k, n, m);
  }

  /** A response loads as one to task t with decisions m exactly if every line is blank or an object, the
      first object is the header of t, each of the others makes a valid decision for a message of t, no two
      for the same, and m is exactly those decisions. */
  lemma LoadResponseExactly(c: Checks, s: Session, file: seq<Line>, t: Task, m: map<Id, Decision>)
    requires ValidSession(s)
    ensures LoadResponse(c, s, file) == Some((t, m)) <==>
              && ReadLines(file).Some? && ReadLines(file).value != []
              && t in s.tasks && ReadLines(file).value[0] == ResponseHeader(s, t)
              && var lines := ReadLines(file).value[1..];
                 AllDecideOnce(c, t.records, lines, |lines|) && DecisionsAre(c, t.records, lines, |lines|, m)
  {
    hide LoadUpTo;
    hide ResponseHeader;
    hide AllDecideOnce;
    hide DecidedBefore;
    hide ReadLines;
    hide AllRecords;
    hide DistinctRecords;
    hide TaskAmong;
    var read := ReadLines(file);
    if read.Some? && read.value != [] {
      var lines := read.value[1..];
      LoadExactly(c, t.records, lines, |lines|);
      var loaded := LoadUpTo(c, t.records, lines, |lines|);
      if loaded.Some? && DecisionsAre(c, t.records, lines, |lines|, m) {
        SameDecisions(c, t.records, lines, |lines|, loaded.value, m);
      }
      if TaskOf(s, read.value[0]).Some? {
        TaskIsAmong(s, s.tasks, read.value[0]);
      }
      if t in s.tasks && read.value[0] == ResponseHeader(s, t) {
        var k :| 0 <= k < |s.tasks| && s.tasks[k] == t;
        TaskFound(s, s.tasks, k);
      }
    }
  }

  // ---------------------------------------------------------------- salvage

  /** What salvage has kept after k lines: the first valid decision for each message of the task. */
  function SalvageUpTo(c: Checks, records: seq<Record>, file: seq<Line>, k: nat): map<Id, Decision>
    requires k <= |file|
  {
    if k == 0 then map[]
    else
      var m := SalvageUpTo(c, records, file, k - 1);
      if IsHeader(file[k - 1]) then m
      else
        match DecisionOf(c, records, file[k - 1])
        case None => m
        case Some(d) => if d.id in m then m else m[d.id := d]
  }

  function SalvageMap(c: Checks, t: Task, file: seq<Line>): map<Id, Decision> {
    SalvageUpTo(c, t.records, file, |file|)
  }

  /** The decisions of a map as lines, in the order of the records. */
  function Ordered(records: seq<Record>, m: map<Id, Decision>, k: nat): (lines: seq<Line>)
    requires k <= |records|
    ensures forall l | l in lines :: l.Object?
  {
    if k == 0 then []
    else Ordered(records, m, k - 1) + if records[k - 1].id in m then [LineOf(m[records[k - 1].id])] else []
  }

  function Salvaged(c: Checks, s: Session, t: Task, file: seq<Line>): seq<Line> {
    [ResponseHeader(s, t)] + Ordered(t.records, SalvageMap(c, t, file), |t.records|)
  }

  /** `jsonl_text` of the decisions of a map, in the order of the records. */
  method WriteInOrder(records: seq<Record>, m: map<Id, Decision>) returns (lines: seq<Line>)
    ensures lines == Ordered(records, m, |records|)
  {
    hide LineOf;
    lines := [];
    for k := 0 to |records|
      invariant lines == Ordered(records, m, k)
    {
      if records[k].id in m {
        lines := lines + [LineOf(m[records[k].id])];
      }
    }
  }

  method Salvage(c: Checks, s: Session, t: Task, file: seq<Line>) returns (rebuilt: seq<Line>)
    ensures rebuilt == Salvaged(c, s, t, file)
  {
    hide Validate;
    hide RecordFor;
    hide IsHeader;
    hide Ordered;
    hide ResponseHeader;
    var decisions: map<Id, Decision> := map[];
    for k := 0 to |file|
      invariant decisions == SalvageUpTo(c, t.records, file, k)
    {
      var line := file[k];
      if !line.Object? || IsHeader(line) {
        NoObjectIsNoHeader(line);
        continue;
      }
      if !line.id.Named? || RecordFor(t.records, line.id.id).None? {
        continue;
      }
      var d := Validate(c, RecordFor(t.records, line.id.id).value, line.id, line.fields);
      if d.None? {
        continue;
      }
      if d.value.id in decisions && decisions[d.value.id] != d.value {
        continue;
      }
      SalvageIsNamed(c, t.records, file, k);
      decisions := decisions[d.value.id := d.value];
    }
    var lines := WriteInOrder(t.records, decisions);
    rebuilt := [ResponseHeader(s, t)] + lines;
  }

  lemma NoObjectIsNoHeader(l: Line)
    ensures IsHeader(l) ==> l.Object?
  {
  }

  lemma SalvageIsNamed(c: Checks, records: seq<Record>, file: seq<Line>, k: nat)
    requires k <= |file|
    ensures forall id | id in SalvageUpTo(c, records, file, k) :: SalvageUpTo(c, records, file, k)[id].id == id
  {
  }
}

/** Semantic review sessions, scripts/translation/review_ts.py: results are bound to a digest of the
    exact translation, and a new session keeps the results of an earlier one where that is unchanged. */
module SemanticReview {
  import opened Wrappers
  import opened Decisions
  import opened Responses
  import opened Catalogs

  const SCHEMA := "duckstation-semantic-review-v1"

  /** What `record_digest` hashes; the hash is taken as injective. */
  datatype Digest = Digest(id: Id, kind: string, translation: Option<string>, plurals: seq<string>, comment: string)

  function DigestOf(r: Record): Digest {
    Digest(r.id, r.currentType, r.currentTranslation, r.currentPlurals, r.translatorComment)
  }

  /** A review session: everything but the journal never changes once it is started. `previous` is the
      session it was started from, by its place among all of them. */
  datatype Review = Review(
    session: Session, attributes: map<string, string>, guidance: Option<string>, snapshot: string,
    previous: Option<nat>, journal: seq<Line>)

  // ---------------------------------------------------------------- results

  const RESULT_FIELDS: set<string> := {"outcome", "reason", "source_reason", "findings", "reviewer"}
  const FINDING_FIELDS: set<string> := {"severity", "category", "reason", "translation", "plural_translations"}
  const SEVERITIES: set<Json> := {Text("high"), Text("medium"), Text("low")}
  const CATEGORIES: set<Json> := {Text("accuracy"), Text("fluency"), Text("terminology"), Text("format")}

  /** What Python takes as false. */
  predicate Falsy(j: Json) {
    match j
    case Null => true
    case Bool(b) => !b
    case Text(s) => s == ""
    case List(items) => items == []
    case Dict(entries) => entries == map[]
    case Other(text) => text == "0" || text == "0.0" || text == "-0.0"
  }

  predicate HasText(fields: map<string, Json>, field: string) {
    field in fields && fields[field].Text? && !Decisions.Blank(fields[field].s)
  }

  predicate IsPass(l: Line) {
    l.Object? && "outcome" in l.fields && l.fields["outcome"] == Text("pass")
  }

  /** A pass says that the current text is acceptable, and why if it equals the source. */
  predicate ValidPass(c: Checks, r: Record, fields: map<string, Json>) {
    && ("findings" in fields ==> Falsy(fields["findings"]))
    && Validate(c, r, Named(r.id), map["accept_current" := Bool(true)]).Some?
    && (r.id.source in CurrentValue(r).Texts() ==> HasText(fields, "source_reason"))
  }

  /** The text that a finding proposes, as a decision. */
  function ReplacementOf(finding: map<string, Json>): map<string, Json> {
    map f | f in finding && f in {"translation", "plural_translations"} :: finding[f]
  }

  predicate ValidFinding(c: Checks, r: Record, finding: Json) {
    && finding.Dict?
    && finding.entries.Keys <= FINDING_FIELDS
    && "severity" in finding.entries && finding.entries["severity"] in SEVERITIES
    && "category" in finding.entries && finding.entries["category"] in CATEGORIES
    && HasText(finding.entries, "reason")
    && Validate(c, r, Named(r.id), ReplacementOf(finding.entries)).Some?
  }

  /** `validate_result`: the result is kept as it is. */
  predicate ValidResult(c: Checks, r: Record, l: Line) {
    && l.Object?
    && l.fields.Keys <= RESULT_FIELDS
    && l.id == Named(r.id)
    && "outcome" in l.fields
    && HasText(l.fields, "reviewer")
    && if l.fields["outcome"] == Text("pass") then ValidPass(c, r, l.fields)
       else if l.fields["outcome"] == Text("needs_context") then HasText(l.fields, "reason")
       else
         && l.fields["outcome"] == Text("finding")
         && "findings" in l.fields && l.fields["findings"].List? && l.fields["findings"].items != []
         && forall f | f in l.fields["findings"].items :: ValidFinding(c, r, f)
  }

  predicate Accepted(c: Checks, records: seq<Record>, l: Line) {
    && l.Object? && l.id.Named?
    && RecordFor(records, l.id.id).Some? && ValidResult(c, RecordFor(records, l.id.id).value, l)
  }

  /** The results of the first k lines; None if one is invalid, unowned or repeated. */
  function ResultsUpTo(c: Checks, records: seq<Record>, lines: seq<Line>, k: nat): Option<map<Id, Line>>
    requires k <= |lines|
  {
    if k == 0 then Some(map[])
    else
      match ResultsUpTo(c, records, lines, k - 1)
      case None => None
      case Some(m) =>
        var l := lines[k - 1];
        if !Accepted(c, records, l) || l.id.id in m then None else Some(m[l.id.id := l])
  }

  function Header(s: Session): Line {
    Object(NoId, map[RECORD_TYPE := Text("metadata"), "schema" := Text(SCHEMA), "session_id" := Text(s.name)])
  }

  function TaskHeader(s: Session, t: Task): Line {
    Object(NoId, Header(s).fields["task_id" := Text(t.name)]["task_sha256" := Text(t.sha256)])
  }

  function TaskWith(s: Session, tasks: seq<Task>, header: Line): Option<Task> {
    if tasks == [] then None
    else if TaskHeader(s, tasks[0]) == header then Some(tasks[0])
    else TaskWith(s, tasks[1..], header)
  }

  /** `load_journal`. */
  function LoadResults(c: Checks, s: Session, file: seq<Line>): Option<map<Id, Line>> {
    match ReadLines(file)
    case None => None
    case Some(lines) =>
      if lines == [] || lines[0] != Header(s) then None
      else ResultsUpTo(c, AllRecords(s), lines[1..], |lines| - 1)
  }

  /** `load_response`. */
  function LoadResultsOfTask(c: Checks, s: Session, file: seq<Line>): Option<map<Id, Line>> {
    match ReadLines(file)
    case None => None
    case Some(lines) =>
      if lines == [] then None
      else
        match TaskWith(s, s.tasks, lines[0])
        case None => None
        case Some(task) => ResultsUpTo(c, task.records, lines[1..], |lines| - 1)
  }

  /** Results as lines, in the order of the records. */
  function InRecordOrder(records: seq<Record>, m: map<Id, Line>, k: nat): (lines: seq<Line>)
    requires k <= |records|
  {
    if k == 0 then []
    else InRecordOrder(records, m, k - 1) + if records[k - 1].id in m then [m[records[k - 1].id]] else []
  }

  function Journal(s: Session, m: map<Id, Line>): seq<Line> {
    [Header(s)] + InRecordOrder(AllRecords(s), m, |AllRecords(s)|)
  }

  // ---------------------------------------------------------------- starting a session

  predicate IsInactive(kind: string) {
    kind == "vanished" || kind == "obsolete"
  }

  /** The records of the messages to review, in the order of the catalog. */
  function Targets(pieces: seq<Piece>, ids: Option<set<Id>>, language: string): seq<Record> {
    if pieces == [] then []
    else
      var m := pieces[0].message;
      var rest := Targets(pieces[1..], ids, language);
      if IsInactive(m.state.kind) || (ids.Some? && m.id !in ids.value) then rest else [RecordOf(m, language)] + rest
  }

  function IdsOf(records: seq<Record>): set<Id> {
    set r | r in records :: r.id
  }

  /** The results of the earlier session that still hold. */
  function Retained(earlier: Review, results: map<Id, Line>, attributes: map<string, string>, guidance: Option<string>,
                    records: seq<Record>): map<Id, Line>
  {
    if earlier.attributes != attributes || earlier.guidance != guidance then map[]
    else map id | id in results && SameText(AllRecords(earlier.session), records, id) :: results[id]
  }

  predicate SameText(before: seq<Record>, now: seq<Record>, id: Id) {
    && RecordFor(before, id).Some? && RecordFor(now, id).Some?
    && DigestOf(RecordFor(before, id).value) == DigestOf(RecordFor(now, id).value)
  }

  /** What `split_tasks` promises of the tasks of a session: together they are its records, and their
      numbered names differ. */
  ghost predicate IsSplit(tasks: seq<Task>, records: seq<Record>) {
    && RecordsUpTo(tasks, |tasks|) == records
    && (forall i, j :: 0 <= i < j < |tasks| ==> tasks[i].name != tasks[j].name)
  }

  /** What is asked of `start_session`, apart from the sessions there already are. */
  datatype Request = Request(
    name: string, catalog: Catalog, ids: Option<set<Id>>, guidance: Option<string>, previous: Option<nat>,
    tasks: seq<Task>)

  function Records(q: Request): seq<Record> {
    var attributes := q.catalog.attributes;
    Targets(q.catalog.pieces, q.ids, if "language" in attributes then attributes["language"] else "")
  }

  function StartReview(c: Checks, reviews: seq<Review>, q: Request): Option<Review> {
    if !DistinctIds(q.catalog.pieces) then None
    else if q.ids.Some? && IdsOf(Records(q)) != q.ids.value then None
    else if "language" !in q.catalog.attributes || q.catalog.attributes["language"] == "" then None
    else
      match RetainedFor(c, reviews, q)
      case None => None
      case Some(retained) =>
        var s := Session(q.name, q.tasks);
        Some(Review(s, q.catalog.attributes, q.guidance, FileText(q.catalog), q.previous, Journal(s, retained)))
  }

  /** The results to keep; None if the earlier session does not load. */
  function RetainedFor(c: Checks, reviews: seq<Review>, q: Request): Option<map<Id, Line>> {
    if q.previous.None? then Some(map[])
    else if q.previous.value >= |reviews| then None
    else
      var earlier := reviews[q.previous.value];
      match LoadResults(c, earlier.session, earlier.journal)
      case None => None
      case Some(results) => Some(Retained(earlier, results, q.catalog.attributes, q.guidance, Records(q)))
  }

  // ---------------------------------------------------------------- merging and approval

  ghost function MergeResultsUpTo(c: Checks, s: Session, results: map<Id, Line>, files: seq<seq<Line>>, k: nat,
                                  replace: bool): Option<map<Id, Line>>
    requires k <= |files|
  {
    if k == 0 then Some(results)
    else
      match MergeResultsUpTo(c, s, results, files, k - 1, replace)
      case None => None
      case Some(m) =>
        match LoadResultsOfTask(c, s, files[k - 1])
        case None => None
        case Some(incoming) =>
          if !replace && exists id :: id in m && id in incoming && m[id] != incoming[id] then None
          else Some(m + incoming)
  }

  /** `merge`: the catalog the session was started on must still be what it was. */
  ghost function MergeReview(c: Checks, review: Review, catalogText: string, files: seq<seq<Line>>,
                             replace: bool): Option<Review> {
    match LoadResults(c, review.session, review.journal)
    case None => None
    case Some(results) =>
      if catalogText != review.snapshot then None
      else
        match MergeResultsUpTo(c, review.session, results, files, |files|, replace)
        case None => None
        case Some(merged) => Some(review.(journal := Journal(review.session, merged)))
  }

  /** `require_approved`: every record has a pass for exactly its text. */
  predicate Approved(c: Checks, review: Review, attributes: map<string, string>, records: seq<Record>) {
    match LoadResults(c, review.session, review.journal)
    case None => false
    case Some(results) =>
      && review.attributes == attributes
      && forall r | r in records ::
           && RecordFor(AllRecords(review.session), r.id).Some?
           && DigestOf(r) == DigestOf(RecordFor(AllRecords(review.session), r.id).value)
           && r.id in results && IsPass(results[r.id])
  }
}

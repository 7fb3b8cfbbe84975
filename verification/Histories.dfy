/** Whole histories of a translation session: an environment that edits the catalog and hands in any
    response files at all, and the commands merge, apply and prepare-review of translate_ts.py with start
    and merge of review_ts.py, in any order. A command that fails leaves everything as it was. */
module Histories {
  import opened Wrappers
  import opened Decisions
  import opened Responses
  import opened Salvage
  import opened Merging
  import opened SessionRecords
  import opened Catalogs
  import opened SemanticReview
  import opened ReviewResults
  import opened Applying
  import opened ApplyResults

  /** `given` remembers every result that a response has carried into a review session. */
  datatype World = World(catalog: Catalog, journal: seq<Line>, reviews: seq<Review>, quality: Option<nat>,
                         given: set<(nat, Line)>)

  datatype Action =
    | Edits(catalog: Catalog)
    | Merges(files: seq<seq<Line>>, replace: bool)
    | Applies(reviewedOnly: bool)
    | Prepares(reviewedOnly: bool, name: string, tasks: seq<Task>)
    | StartsReview(request: Request)
    | MergesReview(k: nat, catalogText: string, files: seq<seq<Line>>, replace: bool)

  // ---------------------------------------------------------------- steps

  function LoadAll(c: Checks, s: Session, files: seq<seq<Line>>, k: nat): Option<seq<map<Id, Decision>>>
    requires k <= |files|
  {
    if k == 0 then Some([])
    else
      match LoadAll(c, s, files, k - 1)
      case None => None
      case Some(responses) =>
        match LoadResponse(c, s, files[k - 1])
        case None => None
        case Some(r) => Some(responses + [r.1])
  }

  /** `merge --write`. */
  ghost function MergeJournal(env: Env, p: Project, journal: seq<Line>, files: seq<seq<Line>>,
                              replace: bool): Option<seq<Line>> {
    match LoadJournal(env.checks, p.session, journal)
    case None => None
    case Some(reviews) =>
      match LoadAll(env.checks, p.session, files, |files|)
      case None => None
      case Some(responses) =>
        match Merged(reviews, responses, replace)
        case None => None
        case Some(merged) => Some(WrittenJournal(p.session, merged))
  }

  function Digests(records: seq<Record>): set<Digest> {
    set r | r in records :: DigestOf(r)
  }

  /** The review that `prepare-review` last started is of exactly this text. */
  predicate Prepared(review: Review, staged: Staged) {
    && review.attributes == staged.catalog.attributes
    && review.snapshot == FileText(staged.catalog)
    && Digests(AllRecords(review.session)) == Digests(StagedRecords(staged.catalog.pieces, staged.selected))
  }

  function PrepareRequest(p: Project, staged: Staged, quality: Option<nat>, name: string, tasks: seq<Task>): Request {
    Request(name, staged.catalog, Some(IdsOf(staged.selected)), p.guidance, quality, tasks)
  }

  function Quality(w: World): Option<Review> {
    if w.quality.Some? && w.quality.value < |w.reviews| then Some(w.reviews[w.quality.value]) else None
  }

  /** The results that the first n responses carry. */
  function GivenIn(c: Checks, s: Session, files: seq<seq<Line>>, k: nat, n: nat): set<(nat, Line)>
    requires n <= |files|
  {
    if n == 0 then {}
    else
      GivenIn(c, s, files, k, n - 1) +
      match LoadResultsOfTask(c, s, files[n - 1])
      case None => {}
      case Some(m) => set id | id in m :: (k, m[id])
  }

  ghost function Started(env: Env, w: World, q: Request): World {
    match StartReview(env.checks, w.reviews, q)
    case None => w
    case Some(r) => if IsSplit(q.tasks, Records(q)) then w.(reviews := w.reviews + [r]) else w
  }

  ghost function Next(env: Env, p: Project, w: World, a: Action): World {
    match a
    case Edits(catalog) => w.(catalog := catalog)
    case Merges(files, replace) =>
      (match MergeJournal(env, p, w.journal, files, replace)
       case None => w
       case Some(journal) => w.(journal := journal))
    case Applies(reviewedOnly) =>
      (match Apply(env, p, w.journal, w.catalog, Quality(w), reviewedOnly)
       case None => w
       case Some(catalog) => w.(catalog := catalog))
    case Prepares(reviewedOnly, name, tasks) =>
      (match Stage(env, p, w.journal, w.catalog, reviewedOnly)
       case None => w
       case Some(staged) =>
         if Quality(w).Some? && Prepared(Quality(w).value, staged) then w
         else
           var started := Started(env, w, PrepareRequest(p, staged, w.quality, name, tasks));
           if |started.reviews| == |w.reviews| then w else started.(quality := Some(|w.reviews|)))
    case StartsReview(q) => Started(env, w, q)
    case MergesReview(k, catalogText, files, replace) =>
      if k >= |w.reviews| then w
      else
        match MergeReview(env.checks, w.reviews[k], catalogText, files, replace)
        case None => w
        case Some(r) =>
          w.(reviews := w.reviews[k := r],
             given := w.given + GivenIn(env.checks, w.reviews[k].session, files, k, |files|))
  }

  ghost function Run(env: Env, p: Project, w: World, actions: seq<Action>): World {
    if actions == [] then w else Next(env, p, Run(env, p, w, actions[..|actions| - 1]), actions[|actions| - 1])
  }

  /** A session right after it was started, on any catalog. */
  ghost predicate Fresh(p: Project, w: World) {
    && ValidSession(p.session) && w.journal == WrittenJournal(p.session, map[])
    && w.reviews == [] && w.quality == None && w.given == {}
  }

  // ---------------------------------------------------------------- the invariant

  /** Review b was started from a and a message reads the same in both. */
  ghost predicate Bound(a: Review, b: Review, id: Id) {
    && a.attributes == b.attributes && a.guidance == b.guidance
    && SameText(AllRecords(a.session), AllRecords(b.session), id)
  }

  /** The result was given in review session k, or in the one it was started from to the same text. */
  ghost predicate Given(reviews: seq<Review>, given: set<(nat, Line)>, k: nat, id: Id, l: Line)
    requires k < |reviews|
    decreases k
  {
    || (k, l) in given
    || (var from := reviews[k].previous;
        && from.Some? && from.value < k && Bound(reviews[from.value], reviews[k], id)
        && Given(reviews, given, from.value, id, l))
  }

  ghost predicate GoodJournal(env: Env, p: Project, journal: seq<Line>) {
    && LoadJournal(env.checks, p.session, journal).Some?
    && var m := LoadJournal(env.checks, p.session, journal).value; forall id | id in m :: !m[id].choice.NeedsContext?
  }

  ghost predicate GoodReview(c: Checks, reviews: seq<Review>, given: set<(nat, Line)>, k: nat)
    requires k < |reviews|
  {
    && WellFormed(reviews[k])
    && LoadResults(c, reviews[k].session, reviews[k].journal).Some?
    && var m := LoadResults(c, reviews[k].session, reviews[k].journal).value;
       forall id | id in m :: Given(reviews, given, k, id, m[id])
  }

  ghost predicate Inv(env: Env, p: Project, w: World) {
    && ValidSession(p.session)
    && GoodJournal(env, p, w.journal)
    && (forall k: nat | k < |w.reviews| :: GoodReview(env.checks, w.reviews, w.given, k))
    && (w.quality.Some? ==> w.quality.value < |w.reviews|)
  }

  // ---------------------------------------------------------------- merging keeps it

  lemma LiftValid(c: Checks, s: Session, t: Task, m: map<Id, Decision>)
    requires DistinctRecords(AllRecords(s)) && t in s.tasks && ValidMap(c, t.records, m)
    ensures ValidMap(c, AllRecords(s), m)
  {
    hide AllRecords;
    hide DistinctRecords;
    hide IsNormal;
    hide RecordFor;
    forall id | id in m
      ensures RecordFor(AllRecords(s), id) == RecordFor(t.records, id)
    {
      FoundInAll(s, t, id);
    }
  }

  lemma LoadedResponseValid(c: Checks, s: Session, file: seq<Line>)
    requires DistinctRecords(AllRecords(s)) && LoadResponse(c, s, file).Some?
    ensures ValidMap(c, AllRecords(s), LoadResponse(c, s, file).value.1)
  {
    hide LoadUpTo;
    hide AllRecords;
    hide DistinctRecords;
    hide ValidMap;
    hide ResponseHeader;
    hide TaskAmong;
    var lines := ReadLines(file).value;
    var task := TaskOf(s, lines[0]).value;
    TaskIsAmong(s, s.tasks, lines[0]);
    LoadIsValid(c, task.records, lines[1..], |lines| - 1);
    LiftValid(c, s, task, LoadResponse(c, s, file).value.1);
  }

  lemma {:induction false} AllLoadedValid(c: Checks, s: Session, files: seq<seq<Line>>, k: nat)
    requires DistinctRecords(AllRecords(s)) && k <= |files| && LoadAll(c, s, files, k).Some?
    ensures forall m | m in LoadAll(c, s, files, k).value :: ValidMap(c, AllRecords(s), m)
  {
    hide LoadResponse;
    hide AllRecords;
    hide DistinctRecords;
    hide ValidMap;
    if k > 0 {
      AllLoadedValid(c, s, files, k - 1);
      LoadedResponseValid(c, s, files[k - 1]);
    }
  }

  lemma MergeJournalIs(env: Env, p: Project, journal: seq<Line>, files: seq<seq<Line>>, replace: bool)
    requires MergeJournal(env, p, journal, files, replace).Some?
    ensures LoadJournal(env.checks, p.session, journal).Some? && LoadAll(env.checks, p.session, files, |files|).Some?
    ensures var before := LoadJournal(env.checks, p.session, journal).value;
            var responses := LoadAll(env.checks, p.session, files, |files|).value;
            && MergeUpTo(before, responses, |responses|, replace).Some?
            && MergeJournal(env, p, journal, files, replace).value
               == WrittenJournal(p.session, MergeUpTo(before, responses, |responses|, replace).value)
  {
    hide LoadJournal;
    hide LoadAll;
    hide MergeUpTo;
    hide WrittenJournal;
  }

  lemma MergeKeepsGood(env: Env, p: Project, journal: seq<Line>, files: seq<seq<Line>>, replace: bool)
    requires ValidSession(p.session) && GoodJournal(env, p, journal)
    requires MergeJournal(env, p, journal, files, replace).Some?
    ensures GoodJournal(env, p, MergeJournal(env, p, journal, files, replace).value)
  {
    hide *;
    MergeJournalIs(env, p, journal, files, replace);
    var c, s := env.checks, p.session;
    var before, responses := LoadJournal(c, s, journal).value, LoadAll(c, s, files, |files|).value;
    DistinctAll(s);
    GoodJournalIs(env, p, journal);
    JournalIsValid(c, s, journal);
    AllLoadedValid(c, s, files, |files|);
    MergeIsValid(c, AllRecords(s), before, responses, |responses|, replace);
    var merged := MergeUpTo(before, responses, |responses|, replace).value;
    JournalRoundTrip(c, s, merged);
    GoodJournalIs(env, p, WrittenJournal(s, merged));
  }

  lemma {:induction false} LoadAllIs(c: Checks, s: Session, files: seq<seq<Line>>, k: nat)
    requires k <= |files|
    ensures LoadAll(c, s, files, k).Some? <==> forall i :: 0 <= i < k ==> LoadResponse(c, s, files[i]).Some?
    ensures LoadAll(c, s, files, k).Some? ==>
              var responses := LoadAll(c, s, files, k).value;
              && |responses| == k
              && forall i :: 0 <= i < k ==> responses[i] == LoadResponse(c, s, files[i]).value.1
  {
    hide LoadResponse;
    if k > 0 {
      LoadAllIs(c, s, files, k - 1);
    }
  }

  lemma SameFilesLoad(c: Checks, s: Session, a: seq<seq<Line>>, b: seq<seq<Line>>)
    requires forall f | f in b :: f in a
    ensures LoadAll(c, s, a, |a|).Some? ==>
              && LoadAll(c, s, b, |b|).Some?
              && forall m | m in LoadAll(c, s, b, |b|).value :: m in LoadAll(c, s, a, |a|).value
  {
    hide LoadResponse;
    hide LoadAll;
    LoadAllIs(c, s, a, |a|);
    LoadAllIs(c, s, b, |b|);
    if LoadAll(c, s, a, |a|).Some? {
      var all := LoadAll(c, s, a, |a|).value;
      forall i | 0 <= i < |b|
        ensures LoadResponse(c, s, b[i]).Some? && LoadResponse(c, s, b[i]).value.1 in all
      {
        assert b[i] in b;
        var k :| 0 <= k < |a| && a[k] == b[i];
        assert all[k] in all;
      }
    }
  }

  /** Merging response files without replacement, their loading included, succeeds or fails, and writes the
      same journal, whatever their order. */
  lemma MergeFilesAnyOrder(env: Env, p: Project, journal: seq<Line>, a: seq<seq<Line>>, b: seq<seq<Line>>)
    requires multiset(a) == multiset(b)
    ensures MergeJournal(env, p, journal, a, false) == MergeJournal(env, p, journal, b, false)
  {
    hide LoadJournal;
    hide LoadAll;
    hide Merged;
    hide WrittenJournal;
    assert forall f :: f in a <==> f in multiset(a);
    assert forall f :: f in b <==> f in multiset(b);
    var c, s := env.checks, p.session;
    SameFilesLoad(c, s, a, b);
    SameFilesLoad(c, s, b, a);
    if LoadJournal(c, s, journal).Some? && LoadAll(c, s, a, |a|).Some? {
      MergeSame(LoadJournal(c, s, journal).value, LoadAll(c, s, a, |a|).value, LoadAll(c, s, b, |b|).value);
    }
  }

  lemma GoodJournalIs(env: Env, p: Project, journal: seq<Line>)
    ensures GoodJournal(env, p, journal) <==>
              && LoadJournal(env.checks, p.session, journal).Some?
              && var m := LoadJournal(env.checks, p.session, journal).value;
                   forall id | id in m :: !m[id].choice.NeedsContext?
  {
    hide LoadJournal;
  }

  lemma FreshJournal(env: Env, p: Project)
    requires ValidSession(p.session)
    ensures GoodJournal(env, p, WrittenJournal(p.session, map[]))
  {
    hide LoadJournal;
    hide WrittenJournal;
    hide AllRecords;
    JournalRoundTrip(env.checks, p.session, map[]);
  }

  // ---------------------------------------------------------------- reviews keep it

  /** Neither journals, nor later sessions, nor more results change what was given. */
  lemma {:induction false} GivenStays(a: seq<Review>, b: seq<Review>, g: set<(nat, Line)>, h: set<(nat, Line)>, k: nat,
                                      id: Id, l: Line)
    requires k < |a| <= |b| && g <= h
    requires forall j: nat | j < |a| :: b[j] == a[j].(journal := b[j].journal)
    requires Given(a, g, k, id, l)
    ensures Given(b, h, k, id, l)
    decreases k
  {
    hide AllRecords;
    hide SameText;
    if (k, l) !in g {
      GivenStays(a, b, g, h, a[k].previous.value, id, l);
      assert b[k] == a[k].(journal := b[k].journal) && b[a[k].previous.value].session == a[a[k].previous.value].session;
    }
  }

  lemma GoodReviewIs(c: Checks, reviews: seq<Review>, given: set<(nat, Line)>, k: nat)
    requires k < |reviews|
    ensures GoodReview(c, reviews, given, k) <==>
              && WellFormed(reviews[k])
              && LoadResults(c, reviews[k].session, reviews[k].journal).Some?
              && var m := LoadResults(c, reviews[k].session, reviews[k].journal).value;
                 forall id | id in m :: Given(reviews, given, k, id, m[id])
  {
    hide Given;
    hide LoadResults;
    hide WellFormed;
  }

  /** A session that keeps its journal stays good. */
  lemma GoodStays(c: Checks, a: seq<Review>, b: seq<Review>, g: set<(nat, Line)>, h: set<(nat, Line)>, k: nat)
    requires k < |a| <= |b| && g <= h && b[k] == a[k]
    requires forall j: nat | j < |a| :: b[j] == a[j].(journal := b[j].journal)
    requires GoodReview(c, a, g, k)
    ensures GoodReview(c, b, h, k)
  {
    hide *;
    GoodReviewIs(c, a, g, k);
    GoodReviewIs(c, b, h, k);
    var m := LoadResults(c, a[k].session, a[k].journal).value;
    forall id | id in m
      ensures Given(b, h, k, id, m[id])
    {
      GivenStays(a, b, g, h, k, id, m[id]);
    }
  }

  lemma RetainedIs(earlier: Review, results: map<Id, Line>, attributes: map<string, string>, guidance: Option<string>,
                   records: seq<Record>, id: Id)
    requires id in Retained(earlier, results, attributes, guidance, records)
    ensures id in results && Retained(earlier, results, attributes, guidance, records)[id] == results[id]
    ensures earlier.attributes == attributes && earlier.guidance == guidance
    ensures SameText(AllRecords(earlier.session), records, id)
  {
    hide AllRecords;
    hide SameText;
  }

  lemma GivenByPrevious(reviews: seq<Review>, given: set<(nat, Line)>, k: nat, id: Id, l: Line)
    requires k < |reviews| && reviews[k].previous.Some? && reviews[k].previous.value < k
    requires var from := reviews[reviews[k].previous.value];
             && from.attributes == reviews[k].attributes && from.guidance == reviews[k].guidance
             && SameText(AllRecords(from.session), AllRecords(reviews[k].session), id)
    requires Given(reviews, given, reviews[k].previous.value, id, l)
    ensures Given(reviews, given, k, id, l)
  {
    hide AllRecords;
    hide SameText;
  }

  /** A new review session starts good: each result it keeps was given to the same text. */
  lemma StartIsGood(c: Checks, reviews: seq<Review>, given: set<(nat, Line)>, q: Request)
    requires (forall k: nat | k < |reviews| :: GoodReview(c, reviews, given, k)) && IsSplit(q.tasks, Records(q))
    requires StartReview(c, reviews, q).Some?
    ensures GoodReview(c, reviews + [StartReview(c, reviews, q).value], given, |reviews|)
  {
    hide *;
    var r := StartReview(c, reviews, q).value;
    var all, n := reviews + [r], |reviews|;
    forall e | e in reviews
      ensures WellFormed(e)
    {
      var k: nat :| k < |reviews| && reviews[k] == e;
      GoodReviewIs(c, reviews, given, k);
    }
    StartReviewIs(c, reviews, q);
    StartedLoads(c, reviews, q);
    RetainedForIs(c, reviews, q);
    TargetsDistinct(q.catalog.pieces, q.ids, q.catalog.attributes["language"]);
    SessionOf(q.name, q.tasks, Records(q));
    var m := LoadResults(c, r.session, r.journal).value;
    GoodReviewIs(c, all, given, n);
    forall id | id in m
      ensures Given(all, given, n, id, m[id])
    {
      var from := q.previous.value;
      var earlier := reviews[from];
      var results := LoadResults(c, earlier.session, earlier.journal).value;
      RetainedIs(earlier, results, q.catalog.attributes, q.guidance, Records(q), id);
      GoodReviewIs(c, reviews, given, from);
      GivenStays(reviews, all, given, given, from, id, m[id]);
      GivenByPrevious(all, given, n, id, m[id]);
    }
  }

  lemma {:induction false} CarriedIsGiven(c: Checks, s: Session, files: seq<seq<Line>>, k: nat, n: nat, i: nat, id: Id,
                                          l: Line)
    requires i < n <= |files| && Carries(c, s, files[i], id, l)
    ensures (k, l) in GivenIn(c, s, files, k, n)
  {
    hide LoadResultsOfTask;
    if i < n - 1 {
      CarriedIsGiven(c, s, files, k, n - 1, i, id, l);
    }
  }

  lemma GivenNow(reviews: seq<Review>, given: set<(nat, Line)>, k: nat, id: Id, l: Line)
    requires k < |reviews| && (k, l) in given
    ensures Given(reviews, given, k, id, l)
  {
  }

  lemma FromResponsesIs(c: Checks, s: Session, results: map<Id, Line>, files: seq<seq<Line>>, k: nat, id: Id, l: Line)
    requires k <= |files| && FromResponses(c, s, results, files, k, id, l)
    ensures (id in results && results[id] == l) || exists i: nat :: i < k && Carries(c, s, files[i], id, l)
  {
    hide Carries;
  }

  lemma MergeReviewIsGood(c: Checks, reviews: seq<Review>, given: set<(nat, Line)>, k: nat, catalogText: string,
                          files: seq<seq<Line>>, replace: bool)
    requires k < |reviews| && GoodReview(c, reviews, given, k)
    requires MergeReview(c, reviews[k], catalogText, files, replace).Some?
    ensures var r := MergeReview(c, reviews[k], catalogText, files, replace).value;
            && r == reviews[k].(journal := r.journal)
            && GoodReview(c, reviews[k := r], given + GivenIn(c, reviews[k].session, files, k, |files|), k)
  {
    hide *;
    GoodReviewIs(c, reviews, given, k);
    MergedLoads(c, reviews[k], catalogText, files, replace);
    var s, r := reviews[k].session, MergeReview(c, reviews[k], catalogText, files, replace).value;
    var all, more := reviews[k := r], given + GivenIn(c, s, files, k, |files|);
    var before, m := LoadResults(c, s, reviews[k].journal).value, LoadResults(c, s, r.journal).value;
    GoodReviewIs(c, all, more, k);
    forall id | id in m
      ensures Given(all, more, k, id, m[id])
    {
      FromResponsesIs(c, s, before, files, |files|, id, m[id]);
      if id in before && before[id] == m[id] {
        GivenStays(reviews, all, given, more, k, id, m[id]);
      } else {
        var i: nat :| i < |files| && Carries(c, s, files[i], id, m[id]);
        CarriedIsGiven(c, s, files, k, |files|, i, id, m[id]);
        GivenNow(all, more, k, id, m[id]);
      }
    }
  }
}

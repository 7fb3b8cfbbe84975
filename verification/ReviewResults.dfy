/** Review journals always load: what a session keeps of an earlier one, and what is merged into it, is
    valid for its own records. */
module ReviewResults {
  import opened Wrappers
  import opened Decisions
  import opened Responses
  import opened Salvage
  import opened SessionRecords
  import opened Catalogs
  import opened SemanticReview

  ghost predicate ValidResults(c: Checks, records: seq<Record>, m: map<Id, Line>) {
    forall id | id in m :: Accepted(c, records, m[id]) && m[id].id.id == id
  }

  lemma {:induction false} ResultsAreValid(c: Checks, records: seq<Record>, lines: seq<Line>, k: nat)
    requires k <= |lines| && ResultsUpTo(c, records, lines, k).Some?
    ensures ValidResults(c, records, ResultsUpTo(c, records, lines, k).value)
  {
    hide ValidResult;
    hide RecordFor;
    if k > 0 {
      ResultsAreValid(c, records, lines, k - 1);
    }
  }

  lemma {:induction false} ResultsPrefix(c: Checks, records: seq<Record>, lines: seq<Line>, more: seq<Line>, k: nat)
    requires k <= |lines|
    ensures ResultsUpTo(c, records, lines + more, k) == ResultsUpTo(c, records, lines, k)
  {
    hide Accepted;
    if k > 0 {
      ResultsPrefix(c, records, lines, more, k - 1);
    }
  }

  lemma ResultsAppend(c: Checks, records: seq<Record>, lines: seq<Line>, l: Line, m: map<Id, Line>)
    requires ResultsUpTo(c, records, lines, |lines|) == Some(m)
    requires Accepted(c, records, l) && l.id.id !in m
    ensures ResultsUpTo(c, records, lines + [l], |lines| + 1) == Some(m[l.id.id := l])
  {
    hide ValidResult;
    ResultsPrefix(c, records, lines, [l], |lines|);
  }

  lemma {:induction false} InRecordOrderLoads(c: Checks, records: seq<Record>, m: map<Id, Line>, k: nat)
    requires ValidResults(c, records, m) && DistinctRecords(records) && k <= |records|
    ensures var lines := InRecordOrder(records, m, k);
            && ResultsUpTo(c, records, lines, |lines|) == Some(Restricted(records, m, k))
            && forall l | l in lines :: l.Object?
  {
    hide ValidResult;
    hide RecordFor;
    hide Restricted;
    hide DistinctRecords;
    if k == 0 {
      RestrictedNothing(records, m);
    } else {
      InRecordOrderLoads(c, records, m, k - 1);
      RestrictedStep(records, m, k);
      var id := records[k - 1].id;
      if id in m {
        ResultsAppend(c, records, InRecordOrder(records, m, k - 1), m[id], Restricted(records, m, k - 1));
      } else {
        assert InRecordOrder(records, m, k) == InRecordOrder(records, m, k - 1);
      }
    }
  }

  /** Writing a review journal and loading it gives the same results. */
  lemma ReviewJournalRoundTrip(c: Checks, s: Session, m: map<Id, Line>)
    requires DistinctRecords(AllRecords(s)) && ValidResults(c, AllRecords(s), m)
    ensures LoadResults(c, s, Journal(s, m)) == Some(m)
  {
    hide ResultsUpTo;
    hide ReadLines;
    hide AllRecords;
    hide DistinctRecords;
    hide ValidResult;
    hide RecordFor;
    var records := AllRecords(s);
    var lines := InRecordOrder(records, m, |records|);
    InRecordOrderLoads(c, records, m, |records|);
    RestrictedAll(records, m);
    WrittenLines(Header(s), lines);
    assert ([Header(s)] + lines)[1..] == lines;
  }

  lemma LoadedAreValid(c: Checks, s: Session, file: seq<Line>)
    requires LoadResults(c, s, file).Some?
    ensures ValidResults(c, AllRecords(s), LoadResults(c, s, file).value)
  {
    hide ResultsUpTo;
    hide AllRecords;
    hide ValidResults;
    var lines := ReadLines(file).value;
    ResultsAreValid(c, AllRecords(s), lines[1..], |lines| - 1);
  }

  lemma {:induction false} TaskWithIsAmong(s: Session, tasks: seq<Task>, header: Line)
    requires TaskWith(s, tasks, header).Some?
    ensures TaskWith(s, tasks, header).value in tasks
  {
    if TaskHeader(s, tasks[0]) != header {
      TaskWithIsAmong(s, tasks[1..], header);
    }
  }

  lemma ResponseIsValid(c: Checks, s: Session, file: seq<Line>)
    requires DistinctRecords(AllRecords(s)) && LoadResultsOfTask(c, s, file).Some?
    ensures ValidResults(c, AllRecords(s), LoadResultsOfTask(c, s, file).value)
  {
    hide ResultsUpTo;
    hide AllRecords;
    hide DistinctRecords;
    hide ValidResult;
    hide RecordFor;
    hide TaskWith;
    hide TaskHeader;
    var lines := ReadLines(file).value;
    TaskWithIsAmong(s, s.tasks, lines[0]);
    var task := TaskWith(s, s.tasks, lines[0]).value;
    ResultsAreValid(c, task.records, lines[1..], |lines| - 1);
    var m := LoadResultsOfTask(c, s, file).value;
    forall id | id in m
      ensures Accepted(c, AllRecords(s), m[id])
    {
      FoundInAll(s, task, id);
    }
  }

  // ---------------------------------------------------------------- the records of a review

  /** The records of a review session are those of its catalog's messages, in its language. */
  ghost predicate WellFormed(r: Review) {
    && ValidSession(r.session)
    && "language" in r.attributes
    && forall q | q in AllRecords(r.session) :: q.language == r.attributes["language"]
  }

  lemma {:induction false} TargetsAre(pieces: seq<Piece>, ids: Option<set<Id>>, language: string)
    ensures forall r | r in Targets(pieces, ids, language) ::
              r.language == language && exists i :: 0 <= i < |pieces| && r == RecordOf(pieces[i].message, language)
  {
    if pieces != [] {
      var rest := pieces[1..];
      TargetsAre(rest, ids, language);
      forall r | r in Targets(pieces, ids, language)
        ensures r.language == language && exists i :: 0 <= i < |pieces| && r == RecordOf(pieces[i].message, language)
      {
        if r in Targets(rest, ids, language) {
          var i :| 0 <= i < |rest| && r == RecordOf(rest[i].message, language);
          assert pieces[i + 1] == rest[i];
        } else {
          assert r == RecordOf(pieces[0].message, language);
        }
      }
    }
  }

  lemma {:induction false} TargetsDistinct(pieces: seq<Piece>, ids: Option<set<Id>>, language: string)
    requires DistinctIds(pieces)
    ensures DistinctRecords(Targets(pieces, ids, language))
  {
    if pieces != [] {
      var rest := pieces[1..];
      TargetsDistinct(rest, ids, language);
      TargetsAre(rest, ids, language);
      var more := Targets(rest, ids, language);
      forall i | 0 <= i < |more|
        ensures more[i].id != pieces[0].message.id
      {
        assert more[i] in more;
        var j :| 0 <= j < |rest| && more[i] == RecordOf(rest[j].message, language);
        assert pieces[j + 1] == rest[j];
      }
    }
  }

  /** Equal digests in the same language are equal records: what was valid for one is for the other. */
  lemma SameRecordByDigest(a: Record, b: Record)
    requires DigestOf(a) == DigestOf(b) && a.language == b.language
    ensures a == b
  {
  }

  lemma RetainedIsValid(c: Checks, earlier: Review, results: map<Id, Line>, attributes: map<string, string>,
                        guidance: Option<string>, records: seq<Record>)
    requires WellFormed(earlier) && ValidResults(c, AllRecords(earlier.session), results)
    requires "language" in attributes && forall r | r in records :: r.language == attributes["language"]
    ensures ValidResults(c, records, Retained(earlier, results, attributes, guidance, records))
  {
    hide ValidResult;
    hide RecordFor;
    hide AllRecords;
    hide ValidSession;
    var kept := Retained(earlier, results, attributes, guidance, records);
    forall id | id in kept
      ensures Accepted(c, records, kept[id])
    {
      FoundIsRecord(records, id);
      FoundIsRecord(AllRecords(earlier.session), id);
      SameRecordByDigest(RecordFor(records, id).value, RecordFor(AllRecords(earlier.session), id).value);
    }
  }

  // ---------------------------------------------------------------- new and merged journals

  lemma SessionOf(name: string, tasks: seq<Task>, records: seq<Record>)
    requires IsSplit(tasks, records) && DistinctRecords(records)
    ensures AllRecords(Session(name, tasks)) == records && ValidSession(Session(name, tasks))
  {
    TasksAreDistinct(tasks, |tasks|);
  }

  lemma StartReviewIs(c: Checks, reviews: seq<Review>, q: Request)
    requires StartReview(c, reviews, q).Some?
    ensures DistinctIds(q.catalog.pieces) && "language" in q.catalog.attributes && RetainedFor(c, reviews, q).Some?
    ensures Records(q) == Targets(q.catalog.pieces, q.ids, q.catalog.attributes["language"])
    ensures var r := StartReview(c, reviews, q).value;
            && r.session == Session(q.name, q.tasks) && r.attributes == q.catalog.attributes && r.guidance == q.guidance
            && r.previous == q.previous && r.snapshot == FileText(q.catalog)
            && r.journal == Journal(r.session, RetainedFor(c, reviews, q).value)
  {
    hide RetainedFor;
    hide Journal;
    hide FileText;
    hide Targets;
    hide DistinctIds;
  }

  lemma RetainedForIs(c: Checks, reviews: seq<Review>, q: Request)
    requires RetainedFor(c, reviews, q).Some?
    ensures q.previous.None? ==> RetainedFor(c, reviews, q).value == map[]
    ensures q.previous.Some? ==>
              && q.previous.value < |reviews|
              && var earlier := reviews[q.previous.value];
                 && LoadResults(c, earlier.session, earlier.journal).Some?
                 && RetainedFor(c, reviews, q).value
                    == Retained(earlier, LoadResults(c, earlier.session, earlier.journal).value, q.catalog.attributes,
                                q.guidance, Records(q))
  {
    hide LoadResults;
    hide Retained;
    hide Records;
  }

  lemma NoResultsValid(c: Checks, records: seq<Record>)
    ensures ValidResults(c, records, map[])
  {
  }

  /** A newly started journal always loads, with exactly the results that were kept. */
  lemma StartedLoads(c: Checks, reviews: seq<Review>, q: Request)
    requires (forall r | r in reviews :: WellFormed(r)) && IsSplit(q.tasks, Records(q))
    requires StartReview(c, reviews, q).Some?
    ensures RetainedFor(c, reviews, q).Some?
    ensures var r := StartReview(c, reviews, q).value;
            WellFormed(r) && LoadResults(c, r.session, r.journal) == RetainedFor(c, reviews, q)
  {
    hide *;
    StartReviewIs(c, reviews, q);
    RetainedForIs(c, reviews, q);
    var r, kept, records := StartReview(c, reviews, q).value, RetainedFor(c, reviews, q).value, Records(q);
    TargetsDistinct(q.catalog.pieces, q.ids, q.catalog.attributes["language"]);
    TargetsAre(q.catalog.pieces, q.ids, q.catalog.attributes["language"]);
    SessionOf(q.name, q.tasks, records);
    IsWellFormed(r);
    if q.previous.Some? {
      var earlier := reviews[q.previous.value];
      LoadedAreValid(c, earlier.session, earlier.journal);
      RetainedIsValid(c, earlier, LoadResults(c, earlier.session, earlier.journal).value, q.catalog.attributes,
                      q.guidance, records);
    } else {
      NoResultsValid(c, records);
    }
    ReviewJournalRoundTrip(c, r.session, kept);
  }

  lemma IsWellFormed(r: Review)
    requires ValidSession(r.session) && "language" in r.attributes
    requires forall q | q in AllRecords(r.session) :: q.language == r.attributes["language"]
    ensures WellFormed(r)
  {
  }

  /** Every result of a merge was in the journal or in one of the responses. */
  ghost predicate FromResponses(c: Checks, s: Session, results: map<Id, Line>, files: seq<seq<Line>>, k: nat, id: Id,
                                l: Line)
    requires k <= |files|
  {
    || (id in results && results[id] == l)
    || exists i :: 0 <= i < k && Carries(c, s, files[i], id, l)
  }

  ghost predicate Carries(c: Checks, s: Session, file: seq<Line>, id: Id, l: Line) {
    var loaded := LoadResultsOfTask(c, s, file);
    loaded.Some? && id in loaded.value && loaded.value[id] == l
  }

  lemma {:induction false} MergedResults(c: Checks, s: Session, results: map<Id, Line>, files: seq<seq<Line>>, k: nat,
                                         replace: bool)
    requires k <= |files| && MergeResultsUpTo(c, s, results, files, k, replace).Some?
    requires DistinctRecords(AllRecords(s)) && ValidResults(c, AllRecords(s), results)
    ensures ValidResults(c, AllRecords(s), MergeResultsUpTo(c, s, results, files, k, replace).value)
    ensures var m := MergeResultsUpTo(c, s, results, files, k, replace).value;
            forall id | id in m :: FromResponses(c, s, results, files, k, id, m[id])
  {
    hide Accepted;
    hide LoadResultsOfTask;
    hide AllRecords;
    hide DistinctRecords;
    if k > 0 {
      MergedResults(c, s, results, files, k - 1, replace);
      ResponseIsValid(c, s, files[k - 1]);
      var m := MergeResultsUpTo(c, s, results, files, k, replace).value;
      forall id | id in m
        ensures FromResponses(c, s, results, files, k, id, m[id])
      {
        if Carries(c, s, files[k - 1], id, m[id]) {
        } else {
          assert FromResponses(c, s, results, files, k - 1, id, m[id]);
        }
      }
    }
  }

  lemma MergeReviewIs(c: Checks, review: Review, catalogText: string, files: seq<seq<Line>>, replace: bool)
    requires MergeReview(c, review, catalogText, files, replace).Some?
    ensures LoadResults(c, review.session, review.journal).Some?
    ensures var results := LoadResults(c, review.session, review.journal).value;
            && MergeResultsUpTo(c, review.session, results, files, |files|, replace).Some?
            && MergeReview(c, review, catalogText, files, replace).value
               == var merged := MergeResultsUpTo(c, review.session, results, files, |files|, replace).value;
                  review.(journal := Journal(review.session, merged))
  {
    hide LoadResults;
    hide MergeResultsUpTo;
    hide Journal;
  }

  /** A merged journal loads, and each of its results was in the old journal or in a response. */
  lemma MergedLoads(c: Checks, review: Review, catalogText: string, files: seq<seq<Line>>, replace: bool)
    requires WellFormed(review) && MergeReview(c, review, catalogText, files, replace).Some?
    ensures var r := MergeReview(c, review, catalogText, files, replace).value;
            && r == review.(journal := r.journal) && WellFormed(r)
            && LoadResults(c, review.session, review.journal).Some? && LoadResults(c, r.session, r.journal).Some?
            && var before := LoadResults(c, review.session, review.journal).value;
               var after := LoadResults(c, r.session, r.journal).value;
               forall id | id in after :: FromResponses(c, review.session, before, files, |files|, id, after[id])
  {
    hide *;
    MergeReviewIs(c, review, catalogText, files, replace);
    WellFormedIs(review);
    var before := LoadResults(c, review.session, review.journal).value;
    LoadedAreValid(c, review.session, review.journal);
    MergedResults(c, review.session, before, files, |files|, replace);
    ReviewJournalRoundTrip(c, review.session,
                           MergeResultsUpTo(c, review.session, before, files, |files|, replace).value);
    IsWellFormed(MergeReview(c, review, catalogText, files, replace).value);
  }

  lemma WellFormedIs(r: Review)
    requires WellFormed(r)
    ensures ValidSession(r.session) && DistinctRecords(AllRecords(r.session)) && "language" in r.attributes
    ensures forall q | q in AllRecords(r.session) :: q.language == r.attributes["language"]
  {
  }

  /** No merge loses a result: what was in the journal is still decided, unaltered unless replacement was
      asked for, and so is what each response carries. */
  lemma {:induction false} MergeLosesNothing(c: Checks, s: Session, results: map<Id, Line>, files: seq<seq<Line>>,
                                             k: nat, replace: bool)
    requires k <= |files| && MergeResultsUpTo(c, s, results, files, k, replace).Some?
    ensures var m := MergeResultsUpTo(c, s, results, files, k, replace).value;
            && (forall id | id in results :: id in m && (!replace ==> m[id] == results[id]))
            && (forall i, id, l :: 0 <= i < k && Carries(c, s, files[i], id, l) ==>
                id in m && (!replace ==> m[id] == l))
  {
    hide LoadResultsOfTask;
    if k > 0 {
      MergeLosesNothing(c, s, results, files, k - 1, replace);
    }
  }

  /** A session started from another on the same records, attributes and guidance starts with every
      result of that one. */
  lemma UnchangedKeepsAll(c: Checks, reviews: seq<Review>, q: Request)
    requires RetainedFor(c, reviews, q).Some? && q.previous.Some? && q.previous.value < |reviews|
    requires var earlier := reviews[q.previous.value];
             && earlier.attributes == q.catalog.attributes && earlier.guidance == q.guidance
             && AllRecords(earlier.session) == Records(q)
    ensures var earlier := reviews[q.previous.value];
            RetainedFor(c, reviews, q) == LoadResults(c, earlier.session, earlier.journal)
  {
    hide LoadResults;
    hide AllRecords;
    hide Records;
    hide RecordFor;
    var earlier := reviews[q.previous.value];
    LoadedAreValid(c, earlier.session, earlier.journal);
    var results := LoadResults(c, earlier.session, earlier.journal).value;
    assert Retained(earlier, results, q.catalog.attributes, q.guidance, Records(q)) == results;
  }
}

/** What holds in every history of a translation session. */
module HistoryResults {
  import opened Wrappers
  import opened Decisions
  import opened Responses
  import opened Salvage
  import opened Catalogs
  import opened SemanticReview
  import opened ReviewResults
  import opened Applying
  import opened ApplyResults
  import opened Histories

  // ---------------------------------------------------------------- the invariant holds throughout

  lemma InvIs(env: Env, p: Project, w: World)
    ensures Inv(env, p, w) <==>
              && ValidSession(p.session)
              && GoodJournal(env, p, w.journal)
              && (forall k: nat | k < |w.reviews| :: GoodReview(env.checks, w.reviews, w.given, k))
              && (w.quality.Some? ==> w.quality.value < |w.reviews|)
  {
    hide GoodJournal;
    hide GoodReview;
    hide ValidSession;
  }

  lemma StartedKeeps(env: Env, p: Project, w: World, q: Request)
    requires Inv(env, p, w)
    ensures var after := Started(env, w, q);
            && Inv(env, p, after)
            && after == w.(reviews := after.reviews)
            && (after.reviews == w.reviews || |after.reviews| == |w.reviews| + 1)
  {
    hide *;
    InvIs(env, p, w);
    StartedIs(env, w, q);
    var after := Started(env, w, q);
    InvIs(env, p, after);
    if after != w {
      var r := StartReview(env.checks, w.reviews, q).value;
      StartIsGood(env.checks, w.reviews, w.given, q);
      forall k: nat | k < |w.reviews|
        ensures GoodReview(env.checks, after.reviews, w.given, k)
      {
        GoodStays(env.checks, w.reviews, w.reviews + [r], w.given, w.given, k);
      }
    }
  }

  lemma StartedIs(env: Env, w: World, q: Request)
    ensures var after := Started(env, w, q);
            after != w ==> && StartReview(env.checks, w.reviews, q).Some? && IsSplit(q.tasks, Records(q))
                           && after == w.(reviews := w.reviews + [StartReview(env.checks, w.reviews, q).value])
  {
    hide StartReview;
    hide IsSplit;
    hide Records;
  }

  lemma MergedReviewKeeps(env: Env, p: Project, w: World, k: nat, catalogText: string, files: seq<seq<Line>>,
                          replace: bool)
    requires Inv(env, p, w) && k < |w.reviews|
    requires MergeReview(env.checks, w.reviews[k], catalogText, files, replace).Some?
    ensures var r := MergeReview(env.checks, w.reviews[k], catalogText, files, replace).value;
            Inv(env, p, w.(reviews := w.reviews[k := r],
                           given := w.given + GivenIn(env.checks, w.reviews[k].session, files, k, |files|)))
  {
    hide *;
    InvIs(env, p, w);
    var r := MergeReview(env.checks, w.reviews[k], catalogText, files, replace).value;
    var more := w.given + GivenIn(env.checks, w.reviews[k].session, files, k, |files|);
    var all := w.reviews[k := r];
    InvIs(env, p, w.(reviews := all, given := more));
    MergeReviewIsGood(env.checks, w.reviews, w.given, k, catalogText, files, replace);
    forall j: nat | j < |all|
      ensures GoodReview(env.checks, all, more, j)
    {
      if j != k {
        GoodStays(env.checks, w.reviews, all, w.given, more, j);
      }
    }
  }

  /** A review session was started and is the one that apply will ask. */
  ghost predicate StartsPrepared(env: Env, w: World, q: Request, after: World) {
    after == Started(env, w, q).(quality := Some(|w.reviews|)) && |Started(env, w, q).reviews| != |w.reviews|
  }

  lemma StartsPreparedIs(env: Env, w: World, q: Request, after: World)
    requires StartsPrepared(env, w, q, after)
    ensures after == Started(env, w, q).(quality := Some(|w.reviews|)) && |Started(env, w, q).reviews| != |w.reviews|
  {
    hide Started;
  }

  /** What each action does to the parts of the world. */
  lemma NextIs(env: Env, p: Project, w: World, a: Action)
    ensures var after := Next(env, p, w, a);
            match a
            case Edits(catalog) => after == w.(catalog := catalog)
            case Merges(files, replace) =>
              after == w || (MergeJournal(env, p, w.journal, files, replace).Some?
                             && after == w.(journal := MergeJournal(env, p, w.journal, files, replace).value))
            case Applies(reviewedOnly) =>
              after == w || (Apply(env, p, w.journal, w.catalog, Quality(w), reviewedOnly).Some?
                             && after == w.(catalog := Apply(env, p, w.journal, w.catalog, Quality(w),
                                                             reviewedOnly).value))
            case Prepares(reviewedOnly, name, tasks) =>
              after == w || exists q :: StartsPrepared(env, w, q, after)
            case StartsReview(q) => after == Started(env, w, q)
            case MergesReview(k, catalogText, files, replace) =>
              after == w
              || (&& k < |w.reviews| && MergeReview(env.checks, w.reviews[k], catalogText, files, replace).Some?
                  && after == w.(reviews := w.reviews[k := MergeReview(env.checks, w.reviews[k], catalogText, files,
                                                                       replace).value],
                                 given := w.given + GivenIn(env.checks, w.reviews[k].session, files, k, |files|)))
  {
    hide Started;
    hide MergeJournal;
    hide Apply;
    hide Stage;
    hide Prepared;
    hide MergeReview;
    hide GivenIn;
    hide Quality;
    hide PrepareRequest;
    if a.Prepares? && Next(env, p, w, a) != w {
      var staged := Stage(env, p, w.journal, w.catalog, a.reviewedOnly).value;
      assert StartsPrepared(env, w, PrepareRequest(p, staged, w.quality, a.name, a.tasks), Next(env, p, w, a));
    }
  }

  /** Every step keeps the invariant: the journal loads and answers questions only with text, every
      review session loads, and every result in it was given by a reviewer to the same text. */
  lemma NextKeeps(env: Env, p: Project, w: World, a: Action)
    requires Inv(env, p, w)
    ensures Inv(env, p, Next(env, p, w, a))
  {
    hide *;
    NextIs(env, p, w, a);
    InvIs(env, p, w);
    var after := Next(env, p, w, a);
    InvIs(env, p, after);
    if after != w {
      match a
      case Edits(_) =>
      case Merges(files, replace) => MergeKeepsGood(env, p, w.journal, files, replace);
      case Applies(_) =>
      case Prepares(_, _, _) =>
        var q :| StartsPrepared(env, w, q, after);
        StartsPreparedIs(env, w, q, after);
        StartedKeeps(env, p, w, q);
        InvIs(env, p, Started(env, w, q));
      case StartsReview(q) => StartedKeeps(env, p, w, q);
      case MergesReview(k, catalogText, files, replace) => MergedReviewKeeps(env, p, w, k, catalogText, files, replace);
    }
  }

  /** So it holds in every history from the start of a session. */
  lemma {:induction false} RunKeeps(env: Env, p: Project, w: World, actions: seq<Action>)
    requires Inv(env, p, w)
    ensures Inv(env, p, Run(env, p, w, actions))
  {
    hide *;
    RunIs(env, p, w, actions);
    if actions != [] {
      RunKeeps(env, p, w, actions[..|actions| - 1]);
      NextKeeps(env, p, Run(env, p, w, actions[..|actions| - 1]), actions[|actions| - 1]);
    }
  }

  lemma RunIs(env: Env, p: Project, w: World, actions: seq<Action>)
    ensures Run(env, p, w, actions) ==
            if actions == [] then w else Next(env, p, Run(env, p, w, actions[..|actions| - 1]), actions[|actions| - 1])
  {
  }

  lemma FreshIsGood(env: Env, p: Project, w: World)
    requires Fresh(p, w)
    ensures Inv(env, p, w)
  {
    hide GoodJournal;
    hide ValidSession;
    hide WrittenJournal;
    FreshJournal(env, p);
  }

  lemma EveryHistory(env: Env, p: Project, w: World, actions: seq<Action>)
    requires Fresh(p, w)
    ensures Inv(env, p, Run(env, p, w, actions))
  {
    hide *;
    FreshIsGood(env, p, w);
    RunKeeps(env, p, w, actions);
  }

  /** Applying again right away does nothing. */
  lemma AppliesOnce(env: Env, p: Project, w: World, reviewedOnly: bool)
    requires Inv(env, p, w) && Apply(env, p, w.journal, w.catalog, Quality(w), reviewedOnly).Some?
    ensures var after := Next(env, p, w, Applies(reviewedOnly)); Next(env, p, after, Applies(reviewedOnly)) == after
  {
    hide *;
    InvIs(env, p, w);
    var after := Next(env, p, w, Applies(reviewedOnly));
    NextIs(env, p, w, Applies(reviewedOnly));
    NextIs(env, p, after, Applies(reviewedOnly));
    if after != w {
      SecondApply(env, p, w.journal, w.catalog, Quality(w), reviewedOnly, Quality(after));
    }
  }

  // ---------------------------------------------------------------- approvals are bound to text

  ghost predicate OnChain(reviews: seq<Review>, j: nat, k: nat)
    requires k < |reviews|
    decreases k
  {
    j == k || (reviews[k].previous.Some? && reviews[k].previous.value < k &&
               OnChain(reviews, j, reviews[k].previous.value))
  }

  /** The result was merged from a response into session j, on the chain that leads to session k, whose
      record of the message is the one in k: identity, type, translation, plurals and comment. */
  ghost predicate GivenOnChain(reviews: seq<Review>, given: set<(nat, Line)>, j: nat, k: nat, id: Id, l: Line)
    requires j < |reviews| && k < |reviews|
  {
    && OnChain(reviews, j, k) && (j, l) in given
    && reviews[j].attributes == reviews[k].attributes && reviews[j].guidance == reviews[k].guidance
    && SameText(AllRecords(reviews[j].session), AllRecords(reviews[k].session), id)
  }

  lemma {:induction false} GivenHasOrigin(reviews: seq<Review>, given: set<(nat, Line)>, k: nat, id: Id, l: Line)
    returns (j: nat)
    requires k < |reviews| && Given(reviews, given, k, id, l) && RecordFor(AllRecords(reviews[k].session), id).Some?
    ensures j < |reviews| && GivenOnChain(reviews, given, j, k, id, l)
    decreases k
  {
    hide AllRecords;
    hide RecordFor;
    if (k, l) in given {
      j := k;
    } else {
      j := GivenHasOrigin(reviews, given, reviews[k].previous.value, id, l);
    }
  }

  lemma ResultIsAccepted(c: Checks, s: Session, file: seq<Line>, id: Id)
    requires LoadResults(c, s, file).Some? && id in LoadResults(c, s, file).value
    ensures RecordFor(AllRecords(s), id).Some?
    ensures LoadResults(c, s, file).value[id].Object? && LoadResults(c, s, file).value[id].id == Named(id)
  {
    hide LoadResults;
    hide AllRecords;
    hide RecordFor;
    LoadedAreValid(c, s, file);
  }

  /** In every history, each result in the journal of a review session was given by a reviewer, in a
      session on its chain, to a message with exactly the text it has here. */
  lemma ResultsAreGiven(env: Env, p: Project, w: World, k: nat, id: Id)
    requires Inv(env, p, w) && k < |w.reviews|
    requires LoadResults(env.checks, w.reviews[k].session, w.reviews[k].journal).Some?
    requires id in LoadResults(env.checks, w.reviews[k].session, w.reviews[k].journal).value
    ensures exists j: nat :: j < |w.reviews|
              && GivenOnChain(w.reviews, w.given, j, k, id,
                              LoadResults(env.checks, w.reviews[k].session, w.reviews[k].journal).value[id])
  {
    hide *;
    InvIs(env, p, w);
    GoodReviewIs(env.checks, w.reviews, w.given, k);
    ResultIsAccepted(env.checks, w.reviews[k].session, w.reviews[k].journal, id);
    var j := GivenHasOrigin(w.reviews, w.given, k, id,
                            LoadResults(env.checks, w.reviews[k].session, w.reviews[k].journal).value[id]);
  }

  lemma QualityIs(env: Env, p: Project, w: World)
    requires Inv(env, p, w) && Quality(w).Some?
    ensures w.quality.Some? && w.quality.value < |w.reviews| && Quality(w).value == w.reviews[w.quality.value]
  {
    hide GoodJournal;
    hide GoodReview;
  }

  lemma ApprovedIs(c: Checks, review: Review, attributes: map<string, string>, records: seq<Record>, r: Record)
    requires Approved(c, review, attributes, records) && r in records
    ensures LoadResults(c, review.session, review.journal).Some? && review.attributes == attributes
    ensures var m := LoadResults(c, review.session, review.journal).value;
            && RecordFor(AllRecords(review.session), r.id).Some?
            && DigestOf(r) == DigestOf(RecordFor(AllRecords(review.session), r.id).value)
            && r.id in m && IsPass(m[r.id])
  {
    hide LoadResults;
    hide AllRecords;
    hide RecordFor;
    hide DigestOf;
    hide IsPass;
  }

  /** A pass of this text, given by a reviewer: the witness that an apply needs. */
  ghost predicate PassGiven(w: World, attributes: map<string, string>, text: Record, j: nat, l: Line) {
    && j < |w.reviews| && (j, l) in w.given && IsPass(l) && l.id == Named(text.id)
    && w.reviews[j].attributes == attributes
    && RecordFor(AllRecords(w.reviews[j].session), text.id).Some?
    && DigestOf(RecordFor(AllRecords(w.reviews[j].session), text.id).value) == DigestOf(text)
  }

  lemma SameTextIs(before: seq<Record>, now: seq<Record>, id: Id)
    requires SameText(before, now, id)
    ensures RecordFor(before, id).Some? && RecordFor(now, id).Some?
    ensures DigestOf(RecordFor(before, id).value) == DigestOf(RecordFor(now, id).value)
  {
  }

  lemma GivenOnChainIs(reviews: seq<Review>, given: set<(nat, Line)>, j: nat, k: nat, id: Id, l: Line)
    requires j < |reviews| && k < |reviews| && GivenOnChain(reviews, given, j, k, id, l)
    ensures (j, l) in given && reviews[j].attributes == reviews[k].attributes
    ensures SameText(AllRecords(reviews[j].session), AllRecords(reviews[k].session), id)
  {
  }

  lemma ApprovedWasGiven(env: Env, p: Project, w: World, k: nat, records: seq<Record>, r: Record)
    returns (j: nat, l: Line)
    requires Inv(env, p, w) && k < |w.reviews| && r in records
    requires Approved(env.checks, w.reviews[k], p.attributes, records)
    ensures PassGiven(w, p.attributes, r, j, l)
  {
    hide *;
    var review := w.reviews[k];
    ApprovedIs(env.checks, review, p.attributes, records, r);
    l := LoadResults(env.checks, review.session, review.journal).value[r.id];
    ResultIsAccepted(env.checks, review.session, review.journal, r.id);
    ResultsAreGiven(env, p, w, k, r.id);
    j :| j < |w.reviews| && GivenOnChain(w.reviews, w.given, j, k, r.id, l);
    GivenOnChainIs(w.reviews, w.given, j, k, r.id, l);
    SameTextIs(AllRecords(w.reviews[j].session), AllRecords(review.session), r.id);
    IsPassGiven(w, p.attributes, r, j, l);
  }

  lemma IsPassGiven(w: World, attributes: map<string, string>, text: Record, j: nat, l: Line)
    requires j < |w.reviews| && (j, l) in w.given && IsPass(l) && l.id == Named(text.id)
    requires w.reviews[j].attributes == attributes
    requires RecordFor(AllRecords(w.reviews[j].session), text.id).Some?
    requires DigestOf(RecordFor(AllRecords(w.reviews[j].session), text.id).value) == DigestOf(text)
    ensures PassGiven(w, attributes, text, j, l)
  {
  }

  lemma MayWriteNeeds(env: Env, p: Project, staged: Staged, quality: Option<Review>)
    requires MayWrite(env, p, staged, quality) && p.requireReview && staged.changes != map[]
    ensures quality.Some? && Approved(env.checks, quality.value, p.attributes,
                                      StagedRecords(staged.catalog.pieces, staged.selected))
  {
  }

  lemma AppliedKeepsId(env: Env, r: Record, choice: Choice, before: Piece, after: Piece)
    requires Applied(env, r, choice, before, after)
    ensures after.message.id == before.message.id == r.id
  {
  }

  /** In every history, an apply that needs semantic review changes a message only to a text that a
      reviewer has passed, for this very message, text and comment, in the language of the catalog. */
  lemma ApplyWritesPassed(env: Env, p: Project, w: World, reviewedOnly: bool, i: nat)
    requires Inv(env, p, w) && p.requireReview && i < |w.catalog.pieces|
    requires Apply(env, p, w.journal, w.catalog, Quality(w), reviewedOnly).Some?
    requires |Apply(env, p, w.journal, w.catalog, Quality(w), reviewedOnly).value.pieces| == |w.catalog.pieces|
    requires Apply(env, p, w.journal, w.catalog, Quality(w), reviewedOnly).value.pieces[i] != w.catalog.pieces[i]
    ensures var after := Apply(env, p, w.journal, w.catalog, Quality(w), reviewedOnly).value;
            var text := RecordOf(after.pieces[i].message, "");
            exists j: nat, l :: PassGiven(w, p.attributes, text, j, l)
  {
    hide *;
    InvIs(env, p, w);
    ApplyIs(env, p, w.journal, w.catalog, Quality(w), reviewedOnly);
    StageIs(env, p, w.journal, w.catalog, reviewedOnly);
    StageTouches(env, p, w.journal, w.catalog, reviewedOnly, i);
    StagedIsClear(env, p, w.journal, w.catalog, reviewedOnly);
    var st := Stage(env, p, w.journal, w.catalog, reviewedOnly).value;
    var r :| r in st.selected && r.id in st.reviews &&
        Applied(env, r, st.reviews[r.id].choice, w.catalog.pieces[i], st.catalog.pieces[i]);
    AppliedKeepsId(env, r, st.reviews[r.id].choice, w.catalog.pieces[i], st.catalog.pieces[i]);
    SameCatalogIs(p, st.catalog);
    FoundAt(st.catalog.pieces, i);
    var text := RecordOf(st.catalog.pieces[i].message, "");
    assert text in StagedRecords(st.catalog.pieces, st.selected);
    MayWriteNeeds(env, p, st, Quality(w));
    QualityIs(env, p, w);
    var j, l := ApprovedWasGiven(env, p, w, w.quality.value, StagedRecords(st.catalog.pieces, st.selected), text);
    RecordOfIs(st.catalog.pieces[i].message);
  }

  lemma RecordOfIs(m: Message)
    ensures RecordOf(m, "").id == m.id
  {
  }

  /** The review that was prepared for a staged catalog, with a pass for each of its records. */
  ghost predicate AllPassed(c: Checks, review: Review) {
    && LoadResults(c, review.session, review.journal).Some?
    && var m := LoadResults(c, review.session, review.journal).value;
       forall r | r in AllRecords(review.session) :: r.id in m && IsPass(m[r.id])
  }

  lemma FoundByDigest(pieces: seq<Piece>, ids: Option<set<Id>>, language: string, i: nat)
    requires DistinctIds(pieces) && i < |pieces|
    requires pieces[i].message.id in IdsOf(Targets(pieces, ids, language))
    ensures var records, text := Targets(pieces, ids, language), RecordOf(pieces[i].message, "");
            && DistinctRecords(records) && RecordFor(records, text.id).Some?
            && DigestOf(RecordFor(records, text.id).value) == DigestOf(text)
  {
    hide RecordFor;
    hide Targets;
    var records, id := Targets(pieces, ids, language), pieces[i].message.id;
    TargetsAre(pieces, ids, language);
    TargetsDistinct(pieces, ids, language);
    FoundIsRecord(records, id);
    var r := RecordFor(records, id).value;
    var j: nat :| j < |pieces| && r == RecordOf(pieces[j].message, language);
    assert pieces[j].message.id == id;
    assert j == i;
  }

  /** Conversely, once every record of the review that prepare-review starts has a pass, the apply that it
      was prepared for may write. */
  lemma PassesApprove(env: Env, p: Project, w: World, reviewedOnly: bool, name: string, tasks: seq<Task>,
                      review: Review)
    requires Inv(env, p, w) && Stage(env, p, w.journal, w.catalog, reviewedOnly).Some?
    requires var q := PrepareRequest(p, Stage(env, p, w.journal, w.catalog, reviewedOnly).value, w.quality, name,
                                     tasks);
             && IsSplit(tasks, Records(q)) && StartReview(env.checks, w.reviews, q).Some?
             && review == StartReview(env.checks, w.reviews, q).value.(journal := review.journal)
    requires AllPassed(env.checks, review)
    ensures Apply(env, p, w.journal, w.catalog, Some(review), reviewedOnly).Some?
  {
    hide *;
    InvIs(env, p, w);
    StageIs(env, p, w.journal, w.catalog, reviewedOnly);
    StagedIsClear(env, p, w.journal, w.catalog, reviewedOnly);
    var st := Stage(env, p, w.journal, w.catalog, reviewedOnly).value;
    var q := PrepareRequest(p, st, w.quality, name, tasks);
    PrepareRequestIs(p, st, w.quality, name, tasks);
    StartReviewIs(env.checks, w.reviews, q);
    SameCatalogIs(p, st.catalog);
    TargetsDistinct(q.catalog.pieces, q.ids, q.catalog.attributes["language"]);
    SessionOf(q.name, q.tasks, Records(q));
    StartedHasIds(env.checks, w.reviews, q);
    AllPassedLoads(env.checks, review);
    forall text | text in StagedRecords(st.catalog.pieces, st.selected)
      ensures RecordFor(AllRecords(review.session), text.id).Some?
      ensures DigestOf(text) == DigestOf(RecordFor(AllRecords(review.session), text.id).value)
      ensures text.id in LoadResults(env.checks, review.session, review.journal).value
      ensures IsPass(LoadResults(env.checks, review.session, review.journal).value[text.id])
    {
      var i: nat, r := StagedFrom(st.catalog.pieces, st.selected, text);
      RecordOfIs(st.catalog.pieces[i].message);
      IdIsThere(st.selected, r);
      FoundByDigest(st.catalog.pieces, q.ids, q.catalog.attributes["language"], i);
      FoundIsRecord(AllRecords(review.session), text.id);
      AllPassedIs(env.checks, review, RecordFor(AllRecords(review.session), text.id).value);
    }
    IsApproved(env.checks, review, p.attributes, StagedRecords(st.catalog.pieces, st.selected));
    MayWriteIf(env, p, st, review);
    ApplyIs(env, p, w.journal, w.catalog, Some(review), reviewedOnly);
  }

  lemma PrepareRequestIs(p: Project, st: Staged, quality: Option<nat>, name: string, tasks: seq<Task>)
    ensures PrepareRequest(p, st, quality, name, tasks) ==
              Request(name, st.catalog, Some(IdsOf(st.selected)), p.guidance, quality, tasks)
  {
  }

  lemma StartedHasIds(c: Checks, reviews: seq<Review>, q: Request)
    requires StartReview(c, reviews, q).Some?
    ensures q.ids.Some? ==> IdsOf(Records(q)) == q.ids.value
  {
    hide Records;
    hide RetainedFor;
    hide Journal;
    hide FileText;
  }

  lemma {:induction false} StagedFrom(pieces: seq<Piece>, selected: seq<Record>, text: Record)
    returns (i: nat, r: Record)
    requires text in StagedRecords(pieces, selected)
    ensures r in selected && Find(pieces, r.id) == Some(i) && i < |pieces| && text == RecordOf(pieces[i].message, "")
    ensures pieces[i].message.id == r.id
  {
    hide Find;
    var found := Find(pieces, selected[0].id);
    if found.Some? && text == RecordOf(pieces[found.value].message, "") {
      i, r := found.value, selected[0];
    } else {
      i, r := StagedFrom(pieces, selected[1..], text);
    }
  }

  lemma IdIsThere(records: seq<Record>, r: Record)
    requires r in records
    ensures r.id in IdsOf(records)
  {
  }

  lemma AllPassedLoads(c: Checks, review: Review)
    requires AllPassed(c, review)
    ensures LoadResults(c, review.session, review.journal).Some?
  {
    hide LoadResults;
  }

  lemma AllPassedIs(c: Checks, review: Review, r: Record)
    requires AllPassed(c, review) && r in AllRecords(review.session)
    ensures LoadResults(c, review.session, review.journal).Some?
    ensures var m := LoadResults(c, review.session, review.journal).value; r.id in m && IsPass(m[r.id])
  {
    hide LoadResults;
    hide AllRecords;
    hide IsPass;
  }

  lemma IsApproved(c: Checks, review: Review, attributes: map<string, string>, records: seq<Record>)
    requires LoadResults(c, review.session, review.journal).Some? && review.attributes == attributes
    requires var m := LoadResults(c, review.session, review.journal).value;
             forall r | r in records ::
               && RecordFor(AllRecords(review.session), r.id).Some?
               && DigestOf(r) == DigestOf(RecordFor(AllRecords(review.session), r.id).value)
               && r.id in m && IsPass(m[r.id])
    ensures Approved(c, review, attributes, records)
  {
    hide LoadResults;
    hide AllRecords;
    hide RecordFor;
    hide DigestOf;
    hide IsPass;
  }

  lemma MayWriteIf(env: Env, p: Project, staged: Staged, review: Review)
    requires Approved(env.checks, review, p.attributes, StagedRecords(staged.catalog.pieces, staged.selected))
    ensures MayWrite(env, p, staged, Some(review))
  {
  }

  // ---------------------------------------------------------------- messages change once

  /** The message is no longer as the session recorded it: apply will not touch it again. */
  ghost predicate Done(p: Project, piece: Piece) {
    forall r | r in AllRecords(p.session) && r.id == piece.message.id :: piece.message.state != StateOf(r)
  }

  /** From the recorded state to a value that passes every check, with nothing else changed. */
  ghost predicate Translated(env: Env, p: Project, before: Piece, after: Piece) {
    && after.gap == before.gap
    && after.message.id == before.message.id && after.message.comment == before.message.comment
    && Done(p, after)
    && exists r, value :: r in AllRecords(p.session) && TranslatedFor(env, r, value, before, after)
  }

  ghost predicate TranslatedFor(env: Env, r: Record, value: Value, before: Piece, after: Piece) {
    && r.id == before.message.id && before.message.state == StateOf(r)
    && GoodValue(env.checks, r, value) && after.message.state.Shows(value)
  }

  lemma SameIdSameRecord(records: seq<Record>, a: Record, b: Record)
    requires DistinctRecords(records) && a in records && b in records && a.id == b.id
    ensures a == b
  {
    var i :| 0 <= i < |records| && records[i] == a;
    var j :| 0 <= j < |records| && records[j] == b;
    SameRecord(records, i, j);
  }

  lemma AppliedTranslates(env: Env, p: Project, r: Record, choice: Choice, before: Piece, after: Piece)
    requires DistinctRecords(AllRecords(p.session)) && r in AllRecords(p.session)
    requires Applied(env, r, choice, before, after)
    ensures Translated(env, p, before, after) && !Done(p, before)
  {
    hide GoodValue;
    hide AllRecords;
    hide DistinctRecords;
    forall q | q in AllRecords(p.session) && q.id == after.message.id
      ensures after.message.state != StateOf(q)
    {
      SameIdSameRecord(AllRecords(p.session), q, r);
    }
    assert TranslatedFor(env, r, Resolved(r, choice), before, after);
  }

  ghost predicate NoEdits(actions: seq<Action>) {
    forall a | a in actions :: !a.Edits?
  }

  /** One step of a command: each message is untouched, or translated, and then it was not done. */
  lemma NextTranslates(env: Env, p: Project, w: World, a: Action, i: nat)
    requires Inv(env, p, w) && !a.Edits? && i < |w.catalog.pieces|
    ensures var after := Next(env, p, w, a).catalog;
            && |after.pieces| == |w.catalog.pieces|
            && after.attributes == w.catalog.attributes && after.tail == w.catalog.tail
            && (after.pieces[i] == w.catalog.pieces[i]
                || (Translated(env, p, w.catalog.pieces[i], after.pieces[i]) && !Done(p, w.catalog.pieces[i])))
  {
    hide *;
    NextIs(env, p, w, a);
    InvIs(env, p, w);
    var after := Next(env, p, w, a);
    match a
    case Applies(reviewedOnly) =>
      if after != w {
        ApplyTouches(env, p, w.journal, w.catalog, Quality(w), reviewedOnly);
        var reviews := LoadJournal(env.checks, p.session, w.journal).value;
        OneStepIs(env, p, reviews, w.catalog.pieces[i], after.catalog.pieces[i]);
      }
    case Prepares(_, _, _) =>
      if after != w {
        var q :| StartsPrepared(env, w, q, after);
        StartsPreparedIs(env, w, q, after);
        StartedKeeps(env, p, w, q);
      }
    case StartsReview(q) => StartedKeeps(env, p, w, q);
    case _ =>
  }

  lemma OneStepIs(env: Env, p: Project, reviews: map<Id, Decision>, before: Piece, after: Piece)
    requires ValidSession(p.session) && OneStep(env, p, reviews, before, after)
    ensures after == before || (Translated(env, p, before, after) && !Done(p, before))
  {
    hide Applied;
    hide Translated;
    hide Done;
    hide AllRecords;
    hide DistinctRecords;
    DistinctAll(p.session);
    if after != before {
      var r :| r in AllRecords(p.session) && r.id in reviews && Applied(env, r, reviews[r.id].choice, before, after);
      AppliedTranslates(env, p, r, reviews[r.id].choice, before, after);
    }
  }

  lemma TranslatedIsDone(env: Env, p: Project, before: Piece, after: Piece)
    requires Translated(env, p, before, after)
    ensures Done(p, after)
  {
  }

  /** While nobody else edits the catalog, whatever commands are run, each message is as it was, or has
      gone once from its recorded state to a reviewed value; once done it stays as it is. */
  lemma {:induction false} RunTranslates(env: Env, p: Project, w: World, actions: seq<Action>, i: nat)
    requires Inv(env, p, w) && NoEdits(actions) && i < |w.catalog.pieces|
    ensures var after := Run(env, p, w, actions).catalog;
            && |after.pieces| == |w.catalog.pieces|
            && after.attributes == w.catalog.attributes && after.tail == w.catalog.tail
            && (after.pieces[i] == w.catalog.pieces[i]
                || (Translated(env, p, w.catalog.pieces[i], after.pieces[i]) && !Done(p, w.catalog.pieces[i])))
  {
    hide *;
    RunIs(env, p, w, actions);
    if actions != [] {
      var first, last := actions[..|actions| - 1], actions[|actions| - 1];
      NoEditsIs(actions);
      RunTranslates(env, p, w, first, i);
      RunKeeps(env, p, w, first);
      var middle := Run(env, p, w, first);
      NextTranslates(env, p, middle, last, i);
      if middle.catalog.pieces[i] != w.catalog.pieces[i] {
        TranslatedIsDone(env, p, w.catalog.pieces[i], middle.catalog.pieces[i]);
      }
    }
  }

  lemma NoEditsIs(actions: seq<Action>)
    requires NoEdits(actions) && actions != []
    ensures NoEdits(actions[..|actions| - 1]) && !actions[|actions| - 1].Edits?
  {
  }

  /** So a message that one stretch of commands has changed, no later stretch changes. */
  lemma ChangesOnce(env: Env, p: Project, w: World, a: seq<Action>, b: seq<Action>, i: nat)
    requires Inv(env, p, w) && NoEdits(a) && NoEdits(b) && i < |w.catalog.pieces|
    ensures var middle := Run(env, p, w, a);
            var after := Run(env, p, middle, b);
            && |after.catalog.pieces| == |middle.catalog.pieces| == |w.catalog.pieces|
            && (middle.catalog.pieces[i] != w.catalog.pieces[i] ==> after.catalog.pieces[i] == middle.catalog.pieces[i])
  {
    hide *;
    RunTranslates(env, p, w, a, i);
    RunKeeps(env, p, w, a);
    var middle := Run(env, p, w, a);
    RunTranslates(env, p, middle, b, i);
    if middle.catalog.pieces[i] != w.catalog.pieces[i] {
      TranslatedIsDone(env, p, w.catalog.pieces[i], middle.catalog.pieces[i]);
    }
  }
}

/** What one `apply` does to a catalog, when it goes ahead, and that a second one does nothing. */
module ApplyResults {
  import opened Wrappers
  import opened Decisions
  import opened Responses
  import opened Catalogs
  import opened CatalogSplice
  import opened SemanticReview
  import opened Applying

  lemma JournalIsValid(c: Checks, s: Session, file: seq<Line>)
    requires Salvage.LoadJournal(c, s, file).Some?
    ensures ValidMap(c, AllRecords(s), Salvage.LoadJournal(c, s, file).value)
  {
    hide ValidMap;
    hide LoadUpTo;
    hide AllRecords;
    var lines := ReadLines(file).value;
    LoadIsValid(c, AllRecords(s), lines[1..], |lines| - 1);
  }

  lemma StageIs(env: Env, p: Project, journal: seq<Line>, catalog: Catalog, reviewedOnly: bool)
    requires Stage(env, p, journal, catalog, reviewedOnly).Some?
    ensures var st := Stage(env, p, journal, catalog, reviewedOnly).value;
            && Salvage.LoadJournal(env.checks, p.session, journal) == Some(st.reviews)
            && Select(AllRecords(p.session), st.reviews, reviewedOnly) == Some(st.selected)
            && SameCatalog(p, catalog)
            && (forall r | r in st.selected :: r.id in st.reviews)
            && PlanUpTo(env, catalog.pieces, st.selected, st.reviews, |st.selected|) == Some(st.changes)
            && st.catalog == catalog.(pieces := Replaced(catalog.pieces, st.changes))
            && Confirmed(st.catalog.pieces, st.selected, st.reviews)
  {
    hide PlanUpTo;
    hide Select;
    hide Confirmed;
    hide Replaced;
    hide SameCatalog;
    hide Validate;
  }

  lemma SelectedAreNormal(env: Env, p: Project, journal: seq<Line>, catalog: Catalog, reviewedOnly: bool)
    requires ValidSession(p.session) && Stage(env, p, journal, catalog, reviewedOnly).Some?
    ensures var st := Stage(env, p, journal, catalog, reviewedOnly).value;
            forall r | r in st.selected ::
              r in AllRecords(p.session) && r.id in st.reviews && IsNormal(env.checks, r, st.reviews[r.id])
  {
    hide Stage;
    hide AllRecords;
    hide ValidMap;
    hide IsNormal;
    hide Select;
    hide Revalidated;
    hide Salvage.LoadJournal;
    hide DistinctRecords;
    StageIs(env, p, journal, catalog, reviewedOnly);
    var st := Stage(env, p, journal, catalog, reviewedOnly).value;
    JournalIsValid(env.checks, p.session, journal);
    SelectedAre(AllRecords(p.session), st.reviews, reviewedOnly);
    RevalidationHolds(env.checks, AllRecords(p.session), st.selected, st.reviews);
  }

  /** The message at position i of a staged catalog: untouched, or changed for a record by its decision. */
  ghost predicate OneStep(env: Env, p: Project, reviews: map<Id, Decision>, before: Piece, after: Piece) {
    || after == before
    || exists r :: r in AllRecords(p.session) && r.id in reviews && Applied(env, r, reviews[r.id].choice, before, after)
  }

  lemma StageTouches(env: Env, p: Project, journal: seq<Line>, catalog: Catalog, reviewedOnly: bool, i: nat)
    requires ValidSession(p.session) && i < |catalog.pieces|
    requires Stage(env, p, journal, catalog, reviewedOnly).Some?
    ensures var st := Stage(env, p, journal, catalog, reviewedOnly).value;
            && |st.catalog.pieces| == |catalog.pieces|
            && if i in st.changes then exists r :: r in st.selected && r.id in st.reviews
                                         && Applied(env, r, st.reviews[r.id].choice, catalog.pieces[i],
                                                    st.catalog.pieces[i])
               else st.catalog.pieces[i] == catalog.pieces[i]
  {
    hide *;
    StageIs(env, p, journal, catalog, reviewedOnly);
    SelectedAreNormal(env, p, journal, catalog, reviewedOnly);
    var st := Stage(env, p, journal, catalog, reviewedOnly).value;
    ReplacedIs(catalog.pieces, st.changes, i);
    if i in st.changes {
      PlanRewrites(env, catalog.pieces, st.selected, st.reviews, |st.selected|, i);
      PlanKeepsIds(env, catalog.pieces, st.selected, st.reviews, |st.selected|);
      var j :| 0 <= j < |st.selected| && Rewrites(env, catalog.pieces, st.selected[j], st.reviews, i, st.changes[i]);
      var r := st.selected[j];
      SameCatalogIs(p, catalog);
      ReplacedFinds(catalog.pieces, st.changes, r.id);
      RewritesIs(env, catalog.pieces, r, st.reviews, i, st.changes[i]);
      ConfirmedIs(st.catalog.pieces, st.selected, st.reviews, r);
      NormalIsGood(env.checks, r, st.reviews[r.id]);
      ChangeIs(env, catalog.pieces, st.changes, i, Resolved(r, st.reviews[r.id].choice));
      IsApplied(env, r, st.reviews[r.id].choice, catalog.pieces[i], st.catalog.pieces[i]);
    }
  }

  lemma SameCatalogIs(p: Project, catalog: Catalog)
    requires SameCatalog(p, catalog)
    ensures DistinctIds(catalog.pieces) && catalog.attributes == p.attributes && Ids(catalog.pieces) == p.ids
  {
  }

  lemma RewritesIs(env: Env, pieces: seq<Piece>, r: Record, reviews: map<Id, Decision>, i: nat, piece: Piece)
    requires Rewrites(env, pieces, r, reviews, i, piece)
    ensures r.id in reviews && !reviews[r.id].choice.NeedsContext? && Find(pieces, r.id) == Some(i)
    ensures i < |pieces| && pieces[i].message.id == r.id && pieces[i].message.state == StateOf(r)
    ensures !pieces[i].message.state.Shows(Resolved(r, reviews[r.id].choice))
    ensures piece == Rewrite(env, pieces[i], Resolved(r, reviews[r.id].choice))
  {
  }

  lemma ConfirmedIs(pieces: seq<Piece>, selected: seq<Record>, reviews: map<Id, Decision>, r: Record)
    requires forall q | q in selected :: q.id in reviews
    requires Confirmed(pieces, selected, reviews) && r in selected
    ensures Find(pieces, r.id).Some? && !reviews[r.id].choice.NeedsContext?
    ensures pieces[Find(pieces, r.id).value].message.state.Shows(Resolved(r, reviews[r.id].choice))
  {
  }

  lemma ChangeIs(env: Env, pieces: seq<Piece>, changes: map<nat, Piece>, i: nat, value: Value)
    requires i < |pieces| && i in changes && changes[i] == Rewrite(env, pieces[i], value)
    ensures |Replaced(pieces, changes)| == |pieces| && Replaced(pieces, changes)[i] == Rewrite(env, pieces[i], value)
  {
  }

  lemma IsApplied(env: Env, r: Record, choice: Choice, before: Piece, after: Piece)
    requires r.id == before.message.id && !choice.NeedsContext?
    requires before.message.state == StateOf(r) && !before.message.state.Shows(Resolved(r, choice))
    requires after == Rewrite(env, before, Resolved(r, choice)) && after.message.state.Shows(Resolved(r, choice))
    requires GoodValue(env.checks, r, Resolved(r, choice))
    ensures Applied(env, r, choice, before, after)
  {
  }

  /** A writing apply changes a message only from the state recorded at the start of the session to its
      reviewed value, and leaves every other message and all text between them alone. */
  lemma ApplyTouches(env: Env, p: Project, journal: seq<Line>, catalog: Catalog, quality: Option<Review>,
                     reviewedOnly: bool)
    requires ValidSession(p.session) && Apply(env, p, journal, catalog, quality, reviewedOnly).Some?
    ensures Salvage.LoadJournal(env.checks, p.session, journal).Some?
    ensures var after := Apply(env, p, journal, catalog, quality, reviewedOnly).value;
            var reviews := Salvage.LoadJournal(env.checks, p.session, journal).value;
            && after.attributes == catalog.attributes && after.tail == catalog.tail
            && |after.pieces| == |catalog.pieces|
            && forall i :: 0 <= i < |catalog.pieces| ==> OneStep(env, p, reviews, catalog.pieces[i], after.pieces[i])
  {
    hide *;
    ApplyIs(env, p, journal, catalog, quality, reviewedOnly);
    StageIs(env, p, journal, catalog, reviewedOnly);
    SelectedAreNormal(env, p, journal, catalog, reviewedOnly);
    var st := Stage(env, p, journal, catalog, reviewedOnly).value;
    forall i: nat | i < |catalog.pieces|
      ensures OneStep(env, p, st.reviews, catalog.pieces[i], st.catalog.pieces[i])
    {
      StageTouches(env, p, journal, catalog, reviewedOnly, i);
      if i in st.changes {
        var r :| r in st.selected && r.id in st.reviews
                 && Applied(env, r, st.reviews[r.id].choice, catalog.pieces[i], st.catalog.pieces[i]);
        IsOneStep(env, p, st.reviews, r, catalog.pieces[i], st.catalog.pieces[i]);
      } else {
        NoStep(env, p, st.reviews, catalog.pieces[i]);
      }
    }
  }

  lemma ApplyIs(env: Env, p: Project, journal: seq<Line>, catalog: Catalog, quality: Option<Review>, reviewedOnly: bool)
    ensures Apply(env, p, journal, catalog, quality, reviewedOnly).Some? <==>
              && Stage(env, p, journal, catalog, reviewedOnly).Some?
              && MayWrite(env, p, Stage(env, p, journal, catalog, reviewedOnly).value, quality)
    ensures Apply(env, p, journal, catalog, quality, reviewedOnly).Some? ==>
              Apply(env, p, journal, catalog, quality, reviewedOnly).value ==
                  Stage(env, p, journal, catalog, reviewedOnly).value.catalog
  {
    hide Stage;
    hide MayWrite;
  }

  lemma IsOneStep(env: Env, p: Project, reviews: map<Id, Decision>, r: Record, before: Piece, after: Piece)
    requires r in AllRecords(p.session) && r.id in reviews && Applied(env, r, reviews[r.id].choice, before, after)
    ensures OneStep(env, p, reviews, before, after)
  {
  }

  lemma NoStep(env: Env, p: Project, reviews: map<Id, Decision>, piece: Piece)
    ensures OneStep(env, p, reviews, piece, piece)
  {
  }

  // ---------------------------------------------------------------- when it goes ahead

  /** Replacing the translation gives a message that shows it: what the staged check looks for. */
  ghost predicate RewriteShows(env: Env, pieces: seq<Piece>, r: Record, reviews: map<Id, Decision>)
    requires r.id in reviews
  {
    forall i: nat :: Replaces(pieces, r, reviews, i) ==>
      var value := Resolved(r, reviews[r.id].choice); env.state(pieces[i].body, value).Shows(value)
  }

  lemma FoundAfter(env: Env, pieces: seq<Piece>, selected: seq<Record>, reviews: map<Id, Decision>, r: Record)
    requires DistinctIds(pieces) && forall q | q in selected :: q.id in reviews
    requires PlanUpTo(env, pieces, selected, reviews, |selected|).Some?
    ensures var after := Replaced(pieces, PlanUpTo(env, pieces, selected, reviews, |selected|).value);
            Find(after, r.id) == Find(pieces, r.id) && Ids(after) == Ids(pieces) && DistinctIds(after)
  {
    hide *;
    PlanKeepsIds(env, pieces, selected, reviews, |selected|);
    ReplacedFinds(pieces, PlanUpTo(env, pieces, selected, reviews, |selected|).value, r.id);
    ReplacedKeepsIds(pieces, PlanUpTo(env, pieces, selected, reviews, |selected|).value);
  }

  /** After staging, a record's message shows its reviewed value exactly if it did before, or rewriting
      makes it so. */
  lemma ShownAfter(env: Env, pieces: seq<Piece>, selected: seq<Record>, reviews: map<Id, Decision>, r: Record)
    requires DistinctIds(pieces) && DistinctRecords(selected)
    requires forall q | q in selected :: q.id in reviews
    requires PlanUpTo(env, pieces, selected, reviews, |selected|).Some? && r in selected
    ensures var after := Replaced(pieces, PlanUpTo(env, pieces, selected, reviews, |selected|).value);
            && !reviews[r.id].choice.NeedsContext? && Find(after, r.id).Some?
            && (after[Find(after, r.id).value].message.state.Shows(Resolved(r, reviews[r.id].choice))
                <==> RewriteShows(env, pieces, r, reviews))
  {
    hide *;
    var n := |selected|;
    var changes := PlanUpTo(env, pieces, selected, reviews, n).value;
    FoundAfter(env, pieces, selected, reviews, r);
    PlanIs(env, pieces, selected, reviews, n);
    var j :| 0 <= j < n && selected[j] == r;
    GoesAheadIs(pieces, r, reviews);
    var i := Find(pieces, r.id).value;
    ReplacedIs(pieces, changes, i);
    RewriteShowsIs(env, pieces, r, reviews, i);
    if i in changes {
      PlanRewrites(env, pieces, selected, reviews, n, i);
      var l :| 0 <= l < n && Rewrites(env, pieces, selected[l], reviews, i, changes[i]);
      RewritesIs(env, pieces, selected[l], reviews, i, changes[i]);
      SameRecord(selected, j, l);
      ChangeIs(env, pieces, changes, i, Resolved(r, reviews[r.id].choice));
      RewriteIs(env, pieces[i], Resolved(r, reviews[r.id].choice));
    }
  }

  lemma SameRecord(records: seq<Record>, j: nat, l: nat)
    requires DistinctRecords(records) && j < |records| && l < |records| && records[j].id == records[l].id
    ensures j == l
  {
  }

  lemma RewriteIs(env: Env, piece: Piece, value: Value)
    ensures Rewrite(env, piece, value).message.state == env.state(piece.body, value)
  {
  }

  lemma GoesAheadIs(pieces: seq<Piece>, r: Record, reviews: map<Id, Decision>)
    requires GoesAhead(pieces, r, reviews)
    ensures r.id in reviews && !reviews[r.id].choice.NeedsContext?
    ensures Find(pieces, r.id).Some? && Find(pieces, r.id).value < |pieces|
    ensures Replaces(pieces, r, reviews, Find(pieces, r.id).value)
            || pieces[Find(pieces, r.id).value].message.state.Shows(Resolved(r, reviews[r.id].choice))
  {
  }

  lemma RewriteShowsIs(env: Env, pieces: seq<Piece>, r: Record, reviews: map<Id, Decision>, i: nat)
    requires r.id in reviews && !reviews[r.id].choice.NeedsContext? && Find(pieces, r.id) == Some(i)
    ensures var value := Resolved(r, reviews[r.id].choice);
            RewriteShows(env, pieces, r, reviews) <==>
                (Replaces(pieces, r, reviews, i) ==> env.state(pieces[i].body, value).Shows(value))
  {
  }

  lemma {:induction false} WithReviewDistinct(records: seq<Record>, reviews: map<Id, Decision>, k: nat)
    requires DistinctRecords(records) && k <= |records|
    ensures DistinctRecords(WithReview(records, reviews, k))
  {
    if k > 0 {
      WithReviewDistinct(records, reviews, k - 1);
      var before := WithReview(records, reviews, k - 1);
      forall i | 0 <= i < |before|
        ensures before[i].id != records[k - 1].id
      {
        WithReviewIs(records, reviews, k - 1, before[i]);
        var j :| 0 <= j < k - 1 && records[j] == before[i];
      }
    }
  }

  lemma SelectedDistinct(records: seq<Record>, reviews: map<Id, Decision>, reviewedOnly: bool)
    requires DistinctRecords(records) && Select(records, reviews, reviewedOnly).Some?
    ensures DistinctRecords(Select(records, reviews, reviewedOnly).value)
  {
    WithReviewDistinct(records, reviews, |records|);
  }

  /** Nothing stands between the selected records and the catalog. */
  ghost predicate Clear(env: Env, p: Project, catalog: Catalog, selected: seq<Record>, reviews: map<Id, Decision>) {
    && SameCatalog(p, catalog)
    && forall r | r in selected ::
         GoesAhead(catalog.pieces, r, reviews) && RewriteShows(env, catalog.pieces, r, reviews)
  }

  lemma PlanExists(env: Env, pieces: seq<Piece>, selected: seq<Record>, reviews: map<Id, Decision>)
    requires forall r | r in selected :: r.id in reviews
    ensures PlanUpTo(env, pieces, selected, reviews, |selected|).Some? <==>
              forall r | r in selected :: GoesAhead(pieces, r, reviews)
  {
    hide PlanUpTo;
    hide GoesAhead;
    PlanIs(env, pieces, selected, reviews, |selected|);
    if forall r | r in selected :: GoesAhead(pieces, r, reviews) {
      assert forall j :: 0 <= j < |selected| ==> selected[j] in selected;
    }
  }

  /** The staged catalog is confirmed exactly if every rewritten message shows its value. */
  lemma ConfirmedExactly(env: Env, pieces: seq<Piece>, selected: seq<Record>, reviews: map<Id, Decision>)
    requires DistinctIds(pieces) && DistinctRecords(selected) && forall r | r in selected :: r.id in reviews
    requires PlanUpTo(env, pieces, selected, reviews, |selected|).Some?
    ensures Confirmed(Replaced(pieces, PlanUpTo(env, pieces, selected, reviews, |selected|).value), selected, reviews)
       <==> forall r | r in selected :: RewriteShows(env, pieces, r, reviews)
  {
    hide PlanUpTo;
    hide RewriteShows;
    hide Replaced;
    hide Find;
    hide DistinctIds;
    hide DistinctRecords;
    hide Resolved;
    forall r | r in selected
      ensures var after := Replaced(pieces, PlanUpTo(env, pieces, selected, reviews, |selected|).value);
              && !reviews[r.id].choice.NeedsContext? && Find(after, r.id).Some?
              && (after[Find(after, r.id).value].message.state.Shows(Resolved(r, reviews[r.id].choice))
                  <==> RewriteShows(env, pieces, r, reviews))
    {
      ShownAfter(env, pieces, selected, reviews, r);
    }
  }

  /** Staging succeeds exactly if the journal loads, something is selected, the catalog is the one the
      session was started on, and every selected message is clear. If one is in the way nothing at all
      is written. */
  lemma StageSucceeds(env: Env, p: Project, journal: seq<Line>, catalog: Catalog, reviewedOnly: bool)
    requires ValidSession(p.session)
    ensures Stage(env, p, journal, catalog, reviewedOnly).Some? <==>
              && Salvage.LoadJournal(env.checks, p.session, journal).Some?
              && var reviews := Salvage.LoadJournal(env.checks, p.session, journal).value;
                 && Select(AllRecords(p.session), reviews, reviewedOnly).Some?
                 && Clear(env, p, catalog, Select(AllRecords(p.session), reviews, reviewedOnly).value, reviews)
  {
    hide *;
    var loaded := Salvage.LoadJournal(env.checks, p.session, journal);
    StageFails(env, p, journal, catalog, reviewedOnly);
    if loaded.Some? && Select(AllRecords(p.session), loaded.value, reviewedOnly).Some? {
      var reviews := loaded.value;
      var selected := Select(AllRecords(p.session), reviews, reviewedOnly).value;
      DistinctAll(p.session);
      JournalIsValid(env.checks, p.session, journal);
      SelectedAre(AllRecords(p.session), reviews, reviewedOnly);
      SelectedDistinct(AllRecords(p.session), reviews, reviewedOnly);
      RevalidationHolds(env.checks, AllRecords(p.session), selected, reviews);
      ClearIs(env, p, catalog, selected, reviews);
      PlanExists(env, catalog.pieces, selected, reviews);
      if SameCatalog(p, catalog) && PlanUpTo(env, catalog.pieces, selected, reviews, |selected|).Some? {
        SameCatalogIs(p, catalog);
        ConfirmedExactly(env, catalog.pieces, selected, reviews);
      }
      StageGoesOn(env, p, journal, catalog, reviewedOnly, reviews, selected);
    }
  }

  lemma DistinctAll(s: Session)
    requires ValidSession(s)
    ensures DistinctRecords(AllRecords(s))
  {
  }

  lemma ClearIs(env: Env, p: Project, catalog: Catalog, selected: seq<Record>, reviews: map<Id, Decision>)
    requires forall r | r in selected :: r.id in reviews
    ensures Clear(env, p, catalog, selected, reviews) <==>
              && SameCatalog(p, catalog)
              && (forall r | r in selected :: GoesAhead(catalog.pieces, r, reviews))
              && (forall r | r in selected :: RewriteShows(env, catalog.pieces, r, reviews))
  {
    hide GoesAhead;
    hide RewriteShows;
    hide SameCatalog;
  }

  lemma StageFails(env: Env, p: Project, journal: seq<Line>, catalog: Catalog, reviewedOnly: bool)
    ensures Stage(env, p, journal, catalog, reviewedOnly).Some? ==>
              && Salvage.LoadJournal(env.checks, p.session, journal).Some?
              && Select(AllRecords(p.session), Salvage.LoadJournal(env.checks, p.session, journal).value,
                        reviewedOnly).Some?
  {
    hide Salvage.LoadJournal;
    hide Select;
    hide PlanUpTo;
    hide Confirmed;
    hide Revalidated;
  }

  lemma StageGoesOn(env: Env, p: Project, journal: seq<Line>, catalog: Catalog, reviewedOnly: bool,
                    reviews: map<Id, Decision>, selected: seq<Record>)
    requires Salvage.LoadJournal(env.checks, p.session, journal) == Some(reviews)
    requires Select(AllRecords(p.session), reviews, reviewedOnly) == Some(selected)
    requires Revalidated(env.checks, selected, reviews) && forall r | r in selected :: r.id in reviews
    ensures Stage(env, p, journal, catalog, reviewedOnly).Some? <==>
              && SameCatalog(p, catalog)
              && PlanUpTo(env, catalog.pieces, selected, reviews, |selected|).Some?
              && Confirmed(Replaced(catalog.pieces, PlanUpTo(env, catalog.pieces, selected, reviews, |selected|).value),
                           selected, reviews)
  {
    hide Salvage.LoadJournal;
    hide Select;
    hide PlanUpTo;
    hide Confirmed;
    hide Revalidated;
    hide SameCatalog;
  }

  // ---------------------------------------------------------------- applying again

  lemma ShownIsAlready(env: Env, pieces: seq<Piece>, r: Record, reviews: map<Id, Decision>)
    requires r.id in reviews && !reviews[r.id].choice.NeedsContext? && Find(pieces, r.id).Some?
    requires pieces[Find(pieces, r.id).value].message.state.Shows(Resolved(r, reviews[r.id].choice))
    ensures GoesAhead(pieces, r, reviews) && RewriteShows(env, pieces, r, reviews)
    ensures forall i: nat :: !Replaces(pieces, r, reviews, i)
  {
  }

  lemma NothingReplaced(pieces: seq<Piece>)
    ensures Replaced(pieces, map[]) == pieces
  {
  }

  /** Nothing is left to replace in a staged catalog. */
  lemma StagedIsClear(env: Env, p: Project, journal: seq<Line>, catalog: Catalog, reviewedOnly: bool)
    requires ValidSession(p.session) && Stage(env, p, journal, catalog, reviewedOnly).Some?
    ensures var st := Stage(env, p, journal, catalog, reviewedOnly).value;
            && SameCatalog(p, st.catalog)
            && Clear(env, p, st.catalog, st.selected, st.reviews)
            && forall r, i: nat | r in st.selected :: !Replaces(st.catalog.pieces, r, st.reviews, i)
  {
    hide *;
    StageIs(env, p, journal, catalog, reviewedOnly);
    var st := Stage(env, p, journal, catalog, reviewedOnly).value;
    SameCatalogIs(p, catalog);
    PlanKeepsIds(env, catalog.pieces, st.selected, st.reviews, |st.selected|);
    ReplacedKeepsIds(catalog.pieces, st.changes);
    IsSameCatalog(p, catalog, st.catalog);
    forall r | r in st.selected
      ensures GoesAhead(st.catalog.pieces, r, st.reviews) && RewriteShows(env, st.catalog.pieces, r, st.reviews)
      ensures forall i: nat :: !Replaces(st.catalog.pieces, r, st.reviews, i)
    {
      ConfirmedIs(st.catalog.pieces, st.selected, st.reviews, r);
      ShownIsAlready(env, st.catalog.pieces, r, st.reviews);
    }
    ClearIs(env, p, st.catalog, st.selected, st.reviews);
  }

  lemma IsSameCatalog(p: Project, before: Catalog, after: Catalog)
    requires SameCatalog(p, before) && after.attributes == before.attributes
    requires Ids(after.pieces) == Ids(before.pieces) && DistinctIds(after.pieces)
    ensures SameCatalog(p, after)
  {
  }

  /** A second apply with the same journal finds every message as reviewed: it replaces nothing, needs no
      approval, and leaves the catalog as it is. */
  lemma SecondApply(env: Env, p: Project, journal: seq<Line>, catalog: Catalog, quality: Option<Review>,
                    reviewedOnly: bool, later: Option<Review>)
    requires ValidSession(p.session) && Apply(env, p, journal, catalog, quality, reviewedOnly).Some?
    ensures var after := Apply(env, p, journal, catalog, quality, reviewedOnly).value;
            && Stage(env, p, journal, after, reviewedOnly).Some?
            && Stage(env, p, journal, after, reviewedOnly).value.changes == map[]
            && Apply(env, p, journal, after, later, reviewedOnly) == Some(after)
  {
    hide *;
    ApplyIs(env, p, journal, catalog, quality, reviewedOnly);
    StageIs(env, p, journal, catalog, reviewedOnly);
    StagedIsClear(env, p, journal, catalog, reviewedOnly);
    var st := Stage(env, p, journal, catalog, reviewedOnly).value;
    var after := st.catalog;
    StageSucceeds(env, p, journal, after, reviewedOnly);
    StageIs(env, p, journal, after, reviewedOnly);
    var again := Stage(env, p, journal, after, reviewedOnly).value;
    ClearIs(env, p, after, st.selected, st.reviews);
    NothingPlanned(env, after.pieces, st.selected, st.reviews, |st.selected|);
    NothingReplaced(after.pieces);
    MayWriteNothing(env, p, again, later);
    ApplyIs(env, p, journal, after, later, reviewedOnly);
  }

  lemma {:induction false} NothingPlanned(env: Env, pieces: seq<Piece>, selected: seq<Record>,
                                          reviews: map<Id, Decision>, k: nat)
    requires k <= |selected| && forall r | r in selected :: r.id in reviews
    requires forall r | r in selected :: GoesAhead(pieces, r, reviews)
    requires forall r, i: nat | r in selected :: !Replaces(pieces, r, reviews, i)
    ensures PlanUpTo(env, pieces, selected, reviews, k) == Some(map[])
  {
    hide GoesAhead;
    hide Replaces;
    hide FateOf;
    hide Find;
    if k > 0 {
      NothingPlanned(env, pieces, selected, reviews, k - 1);
      var r := selected[k - 1];
      assert r in selected;
      FateIsAlready(pieces, r, reviews);
    }
  }

  lemma FateIsAlready(pieces: seq<Piece>, r: Record, reviews: map<Id, Decision>)
    requires GoesAhead(pieces, r, reviews) && forall i: nat :: !Replaces(pieces, r, reviews, i)
    ensures r.id in reviews && Find(pieces, r.id).Some?
    ensures FateOf(r, reviews[r.id].choice, pieces[Find(pieces, r.id).value].message.state) == Already
  {
    hide Resolved;
    assert !Replaces(pieces, r, reviews, Find(pieces, r.id).value);
  }

  lemma MayWriteNothing(env: Env, p: Project, staged: Staged, quality: Option<Review>)
    requires staged.changes == map[]
    ensures MayWrite(env, p, staged, quality)
  {
  }
}

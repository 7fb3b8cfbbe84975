/** `command_apply` itself, step by step on the text of the catalog, against its specification. */
module ApplyCommand {
  import opened Wrappers
  import opened Decisions
  import opened Responses
  import opened Catalogs
  import opened Splicing
  import opened CatalogSplice
  import opened SemanticReview
  import opened Applying
  import opened ApplyResults

  lemma {:induction false} PlanFails(env: Env, pieces: seq<Piece>, selected: seq<Record>, reviews: map<Id, Decision>,
                                     k: nat, n: nat)
    requires k <= n <= |selected| && forall r | r in selected :: r.id in reviews
    requires PlanUpTo(env, pieces, selected, reviews, k).None?
    ensures PlanUpTo(env, pieces, selected, reviews, n).None?
    decreases n
  {
    hide FateOf;
    hide Find;
    if k < n {
      PlanFails(env, pieces, selected, reviews, k, n - 1);
    }
  }

  lemma PlanStep(env: Env, pieces: seq<Piece>, selected: seq<Record>, reviews: map<Id, Decision>, k: nat)
    requires k < |selected| && forall r | r in selected :: r.id in reviews
    requires PlanUpTo(env, pieces, selected, reviews, k).Some?
    ensures var changes, r := PlanUpTo(env, pieces, selected, reviews, k).value, selected[k];
            var found, next := Find(pieces, r.id), PlanUpTo(env, pieces, selected, reviews, k + 1);
            if found.None? then next.None?
            else
              match FateOf(r, reviews[r.id].choice, pieces[found.value].message.state)
              case Conflict => next.None?
              case Already => next == Some(changes)
              case Replace(value) => next == Some(changes[found.value := Rewrite(env, pieces[found.value], value)])
  {
    hide FateOf;
    hide Find;
  }

  /** Two records never ask for the same message. */
  lemma FreshPosition(env: Env, pieces: seq<Piece>, selected: seq<Record>, reviews: map<Id, Decision>, k: nat)
    requires k < |selected| && DistinctRecords(selected) && forall r | r in selected :: r.id in reviews
    requires PlanUpTo(env, pieces, selected, reviews, k).Some? && Find(pieces, selected[k].id).Some?
    ensures Find(pieces, selected[k].id).value !in PlanUpTo(env, pieces, selected, reviews, k).value
  {
    hide PlanUpTo;
    hide FateOf;
    hide Find;
    PlanIs(env, pieces, selected, reviews, k);
    var i := Find(pieces, selected[k].id).value;
    forall j | 0 <= j < k
      ensures !Replaces(pieces, selected[j], reviews, i)
    {
      assert selected[j].id != selected[k].id;
    }
  }

  lemma DifferentSpans(pieces: seq<Piece>, i: nat, a: Piece, j: nat, b: Piece)
    requires i < |pieces| && j < |pieces| && i != j
    ensures SpanEdit(pieces, i, a) != SpanEdit(pieces, j, b)
  {
    if i < j {
      OffsetsGrow(pieces, i, j);
    } else {
      OffsetsGrow(pieces, j, i);
    }
  }

  lemma AddSpan(pieces: seq<Piece>, changes: map<nat, Piece>, edits: seq<Edit>, i: nat, piece: Piece)
    requires SpansOf(pieces, changes, edits) && i < |pieces| && i !in changes
    ensures SpansOf(pieces, changes[i := piece], edits + [SpanEdit(pieces, i, piece)])
  {
    hide SpanEdit;
    var added, all, more := SpanEdit(pieces, i, piece), edits + [SpanEdit(pieces, i, piece)], changes[i := piece];
    assert forall k: nat, e :: EditAt(pieces, more, k, e) <==> EditAt(pieces, changes, k, e) || (k == i && e == added);
    forall e | e in edits
      ensures e != added
    {
      var k: nat :| EditAt(pieces, changes, k, e);
      DifferentSpans(pieces, k, changes[k], i, piece);
    }
    forall e
      ensures e in all <==> exists k: nat :: EditAt(pieces, more, k, e)
    {
      assert e in all <==> e in edits || e == added;
      if e == added {
        assert EditAt(pieces, more, i, e);
      }
    }
    forall a, b | 0 <= a < b < |all|
      ensures all[a] != all[b]
    {
      if b == |edits| {
        assert all[a] in edits;
      }
    }
  }

  lemma NoSpans(pieces: seq<Piece>)
    ensures SpansOf(pieces, map[], [])
  {
  }

  lemma SomeSpans(pieces: seq<Piece>, changes: map<nat, Piece>, edits: seq<Edit>)
    requires SpansOf(pieces, changes, edits)
    ensures edits == [] <==> changes == map[]
  {
    if edits != [] {
      assert edits[0] in edits;
    }
    if changes != map[] {
      var k :| k in changes;
      var e := SpanEdit(pieces, k, changes[k]);
      assert EditAt(pieces, changes, k, e);
      assert e in edits;
    }
  }

  lemma PlanStarts(env: Env, pieces: seq<Piece>, selected: seq<Record>, reviews: map<Id, Decision>)
    requires forall r | r in selected :: r.id in reviews
    ensures PlanUpTo(env, pieces, selected, reviews, 0) == Some(map[])
  {
  }

  /** The replacements of the selected messages, collected one by one; None if one is in the way. */
  method Collect(env: Env, pieces: seq<Piece>, selected: seq<Record>, reviews: map<Id, Decision>)
    returns (r: Option<(seq<Edit>, map<nat, Piece>)>)
    requires DistinctRecords(selected) && forall q | q in selected :: q.id in reviews
    ensures r.Some? <==> PlanUpTo(env, pieces, selected, reviews, |selected|).Some?
    ensures r.Some? ==>
              && SpansOf(pieces, r.value.1, r.value.0)
              && PlanUpTo(env, pieces, selected, reviews, |selected|) == Some(r.value.1)
  {
    hide *;
    var edits: seq<Edit>, changes: map<nat, Piece> := [], map[];
    NoSpans(pieces);
    PlanStarts(env, pieces, selected, reviews);
    for k := 0 to |selected|
      invariant PlanUpTo(env, pieces, selected, reviews, k) == Some(changes) && SpansOf(pieces, changes, edits)
    {
      var q := selected[k];
      var found := Find(pieces, q.id);
      PlanStep(env, pieces, selected, reviews, k);
      if found.None? {
        PlanFails(env, pieces, selected, reviews, k + 1, |selected|);
        return None;
      }
      var i := found.value;
      match FateOf(q, reviews[q.id].choice, pieces[i].message.state) {
        case Conflict =>
          PlanFails(env, pieces, selected, reviews, k + 1, |selected|);
          return None;
        case Already =>
        case Replace(value) =>
          var piece := Rewrite(env, pieces[i], value);
          FreshPosition(env, pieces, selected, reviews, k);
          AddSpan(pieces, changes, edits, i, piece);
          edits := edits + [SpanEdit(pieces, i, piece)];
          changes := changes[i := piece];
      }
    }
    r := Some((edits, changes));
  }

  /** The text that is in the catalog's file afterwards; None is an error, and the file is left alone.
      It is the text of the catalog that Apply specifies, though it was made by splicing. */
  method ApplyFile(env: Env, p: Project, journal: seq<Line>, catalog: Catalog, quality: Option<Review>,
                   reviewedOnly: bool, write: bool)
    returns (text: Option<string>)
    requires ValidSession(p.session)
    ensures text == match Apply(env, p, journal, catalog, quality, reviewedOnly)
                    case None => None
                    case Some(after) => Some(if write then FileText(after) else FileText(catalog))
  {
    hide *;
    ghost var stage := Stage(env, p, journal, catalog, reviewedOnly);
    ApplyIs(env, p, journal, catalog, quality, reviewedOnly);
    StageFails(env, p, journal, catalog, reviewedOnly);
    var loaded := Salvage.LoadJournal(env.checks, p.session, journal);
    if loaded.None? {
      return None;
    }
    var reviews := loaded.value;
    var selection := Select(AllRecords(p.session), reviews, reviewedOnly);
    if selection.None? {
      return None;
    }
    var selected := selection.value;
    DistinctAll(p.session);
    JournalIsValid(env.checks, p.session, journal);
    SelectedAre(AllRecords(p.session), reviews, reviewedOnly);
    SelectedDistinct(AllRecords(p.session), reviews, reviewedOnly);
    RevalidationHolds(env.checks, AllRecords(p.session), selected, reviews);
    StageGoesOn(env, p, journal, catalog, reviewedOnly, reviews, selected);
    if !SameCatalog(p, catalog) {
      return None;
    }
    var original := FileText(catalog);
    var collected := Collect(env, catalog.pieces, selected, reviews);
    if collected.None? {
      return None;
    }
    var (edits, changes) := collected.value;
    SpliceReplaces(catalog, changes, edits);
    SomeSpans(catalog.pieces, changes, edits);
    var updated := Splice(original, edits);
    var staged := Replaced(catalog.pieces, changes);
    if !Confirmed(staged, selected, reviews) {
      return None;
    }
    StageIs(env, p, journal, catalog, reviewedOnly);
    if p.requireReview && edits != [] {
      MayWriteIs(env, p, stage.value, quality);
      if quality.None? || !Approved(env.checks, quality.value, p.attributes, StagedRecords(staged, selected)) {
        return None;
      }
    }
    MayWriteIs(env, p, stage.value, quality);
    text := Some(if write && edits != [] then updated else original);
    if edits == [] {
      NothingReplaced(catalog.pieces);
    }
  }

  lemma MayWriteIs(env: Env, p: Project, staged: Staged, quality: Option<Review>)
    ensures MayWrite(env, p, staged, quality) <==>
              (p.requireReview && staged.changes != map[] ==>
                 quality.Some? && Approved(env.checks, quality.value, p.attributes,
                                           StagedRecords(staged.catalog.pieces, staged.selected)))
  {
  }
}

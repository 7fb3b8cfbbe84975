/** `command_apply` of scripts/translation/translate_ts.py: reviewed translations are written into the
    catalog, each only if its message is still exactly what was reviewed. */
module Applying {
  import opened Wrappers
  import opened Decisions
  import opened Responses
  import opened Catalogs
  import opened SemanticReview
  import Salvage

  /** What is not modelled: the text checks, and what replacing the translation in the text of a message
      gives, as a text and as read again. */
  datatype Env = Env(checks: Checks, body: (string, Value) -> string, state: (string, Value) -> State)

  /** A translation session: its tasks, and what it recorded of the catalog. */
  datatype Project = Project(
    session: Session, attributes: map<string, string>, ids: seq<Id>, requireReview: bool, guidance: Option<string>)

  datatype Fate = Conflict | Already | Replace(value: Value)

  /** What apply does with a message: it is already as reviewed, or it is as recorded, or it is in the
      way. A question is no reviewed value. */
  function FateOf(r: Record, choice: Choice, state: State): Fate {
    if choice.NeedsContext? then Conflict
    else if state.Shows(Resolved(r, choice)) then Already
    else if state != StateOf(r) then Conflict
    else Replace(Resolved(r, choice))
  }

  function Rewrite(env: Env, piece: Piece, value: Value): Piece {
    piece.(body := env.body(piece.body, value), message := piece.message.(state := env.state(piece.body, value)))
  }

  function WithReview(records: seq<Record>, reviews: map<Id, Decision>, k: nat): (r: seq<Record>)
    requires k <= |records|
  {
    if k == 0 then []
    else WithReview(records, reviews, k - 1) + if records[k - 1].id in reviews then [records[k - 1]] else []
  }

  function Select(records: seq<Record>, reviews: map<Id, Decision>, reviewedOnly: bool): Option<seq<Record>> {
    var missing := exists r | r in records :: r.id !in reviews;
    if missing && !reviewedOnly then None
    else
      var selected := if reviewedOnly then WithReview(records, reviews, |records|) else records;
      if selected == [] then None else Some(selected)
  }

  predicate Revalidated(c: Checks, selected: seq<Record>, reviews: map<Id, Decision>) {
    forall r | r in selected ::
      r.id in reviews && Validate(c, r, Named(reviews[r.id].id), FieldsOf(reviews[r.id])).Some?
  }

  /** The messages to replace for the first k records, by position; None if one is in the way. */
  function PlanUpTo(env: Env, pieces: seq<Piece>, selected: seq<Record>, reviews: map<Id, Decision>,
                    k: nat): Option<map<nat, Piece>>
    requires k <= |selected| && forall r | r in selected :: r.id in reviews
  {
    if k == 0 then Some(map[])
    else
      match PlanUpTo(env, pieces, selected, reviews, k - 1)
      case None => None
      case Some(changes) =>
        var r := selected[k - 1];
        match Find(pieces, r.id)
        case None => None
        case Some(i) =>
          match FateOf(r, reviews[r.id].choice, pieces[i].message.state)
          case Conflict => None
          case Already => Some(changes)
          case Replace(value) => Some(changes[i := Rewrite(env, pieces[i], value)])
  }

  /** The staged catalog is read again: every selected message must show its reviewed value. */
  predicate Confirmed(pieces: seq<Piece>, selected: seq<Record>, reviews: map<Id, Decision>)
    requires forall r | r in selected :: r.id in reviews
  {
    forall r | r in selected ::
      && Find(pieces, r.id).Some?
      && !reviews[r.id].choice.NeedsContext?
      && pieces[Find(pieces, r.id).value].message.state.Shows(Resolved(r, reviews[r.id].choice))
  }

  predicate SameCatalog(p: Project, catalog: Catalog) {
    DistinctIds(catalog.pieces) && catalog.attributes == p.attributes && Ids(catalog.pieces) == p.ids
  }

  datatype Staged = Staged(
    catalog: Catalog, changes: map<nat, Piece>, selected: seq<Record>, reviews: map<Id, Decision>)

  /** Everything up to the staged catalog; None is an error, and nothing is written. */
  function Stage(env: Env, p: Project, journal: seq<Line>, catalog: Catalog, reviewedOnly: bool): Option<Staged> {
    match Salvage.LoadJournal(env.checks, p.session, journal)
    case None => None
    case Some(reviews) =>
      match Select(AllRecords(p.session), reviews, reviewedOnly)
      case None => None
      case Some(selected) =>
        if !Revalidated(env.checks, selected, reviews) || !SameCatalog(p, catalog) then None
        else
          match PlanUpTo(env, catalog.pieces, selected, reviews, |selected|)
          case None => None
          case Some(changes) =>
            var staged := catalog.(pieces := Replaced(catalog.pieces, changes));
            if Confirmed(staged.pieces, selected, reviews) then Some(Staged(staged, changes, selected, reviews))
            else None
  }

  /** The selected messages as the staged catalog has them, as task records. */
  function StagedRecords(pieces: seq<Piece>, selected: seq<Record>): (records: seq<Record>)
    ensures forall r | r in selected && Find(pieces, r.id).Some? ::
              RecordOf(pieces[Find(pieces, r.id).value].message, "") in records
  {
    if selected == [] then []
    else
      var rest := StagedRecords(pieces, selected[1..]);
      match Find(pieces, selected[0].id)
      case None => rest
      case Some(i) =>
        assert forall r | r in selected :: r == selected[0] || r in selected[1..];
        [RecordOf(pieces[i].message, "")] + rest
  }

  predicate MayWrite(env: Env, p: Project, staged: Staged, quality: Option<Review>) {
    p.requireReview && staged.changes != map[] ==>
      quality.Some? && Approved(env.checks, quality.value, p.attributes,
                                StagedRecords(staged.catalog.pieces, staged.selected))
  }

  /** The catalog that `apply --write` leaves; None is an error, and the catalog is left as it is. */
  function Apply(env: Env, p: Project, journal: seq<Line>, catalog: Catalog, quality: Option<Review>,
                 reviewedOnly: bool): Option<Catalog> {
    match Stage(env, p, journal, catalog, reviewedOnly)
    case None => None
    case Some(staged) => if MayWrite(env, p, staged, quality) then Some(staged.catalog) else None
  }

  // ---------------------------------------------------------------- what the plan is

  /** Record r asks for the message at position i to be replaced. */
  ghost predicate Replaces(pieces: seq<Piece>, r: Record, reviews: map<Id, Decision>, i: nat) {
    && r.id in reviews && Find(pieces, r.id) == Some(i)
    && FateOf(r, reviews[r.id].choice, pieces[i].message.state).Replace?
  }

  ghost predicate Rewrites(env: Env, pieces: seq<Piece>, r: Record, reviews: map<Id, Decision>, i: nat, piece: Piece) {
    Replaces(pieces, r, reviews, i) && piece == Rewrite(env, pieces[i], Resolved(r, reviews[r.id].choice))
  }

  /** The message of record r is there, and is either already as reviewed or still as recorded. */
  ghost predicate GoesAhead(pieces: seq<Piece>, r: Record, reviews: map<Id, Decision>) {
    && r.id in reviews && Find(pieces, r.id).Some?
    && FateOf(r, reviews[r.id].choice, pieces[Find(pieces, r.id).value].message.state) != Conflict
  }

  /** Nothing is in the way exactly if every record goes ahead, and then the messages that are still as
      recorded are replaced, and those alone. */
  lemma {:induction false} PlanIs(env: Env, pieces: seq<Piece>, selected: seq<Record>, reviews: map<Id, Decision>,
                                  k: nat)
    requires k <= |selected| && forall r | r in selected :: r.id in reviews
    ensures var plan := PlanUpTo(env, pieces, selected, reviews, k);
            && (plan.Some? <==> forall j :: 0 <= j < k ==> GoesAhead(pieces, selected[j], reviews))
            && (plan.Some? ==>
                 forall i: nat :: i in plan.value <==>
                     exists j :: 0 <= j < k && Replaces(pieces, selected[j], reviews, i))
  {
    hide FateOf;
    hide Find;
    if k > 0 {
      PlanIs(env, pieces, selected, reviews, k - 1);
    }
  }

  lemma {:induction false} PlanRewrites(env: Env, pieces: seq<Piece>, selected: seq<Record>, reviews: map<Id, Decision>,
                                        k: nat, i: nat)
    requires k <= |selected| && forall r | r in selected :: r.id in reviews
    requires PlanUpTo(env, pieces, selected, reviews, k).Some? && i in PlanUpTo(env, pieces, selected, reviews, k).value
    ensures i < |pieces|
    ensures exists j :: 0 <= j < k &&
              Rewrites(env, pieces, selected[j], reviews, i, PlanUpTo(env, pieces, selected, reviews, k).value[i])
  {
    hide Resolved;
    hide Rewrite;
    if i !in PlanUpTo(env, pieces, selected, reviews, k - 1).value
       || PlanUpTo(env, pieces, selected, reviews, k - 1).value[i]
          != PlanUpTo(env, pieces, selected, reviews, k).value[i] {
      assert Rewrites(env, pieces, selected[k - 1], reviews, i, PlanUpTo(env, pieces, selected, reviews, k).value[i]);
    } else {
      PlanRewrites(env, pieces, selected, reviews, k - 1, i);
    }
  }

  // ---------------------------------------------------------------- one apply

  /** Replacing messages keeps all identities. */
  ghost predicate KeepsIds(pieces: seq<Piece>, changes: map<nat, Piece>) {
    forall i | i in changes :: i < |pieces| && changes[i].message.id == pieces[i].message.id
  }

  lemma FoundAt(pieces: seq<Piece>, i: nat)
    requires DistinctIds(pieces) && i < |pieces|
    ensures Find(pieces, pieces[i].message.id) == Some(i)
  {
    hide Find;
    var j := Find(pieces, pieces[i].message.id).value;
    assert pieces[j].message.id == pieces[i].message.id;
  }

  lemma ReplacedKeepsIds(pieces: seq<Piece>, changes: map<nat, Piece>)
    requires DistinctIds(pieces) && KeepsIds(pieces, changes)
    ensures var after := Replaced(pieces, changes); Ids(after) == Ids(pieces) && DistinctIds(after)
  {
    hide Ids;
    var after := Replaced(pieces, changes);
    assert forall i :: 0 <= i < |pieces| ==> after[i].message.id == pieces[i].message.id;
    assert Ids(after) == Ids(pieces);
  }

  lemma ReplacedFinds(pieces: seq<Piece>, changes: map<nat, Piece>, id: Id)
    requires DistinctIds(pieces) && KeepsIds(pieces, changes)
    ensures Find(Replaced(pieces, changes), id) == Find(pieces, id)
  {
    hide Find;
    hide Ids;
    ReplacedKeepsIds(pieces, changes);
    var after := Replaced(pieces, changes);
    assert forall i :: 0 <= i < |pieces| ==> after[i].message.id == pieces[i].message.id;
    if Find(pieces, id).Some? {
      FoundAt(pieces, Find(pieces, id).value);
      FoundAt(after, Find(pieces, id).value);
    }
  }

  lemma PlanKeepsIds(env: Env, pieces: seq<Piece>, selected: seq<Record>, reviews: map<Id, Decision>, k: nat)
    requires k <= |selected| && forall r | r in selected :: r.id in reviews
    requires PlanUpTo(env, pieces, selected, reviews, k).Some?
    ensures KeepsIds(pieces, PlanUpTo(env, pieces, selected, reviews, k).value)
  {
    hide PlanUpTo;
    hide Resolved;
    var changes := PlanUpTo(env, pieces, selected, reviews, k).value;
    forall i | i in changes
      ensures i < |pieces| && changes[i].message.id == pieces[i].message.id
    {
      PlanRewrites(env, pieces, selected, reviews, k, i);
    }
  }

  /** The text that apply puts into a message: from exactly the recorded state to the reviewed value,
      finished, with everything else as it was. */
  ghost predicate Applied(env: Env, r: Record, choice: Choice, before: Piece, after: Piece) {
    && r.id == before.message.id
    && !choice.NeedsContext?
    && var value := Resolved(r, choice);
       && before.message.state == StateOf(r) && !before.message.state.Shows(value)
       && after == Rewrite(env, before, value) && after.message.state.Shows(value)
       && GoodValue(env.checks, r, value)
  }

  lemma {:induction false} WithReviewIs(records: seq<Record>, reviews: map<Id, Decision>, k: nat, r: Record)
    requires k <= |records|
    ensures r in WithReview(records, reviews, k) <==> r in records[..k] && r.id in reviews
  {
    if k > 0 {
      WithReviewIs(records, reviews, k - 1, r);
      assert records[..k] == records[..k - 1] + [records[k - 1]];
    }
  }

  /** Selection takes reviewed records only. */
  lemma SelectedAre(records: seq<Record>, reviews: map<Id, Decision>, reviewedOnly: bool)
    requires Select(records, reviews, reviewedOnly).Some?
    ensures forall r | r in Select(records, reviews, reviewedOnly).value :: r in records && r.id in reviews
  {
    forall r | r in Select(records, reviews, reviewedOnly).value
      ensures r in records && r.id in reviews
    {
      WithReviewIs(records, reviews, |records|, r);
    }
  }

  /** The second validation, of decisions that loading has validated, never fails. */
  lemma RevalidationHolds(c: Checks, records: seq<Record>, selected: seq<Record>, reviews: map<Id, Decision>)
    requires ValidMap(c, records, reviews) && DistinctRecords(records)
    requires forall r | r in selected :: r in records && r.id in reviews
    ensures Revalidated(c, selected, reviews)
    ensures forall r | r in selected :: IsNormal(c, r, reviews[r.id])
  {
    hide Validate;
    hide FieldsOf;
    hide RecordFor;
    forall r | r in selected
      ensures IsNormal(c, r, reviews[r.id])
    {
      var k :| 0 <= k < |records| && records[k] == r;
      RecordFound(records, k);
    }
  }
}

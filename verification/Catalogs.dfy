/** The catalog text that scripts/translation edits: messages as `iter_catalog_messages` reads them
    (scripts/translation/ts_utils.py), and the text between them. */
module Catalogs {
  import opened Wrappers
  import opened Decisions
  import S = Splicing

  /** What `state_for_message` compares. */
  datatype State = State(kind: string, translation: Option<string>, plurals: seq<string>)
  {
    /** The values that the message shows. */
    function Values(): seq<string> {
      if plurals != [] then plurals else [if translation.Some? then translation.value else ""]
    }

    predicate Shows(value: Value) {
      kind == "finished" && Values() == value.Texts()
    }
  }

  datatype Message = Message(id: Id, state: State, comment: string)

  /** A message element: the text before it, what it says, and its text behind the opening tag. */
  datatype Piece = Piece(gap: string, message: Message, body: string)

  datatype Catalog = Catalog(attributes: map<string, string>, pieces: seq<Piece>, tail: string)

  const OPENING := "<message"

  function Block(piece: Piece): (block: string)
    ensures block != []
  {
    OPENING + piece.body
  }

  function TextFrom(pieces: seq<Piece>, tail: string): string {
    if pieces == [] then tail else pieces[0].gap + Block(pieces[0]) + TextFrom(pieces[1..], tail)
  }

  function FileText(catalog: Catalog): string {
    TextFrom(catalog.pieces, catalog.tail)
  }

  function Ids(pieces: seq<Piece>): (ids: seq<Id>)
    ensures |ids| == |pieces|
    ensures forall i :: 0 <= i < |ids| ==> ids[i] == pieces[i].message.id
  {
    if pieces == [] then [] else [pieces[0].message.id] + Ids(pieces[1..])
  }

  /** Reading a catalog fails on a repeated message. */
  predicate DistinctIds(pieces: seq<Piece>) {
    forall i, j :: 0 <= i < j < |pieces| ==> pieces[i].message.id != pieces[j].message.id
  }

  /** The message of an id, by its position. */
  function Find(pieces: seq<Piece>, id: Id): (r: Option<nat>)
    ensures r.Some? ==> r.value < |pieces| && pieces[r.value].message.id == id
    ensures r.None? ==> forall i :: 0 <= i < |pieces| ==> pieces[i].message.id != id
  {
    if pieces == [] then None
    else if pieces[0].message.id == id then Some(0)
    else
      match Find(pieces[1..], id)
      case None => None
      case Some(i) => Some(i + 1)
  }

  /** What `message_to_task_record` records. */
  function RecordOf(m: Message, language: string): Record {
    Record(m.id, language, m.state.kind, m.state.translation, m.state.plurals, m.comment)
  }

  function StateOf(r: Record): State {
    State(r.currentType, r.currentTranslation, r.currentPlurals)
  }

  // ---------------------------------------------------------------- spans

  /** Where the gap before the message at position k starts. */
  function Offset(pieces: seq<Piece>, k: nat): nat
    requires k <= |pieces|
  {
    if k == 0 then 0 else Offset(pieces, k - 1) + |pieces[k - 1].gap| + |Block(pieces[k - 1])|
  }

  function StartOf(pieces: seq<Piece>, k: nat): nat
    requires k < |pieces|
  {
    Offset(pieces, k) + |pieces[k].gap|
  }

  function SpanEdit(pieces: seq<Piece>, k: nat, replacement: Piece): S.Edit
    requires k < |pieces|
  {
    S.Edit(StartOf(pieces, k), StartOf(pieces, k) + |Block(pieces[k])|, Block(replacement))
  }

  /** A catalog with some of its messages replaced, by position. */
  function Replaced(pieces: seq<Piece>, changes: map<nat, Piece>): (r: seq<Piece>)
    ensures |r| == |pieces|
  {
    seq(|pieces|, i requires 0 <= i < |pieces| => if i in changes then changes[i].(gap := pieces[i].gap) else pieces[i])
  }
}

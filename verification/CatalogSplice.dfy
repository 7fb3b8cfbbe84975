/** Splicing the replaced messages into the text of a catalog gives the text of the catalog in which
    they are replaced. */
module CatalogSplice {
  import opened Bytes
  import opened Splicing
  import opened Catalogs

  /** The edits of the messages from position k on that are replaced, in the order of the text. */
  ghost function EditsFrom(pieces: seq<Piece>, changes: map<nat, Piece>, k: nat): seq<Edit>
    requires k <= |pieces|
    decreases |pieces| - k
  {
    if k == |pieces| then []
    else (if k in changes then [SpanEdit(pieces, k, changes[k])] else []) + EditsFrom(pieces, changes, k + 1)
  }

  lemma {:induction false} TextAt(pieces: seq<Piece>, tail: string, k: nat)
    requires k <= |pieces|
    ensures Offset(pieces, k) <= |TextFrom(pieces, tail)|
    ensures TextFrom(pieces, tail)[Offset(pieces, k)..] == TextFrom(pieces[k..], tail)
  {
    if k == 0 {
      assert pieces[0..] == pieces;
    } else {
      TextAt(pieces, tail, k - 1);
      var piece, rest := pieces[k - 1], TextFrom(pieces[k..], tail);
      assert pieces[k - 1..][1..] == pieces[k..];
      var text, from, front := TextFrom(pieces, tail), Offset(pieces, k - 1), piece.gap + Block(piece);
      assert text[from..] == front + rest;
      DropFront(text, from, front, rest);
    }
  }

  lemma DropFront(text: string, from: nat, front: string, rest: string)
    requires from <= |text| && text[from..] == front + rest
    ensures from + |front| <= |text| && text[from + |front|..] == rest && text[from..from + |front|] == front
  {
    assert |text[from..]| == |front| + |rest|;
    assert text[from..][|front|..] == text[from + |front|..];
    assert text[from..][..|front|] == text[from..from + |front|];
  }

  /** Where the parts of the text are. */
  lemma PartsAt(pieces: seq<Piece>, tail: string, k: nat)
    requires k < |pieces|
    ensures var text, start, end := TextFrom(pieces, tail), StartOf(pieces, k), Offset(pieces, k + 1);
            && end == start + |Block(pieces[k])|
            && Offset(pieces, k) <= start < end <= |text|
            && text[Offset(pieces, k)..start] == pieces[k].gap
            && text[start..end] == Block(pieces[k])
  {
    hide TextFrom;
    TextAt(pieces, tail, k);
    TextFromIs(pieces, tail, k);
    var text, piece := TextFrom(pieces, tail), pieces[k];
    Associate(piece.gap, Block(piece), TextFrom(pieces[k + 1..], tail));
    DropFront(text, Offset(pieces, k), piece.gap, Block(piece) + TextFrom(pieces[k + 1..], tail));
    DropFront(text, StartOf(pieces, k), Block(piece), TextFrom(pieces[k + 1..], tail));
  }

  lemma TextFromIs(pieces: seq<Piece>, tail: string, k: nat)
    requires k < |pieces|
    ensures TextFrom(pieces[k..], tail) == pieces[k].gap + Block(pieces[k]) + TextFrom(pieces[k + 1..], tail)
  {
    assert pieces[k..][1..] == pieces[k + 1..];
  }

  lemma {:induction false} OffsetsGrow(pieces: seq<Piece>, i: nat, j: nat)
    requires i < j <= |pieces|
    ensures StartOf(pieces, i) + |Block(pieces[i])| <= Offset(pieces, j)
  {
    if i < j - 1 {
      OffsetsGrow(pieces, i, j - 1);
    }
  }

  // ---------------------------------------------------------------- one pass over the pieces

  /** A pass may start later, if it copies what it skips. */
  lemma OnePassFrom(text: string, edits: seq<Edit>, p: nat, q: nat)
    requires InOrder(text, edits, q) && p <= q
    ensures InOrder(text, edits, p) && q <= |text|
    ensures OnePass(text, edits, p) == text[p..q] + OnePass(text, edits, q)
  {
    OrderReach(text, edits, q);
    if edits == [] {
      assert text[p..] == text[p..q] + text[q..];
    } else {
      var e := edits[0];
      assert text[p..e.start] == text[p..q] + text[q..e.start];
      AssociateFour(text[p..q], text[q..e.start], e.text, OnePass(text, edits[1..], e.end));
    }
  }

  lemma EditsFromIs(pieces: seq<Piece>, changes: map<nat, Piece>, k: nat)
    requires k < |pieces|
    ensures var rest := EditsFrom(pieces, changes, k + 1);
            EditsFrom(pieces, changes, k) == if k in changes then [SpanEdit(pieces, k, changes[k])] + rest else rest
  {
  }

  lemma LastEdits(pieces: seq<Piece>, changes: map<nat, Piece>, tail: string)
    ensures var text, n := TextFrom(pieces, tail), |pieces|;
            && Offset(pieces, n) <= |text| && EditsFrom(pieces, changes, n) == []
            && InOrder(text, [], Offset(pieces, n)) && OnePass(text, [], Offset(pieces, n)) == tail
            && TextFrom(Replaced(pieces, changes)[n..], tail) == tail
  {
    TextAt(pieces, tail, |pieces|);
    assert pieces[|pieces|..] == [];
  }

  lemma {:induction false} OnePassOverPieces(pieces: seq<Piece>, changes: map<nat, Piece>, tail: string, k: nat)
    requires k <= |pieces|
    ensures var text, edits := TextFrom(pieces, tail), EditsFrom(pieces, changes, k);
            && InOrder(text, edits, Offset(pieces, k))
            && OnePass(text, edits, Offset(pieces, k)) == TextFrom(Replaced(pieces, changes)[k..], tail)
    decreases |pieces| - k
  {
    hide *;
    if k == |pieces| {
      LastEdits(pieces, changes, tail);
    } else {
      OnePassOverPieces(pieces, changes, tail, k + 1);
      OnePassStep(pieces, changes, tail, k);
    }
  }

  lemma OnePassStep(pieces: seq<Piece>, changes: map<nat, Piece>, tail: string, k: nat)
    requires k < |pieces|
    requires var text, edits := TextFrom(pieces, tail), EditsFrom(pieces, changes, k + 1);
             && InOrder(text, edits, Offset(pieces, k + 1))
             && OnePass(text, edits, Offset(pieces, k + 1)) == TextFrom(Replaced(pieces, changes)[k + 1..], tail)
    ensures var text, edits := TextFrom(pieces, tail), EditsFrom(pieces, changes, k);
            && InOrder(text, edits, Offset(pieces, k))
            && OnePass(text, edits, Offset(pieces, k)) == TextFrom(Replaced(pieces, changes)[k..], tail)
  {
    hide *;
    var text, rest := TextFrom(pieces, tail), EditsFrom(pieces, changes, k + 1);
    EditsFromIs(pieces, changes, k);
    PartsAt(pieces, tail, k);
    ReplacedIs(pieces, changes, k);
    TextFromIs(Replaced(pieces, changes), tail, k);
    if k in changes {
      var e := SpanEdit(pieces, k, changes[k]);
      AddEdit(text, e, rest, Offset(pieces, k));
    } else {
      OnePassFrom(text, rest, Offset(pieces, k), Offset(pieces, k + 1));
      JoinParts(text, Offset(pieces, k), StartOf(pieces, k), Offset(pieces, k + 1));
    }
  }

  lemma JoinParts(text: string, a: nat, b: nat, c: nat)
    requires a <= b <= c <= |text|
    ensures text[a..c] == text[a..b] + text[b..c]
  {
  }

  lemma ReplacedIs(pieces: seq<Piece>, changes: map<nat, Piece>, k: nat)
    requires k < |pieces|
    ensures var r := Replaced(pieces, changes);
            && |r| == |pieces|
            && r[k].gap == pieces[k].gap
            && Block(r[k]) == Block(if k in changes then changes[k] else pieces[k])
            && (k !in changes ==> r[k] == pieces[k])
    ensures k in changes ==>
              && SpanEdit(pieces, k, changes[k]).start == StartOf(pieces, k)
              && SpanEdit(pieces, k, changes[k]).end == StartOf(pieces, k) + |Block(pieces[k])|
              && SpanEdit(pieces, k, changes[k]).text == Block(changes[k])
  {
  }

  lemma AddEdit(text: string, e: Edit, rest: seq<Edit>, p: nat)
    requires InOrder(text, rest, e.end) && p <= e.start < e.end <= |text|
    ensures InOrder(text, [e] + rest, p)
    ensures OnePass(text, [e] + rest, p) == text[p..e.start] + e.text + OnePass(text, rest, e.end)
  {
    assert ([e] + rest)[1..] == rest;
  }

  // ---------------------------------------------------------------- any list of the same edits

  /** The edit that replaces the message at position k. */
  ghost predicate EditAt(pieces: seq<Piece>, changes: map<nat, Piece>, k: nat, e: Edit) {
    k < |pieces| && k in changes && e == SpanEdit(pieces, k, changes[k])
  }

  /** Edits are those of the changed messages, each listed once, in any order. */
  ghost predicate SpansOf(pieces: seq<Piece>, changes: map<nat, Piece>, edits: seq<Edit>) {
    && (forall k | k in changes :: k < |pieces|)
    && (forall e :: e in edits <==> exists k: nat :: EditAt(pieces, changes, k, e))
    && (forall i, j :: 0 <= i < j < |edits| ==> edits[i] != edits[j])
  }

  lemma EditsFromHas(pieces: seq<Piece>, changes: map<nat, Piece>, k: nat, e: Edit)
    requires k < |pieces|
    ensures e in EditsFrom(pieces, changes, k) <==>
              EditAt(pieces, changes, k, e) || e in EditsFrom(pieces, changes, k + 1)
  {
    hide EditsFrom;
    hide SpanEdit;
    EditsFromIs(pieces, changes, k);
  }

  lemma {:induction false} InEditsFrom(pieces: seq<Piece>, changes: map<nat, Piece>, k: nat, e: Edit)
    requires k <= |pieces|
    ensures e in EditsFrom(pieces, changes, k) <==> exists i: nat :: k <= i && EditAt(pieces, changes, i, e)
    decreases |pieces| - k
  {
    hide SpanEdit;
    if k == |pieces| {
    } else {
      hide EditAt;
      EditsFromHas(pieces, changes, k, e);
      InEditsFrom(pieces, changes, k + 1, e);
    }
  }

  lemma EditInText(pieces: seq<Piece>, changes: map<nat, Piece>, tail: string, k: nat, e: Edit)
    requires EditAt(pieces, changes, k, e)
    ensures InText(TextFrom(pieces, tail), e)
  {
    hide TextFrom;
    hide Offset;
    PartsAt(pieces, tail, k);
  }

  lemma EditsApart(pieces: seq<Piece>, changes: map<nat, Piece>, k: nat, d: Edit, l: nat, e: Edit)
    requires EditAt(pieces, changes, k, d) && EditAt(pieces, changes, l, e) && d != e
    ensures Apart(d, e)
  {
    hide Offset;
    if k < l {
      OffsetsGrow(pieces, k, l);
    } else if l < k {
      OffsetsGrow(pieces, l, k);
    }
  }

  lemma SpansAreDisjoint(pieces: seq<Piece>, changes: map<nat, Piece>, tail: string, edits: seq<Edit>)
    requires SpansOf(pieces, changes, edits)
    ensures Disjoint(TextFrom(pieces, tail), edits)
  {
    hide TextFrom;
    hide EditAt;
    hide InText;
    hide Apart;
    forall i | 0 <= i < |edits|
      ensures InText(TextFrom(pieces, tail), edits[i])
    {
      assert edits[i] in edits;
      var k: nat :| EditAt(pieces, changes, k, edits[i]);
      EditInText(pieces, changes, tail, k, edits[i]);
    }
    forall i, j | 0 <= i < j < |edits|
      ensures Apart(edits[i], edits[j])
    {
      assert edits[i] in edits && edits[j] in edits;
      var k: nat :| EditAt(pieces, changes, k, edits[i]);
      var l: nat :| EditAt(pieces, changes, l, edits[j]);
      EditsApart(pieces, changes, k, edits[i], l, edits[j]);
    }
  }

  /** The text that the splice leaves is the text of the catalog with those messages replaced: every
      gap and every other message is as it was. */
  lemma SpliceReplaces(catalog: Catalog, changes: map<nat, Piece>, edits: seq<Edit>)
    requires SpansOf(catalog.pieces, changes, edits)
    ensures Disjoint(FileText(catalog), edits) && InOrder(FileText(catalog), Sorted(edits), 0)
    ensures SpliceBack(FileText(catalog), Sorted(edits), 0) ==
            FileText(catalog.(pieces := Replaced(catalog.pieces, changes)))
  {
    hide TextFrom;
    hide SpliceBack;
    hide OnePass;
    hide Replaced;
    hide Sorted;
    hide InOrder;
    hide Disjoint;
    hide EditAt;
    hide EditsFrom;
    var pieces, text := catalog.pieces, FileText(catalog);
    SpansAreDisjoint(pieces, changes, catalog.tail, edits);
    SortedInOrder(text, edits);
    OnePassOverPieces(pieces, changes, catalog.tail, 0);
    forall e
      ensures e in Sorted(edits) <==> e in EditsFrom(pieces, changes, 0)
    {
      SortedSame(edits, e);
      InEditsFrom(pieces, changes, 0, e);
    }
    OrderUnique(text, Sorted(edits), EditsFrom(pieces, changes, 0), 0, 0);
    SpliceIsOnePass(text, Sorted(edits), 0);
    EmptyFront(text, OnePass(text, Sorted(edits), 0));
    WholeIs(Replaced(pieces, changes), catalog.tail);
    OffsetZero(pieces);
  }

  lemma OffsetZero(pieces: seq<Piece>)
    ensures Offset(pieces, 0) == 0
  {
  }

  lemma WholeIs(pieces: seq<Piece>, tail: string)
    ensures TextFrom(pieces[0..], tail) == TextFrom(pieces, tail)
  {
    assert pieces[0..] == pieces;
  }
}

/** The text splice of `command_apply` in scripts/translation/translate_ts.py: replacements of disjoint
    spans are applied from the back of the text to its front, so that every offset still means what it
    meant in the original text. */
module Splicing {
  import opened Bytes

  /** A span of the text, never empty, and what replaces it. */
  datatype Edit = Edit(start: nat, end: nat, text: string)

  ghost predicate InText(text: string, e: Edit) {
    e.start < e.end <= |text|
  }

  ghost predicate Apart(a: Edit, b: Edit) {
    a.end <= b.start || b.end <= a.start
  }

  /** Any list of edits whose spans are in the text and pairwise disjoint. */
  ghost predicate Disjoint(text: string, edits: seq<Edit>) {
    && (forall i :: 0 <= i < |edits| ==> InText(text, edits[i]))
    && forall i, j :: 0 <= i < j < |edits| ==> Apart(edits[i], edits[j])
  }

  /** Edits in the order of the text, from offset p on. */
  ghost predicate InOrder(text: string, edits: seq<Edit>, p: nat) {
    if edits == [] then p <= |text|
    else p <= edits[0].start < edits[0].end && InOrder(text, edits[1..], edits[0].end)
  }

  lemma {:induction false} OrderReach(text: string, edits: seq<Edit>, p: nat)
    requires InOrder(text, edits, p)
    ensures p <= |text| && (edits != [] ==> edits[0].end <= |text|)
  {
    if edits != [] {
      OrderReach(text, edits[1..], edits[0].end);
    }
  }

  // ---------------------------------------------------------------- sorting

  function Insert(e: Edit, sorted: seq<Edit>): (r: seq<Edit>)
    ensures multiset(r) == multiset{e} + multiset(sorted)
  {
    if sorted == [] || e.start <= sorted[0].start then [e] + sorted
    else
      assert sorted == [sorted[0]] + sorted[1..];
      [sorted[0]] + Insert(e, sorted[1..])
  }

  /** The ascending order; the original walks it from its end. */
  function Sorted(edits: seq<Edit>): (r: seq<Edit>)
    ensures multiset(r) == multiset(edits)
  {
    if edits == [] then []
    else
      assert edits == [edits[0]] + edits[1..];
      Insert(edits[0], Sorted(edits[1..]))
  }

  lemma {:induction false} InsertInOrder(text: string, e: Edit, sorted: seq<Edit>, p: nat)
    requires InOrder(text, sorted, p) && p <= e.start && InText(text, e)
    requires forall i :: 0 <= i < |sorted| ==> Apart(e, sorted[i])
    ensures InOrder(text, Insert(e, sorted), p)
  {
    if sorted == [] || e.start <= sorted[0].start {
      assert ([e] + sorted)[1..] == sorted;
      assert sorted != [] ==> Apart(e, sorted[0]);
    } else {
      var rest := sorted[1..];
      assert Apart(e, sorted[0]);
      InsertInOrder(text, e, rest, sorted[0].end);
      assert ([sorted[0]] + Insert(e, rest))[1..] == Insert(e, rest);
    }
  }

  lemma SortedIs(edits: seq<Edit>)
    requires edits != []
    ensures Sorted(edits) == Insert(edits[0], Sorted(edits[1..])) && Sorted([]) == []
  {
    hide Insert;
  }

  lemma SortedSame(edits: seq<Edit>, e: Edit)
    ensures e in Sorted(edits) <==> e in edits
  {
    hide Sorted;
    assert e in Sorted(edits) <==> e in multiset(Sorted(edits));
    assert e in edits <==> e in multiset(edits);
  }

  lemma FirstApart(text: string, edits: seq<Edit>)
    requires Disjoint(text, edits) && edits != []
    ensures InText(text, edits[0]) && Disjoint(text, edits[1..])
    ensures forall i :: 0 < i < |edits| ==> Apart(edits[0], edits[i])
  {
    hide InText;
    hide Apart;
  }

  lemma {:induction false} SortedInOrder(text: string, edits: seq<Edit>)
    requires Disjoint(text, edits)
    ensures InOrder(text, Sorted(edits), 0)
  {
    hide Sorted;
    hide Insert;
    hide Disjoint;
    hide Apart;
    if edits == [] {
      SortedIs([Edit(0, 0, "")]);
    } else {
      var rest := edits[1..];
      FirstApart(text, edits);
      SortedInOrder(text, rest);
      var sorted := Sorted(rest);
      forall i | 0 <= i < |sorted|
        ensures Apart(edits[0], sorted[i])
      {
        SortedSame(rest, sorted[i]);
        var k :| 0 <= k < |rest| && rest[k] == sorted[i];
        assert edits[k + 1] == sorted[i];
      }
      hide InOrder;
      SortedIs(edits);
      InsertInOrder(text, edits[0], sorted, 0);
    }
  }

  // ---------------------------------------------------------------- back to front

  /** The text after the edits have been applied, the last one first: what lies before the first of
      them is still as it was. */
  function SpliceBack(text: string, edits: seq<Edit>, p: nat): (r: string)
    requires InOrder(text, edits, p)
    ensures p <= |text| && p <= |r| && r[..p] == text[..p]
  {
    if edits == [] then text
    else
      var e := edits[0];
      var later := SpliceBack(text, edits[1..], e.end);
      assert later[..p] == later[..e.end][..p] && text[..p] == text[..e.end][..p];
      later[..e.start] + e.text + later[e.end..]
  }

  /** Where the k-th edit may start. */
  function Reached(edits: seq<Edit>, k: nat): nat
    requires k <= |edits|
  {
    if k == 0 then 0 else edits[k - 1].end
  }

  lemma {:induction false} OrderSuffix(text: string, edits: seq<Edit>, k: nat)
    requires InOrder(text, edits, 0) && k <= |edits|
    ensures InOrder(text, edits[k..], Reached(edits, k))
  {
    if k == 0 {
      assert edits[0..] == edits;
    } else {
      OrderSuffix(text, edits, k - 1);
      assert edits[k - 1..][1..] == edits[k..];
    }
  }

  method Splice(text: string, edits: seq<Edit>) returns (updated: string)
    requires Disjoint(text, edits)
    ensures InOrder(text, Sorted(edits), 0) && updated == SpliceBack(text, Sorted(edits), 0)
  {
    SortedInOrder(text, edits);
    var sorted := Sorted(edits);
    updated := text;
    var k := |sorted|;
    OrderSuffix(text, sorted, k);
    while k > 0
      invariant 0 <= k <= |sorted| && InOrder(text, sorted[k..], Reached(sorted, k))
      invariant updated == SpliceBack(text, sorted[k..], Reached(sorted, k))
    {
      OrderSuffix(text, sorted, k - 1);
      assert sorted[k - 1..][1..] == sorted[k..];
      k := k - 1;
      var e := sorted[k];
      updated := updated[..e.start] + e.text + updated[e.end..];
    }
    assert sorted[0..] == sorted;
  }

  /** Edits in order are determined by which edits they are, so the order they are listed in before the
      sort does not matter. */
  lemma {:induction false} OrderUnique(text: string, a: seq<Edit>, b: seq<Edit>, p: nat, q: nat)
    requires InOrder(text, a, p) && InOrder(text, b, q)
    requires forall e :: e in a <==> e in b
    ensures a == b
  {
    NoneInNone(a, b);
    if a != [] {
      AllLater(text, a[1..], a[0].end);
      AllLater(text, b[1..], b[0].end);
      assert a[0] in b && b[0] in a;
      assert a[0] == b[0];
      forall e
        ensures e in a[1..] <==> e in b[1..]
      {
        assert e in a <==> e == a[0] || e in a[1..];
        assert e in b <==> e == b[0] || e in b[1..];
      }
      OrderUnique(text, a[1..], b[1..], a[0].end, b[0].end);
    }
  }

  lemma NoneInNone(a: seq<Edit>, b: seq<Edit>)
    requires forall e :: e in a <==> e in b
    ensures a == [] <==> b == []
  {
    if a != [] {
      assert a[0] in a;
    }
    if b != [] {
      assert b[0] in b;
    }
  }

  lemma {:induction false} AllLater(text: string, edits: seq<Edit>, p: nat)
    requires InOrder(text, edits, p)
    ensures forall e | e in edits :: p <= e.start < e.end
  {
    if edits != [] {
      AllLater(text, edits[1..], edits[0].end);
      assert forall e | e in edits :: e == edits[0] || e in edits[1..];
    }
  }

  // ---------------------------------------------------------------- in one pass

  /** The text from p on in one pass: gaps copied, spans replaced. */
  function OnePass(text: string, edits: seq<Edit>, p: nat): string
    requires InOrder(text, edits, p)
  {
    OrderReach(text, edits, p);
    if edits == [] then text[p..]
    else text[p..edits[0].start] + edits[0].text + OnePass(text, edits[1..], edits[0].end)
  }

  /** Back to front equals one pass. */
  lemma {:induction false} SpliceIsOnePass(text: string, edits: seq<Edit>, p: nat)
    requires InOrder(text, edits, p)
    ensures p <= |text| && SpliceBack(text, edits, p) == text[..p] + OnePass(text, edits, p)
  {
    if edits != [] {
      var e := edits[0];
      SpliceIsOnePass(text, edits[1..], e.end);
      var later, rest := SpliceBack(text, edits[1..], e.end), OnePass(text, edits[1..], e.end);
      OrderReach(text, edits, p);
      assert later[..e.start] == text[..e.start] == text[..p] + text[p..e.start];
      assert later[e.end..] == rest;
      AssociateFour(text[..p], text[p..e.start], e.text, rest);
    }
  }

  // ---------------------------------------------------------------- what is left alone

  /** How far the edits that end by offset a move what lies there. */
  function Shift(edits: seq<Edit>, a: nat): int {
    if edits == [] || edits[0].end > a then 0
    else |edits[0].text| - (edits[0].end - edits[0].start) + Shift(edits[1..], a)
  }

  ghost predicate Untouched(edits: seq<Edit>, a: nat, b: nat) {
    forall i :: 0 <= i < |edits| ==> edits[i].end <= a || b <= edits[i].start
  }

  /** The text from offset `at` on begins with `part`. */
  ghost predicate Has(text: string, at: int, part: string) {
    0 <= at && at + |part| <= |text| && text[at..at + |part|] == part
  }

  lemma HasBehind(front: string, text: string, at: int, part: string)
    requires Has(text, at, part)
    ensures Has(front + text, |front| + at, part)
  {
    var whole := front + text;
    assert forall i :: 0 <= i < |part| ==> whole[|front| + at + i] == text[at + i] == part[i];
  }

  lemma OnePassIs(text: string, edits: seq<Edit>, p: nat)
    requires InOrder(text, edits, p)
    ensures p <= |text| && (edits == [] ==> OnePass(text, edits, p) == text[p..])
    ensures edits != [] ==>
              var e := edits[0];
              && p <= e.start < e.end <= |text| && InOrder(text, edits[1..], e.end)
              && OnePass(text, edits, p) == text[p..e.start] + e.text + OnePass(text, edits[1..], e.end)
  {
    OrderReach(text, edits, p);
  }

  lemma ShiftIs(edits: seq<Edit>, a: nat)
    ensures Shift(edits, a) ==
            if edits == [] || edits[0].end > a then 0
            else |edits[0].text| - (edits[0].end - edits[0].start) + Shift(edits[1..], a)
  {
  }

  lemma UntouchedRest(edits: seq<Edit>, a: nat, b: nat)
    requires Untouched(edits, a, b) && edits != []
    ensures (edits[0].end <= a || b <= edits[0].start) && Untouched(edits[1..], a, b)
  {
  }

  lemma {:induction false} OnePassKeeps(text: string, edits: seq<Edit>, p: nat, a: nat, b: nat)
    requires InOrder(text, edits, p) && p <= a <= b <= |text| && Untouched(edits, a, b)
    ensures Has(OnePass(text, edits, p), a - p + Shift(edits, a), text[a..b])
  {
    hide *;
    OnePassIs(text, edits, p);
    ShiftIs(edits, a);
    if edits == [] {
      GapKeeps(text, p, |text|, a, b, []);
      assert text[p..|text|] + [] == text[p..];
    } else {
      UntouchedRest(edits, a, b);
      var e, rest := edits[0], OnePass(text, edits[1..], edits[0].end);
      if e.end > a {
        GapKeeps(text, p, e.start, a, b, e.text + rest);
        Associate(text[p..e.start], e.text, rest);
      } else {
        OnePassKeeps(text, edits[1..], e.end, a, b);
        HasBehind(text[p..e.start] + e.text, rest, a - e.end + Shift(edits[1..], a), text[a..b]);
      }
    }
  }

  lemma GapKeeps(text: string, p: nat, q: nat, a: nat, b: nat, more: string)
    requires p <= a <= b <= q <= |text|
    ensures Has(text[p..q] + more, a - p, text[a..b])
  {
    var gap := text[p..q];
    var i, j := a - p, b - p;
    assert |gap[i..j]| == |text[a..b]|;
    forall n | 0 <= n < b - a
      ensures gap[i..j][n] == text[a..b][n]
    {
      assert gap[i + n] == text[p + (i + n)];
    }
    assert gap[i..j] == text[a..b];
    assert (gap + more)[a - p..b - p] == gap[a - p..b - p];
    assert a - p + |text[a..b]| == b - p;
  }

  lemma EmptyFront(text: string, rest: string)
    ensures text[..0] + rest == rest
  {
  }

  /** Text that no edit touches survives, at the offset that the edits before it shift it to. */
  lemma UntouchedStays(text: string, edits: seq<Edit>, a: nat, b: nat)
    requires InOrder(text, edits, 0) && a <= b <= |text| && Untouched(edits, a, b)
    ensures Has(SpliceBack(text, edits, 0), a + Shift(edits, a), text[a..b])
  {
    hide *;
    SpliceIsOnePass(text, edits, 0);
    EmptyFront(text, OnePass(text, edits, 0));
    OnePassKeeps(text, edits, 0, a, b);
  }

  /** And every edit is there, at its own shifted offset. */
  lemma {:induction false} EditsArrive(text: string, edits: seq<Edit>, p: nat, k: nat)
    requires InOrder(text, edits, p) && k < |edits|
    ensures Has(OnePass(text, edits, p), edits[k].start - p + Shift(edits, edits[k].start), edits[k].text)
  {
    hide *;
    OnePassIs(text, edits, p);
    ShiftIs(edits, edits[k].start);
    var e := edits[0];
    var rest := OnePass(text, edits[1..], e.end);
    if k == 0 {
      MiddleHas(text[p..e.start], e.text, rest);
    } else {
      EditsArrive(text, edits[1..], e.end, k - 1);
      StartsLater(text, edits[1..], e.end, k - 1);
      HasBehind(text[p..e.start] + e.text, rest, edits[k].start - e.end + Shift(edits[1..], edits[k].start),
                edits[k].text);
    }
  }

  lemma MiddleHas(a: string, b: string, c: string)
    ensures Has(a + b + c, |a|, b)
  {
    assert forall i :: 0 <= i < |b| ==> (a + b + c)[|a| + i] == b[i];
  }

  lemma {:induction false} StartsLater(text: string, edits: seq<Edit>, p: nat, k: nat)
    requires InOrder(text, edits, p) && k < |edits|
    ensures p <= edits[k].start
  {
    if k > 0 {
      StartsLater(text, edits[1..], edits[0].end, k - 1);
    }
  }
}

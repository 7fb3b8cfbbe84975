/** `command_merge` of scripts/translation/translate_ts.py: responses are merged into the review
    journal, a difference being an error unless replacement is asked for. */
module Merging {
  import opened Wrappers
  import opened Decisions
  import opened Responses

  /** The decisions of a response that count: a question is left in the response. */
  function Reviewed(m: map<Id, Decision>): map<Id, Decision> {
    map id | id in m && !m[id].choice.NeedsContext? :: m[id]
  }

  ghost predicate Conflicts(a: map<Id, Decision>, b: map<Id, Decision>) {
    exists id :: id in a && id in b && a[id] != b[id]
  }

  ghost function MergeUpTo(reviews: map<Id, Decision>, responses: seq<map<Id, Decision>>, k: nat,
                           replace: bool): Option<map<Id, Decision>>
    requires k <= |responses|
  {
    if k == 0 then Some(reviews)
    else
      match MergeUpTo(reviews, responses, k - 1, replace)
      case None => None
      case Some(m) =>
        var incoming := Reviewed(responses[k - 1]);
        if Conflicts(m, incoming) && !replace then None else Some(m + incoming)
  }

  ghost function Merged(reviews: map<Id, Decision>, responses: seq<map<Id, Decision>>,
                        replace: bool): Option<map<Id, Decision>> {
    MergeUpTo(reviews, responses, |responses|, replace)
  }

  /** One response, decision by decision in any order. */
  method MergeResponse(merged: map<Id, Decision>, response: map<Id, Decision>, replace: bool)
    returns (r: Option<map<Id, Decision>>)
    ensures r == if Conflicts(merged, Reviewed(response)) && !replace then None else Some(merged + Reviewed(response))
  {
    var result := merged;
    var left := response.Keys;
    ghost var incoming := Reviewed(response);
    while left != {}
      invariant left <= response.Keys
      invariant forall id :: id in result <==> id in merged || (id in incoming && id !in left)
      invariant forall id | id in result ::
                  result[id] == if id in incoming && id !in left then incoming[id] else merged[id]
      invariant !replace ==> forall id | id in incoming && id !in left && id in merged :: merged[id] == incoming[id]
      decreases left
    {
      var id :| id in left;
      left := left - {id};
      var decision := response[id];
      if decision.choice.NeedsContext? {
        continue;
      }
      if id in result && result[id] != decision && !replace {
        assert id in merged && id in incoming && merged[id] != incoming[id];
        return None;
      }
      result := result[id := decision];
    }
    assert result == merged + incoming;
    r := Some(result);
  }

  method MergeResponses(reviews: map<Id, Decision>, responses: seq<map<Id, Decision>>, replace: bool)
    returns (r: Option<map<Id, Decision>>)
    ensures r == Merged(reviews, responses, replace)
  {
    var merged := reviews;
    for k := 0 to |responses|
      invariant MergeUpTo(reviews, responses, k, replace) == Some(merged)
    {
      var next := MergeResponse(merged, responses[k], replace);
      if next.None? {
        MergeFails(reviews, responses, k + 1, |responses|, replace);
        return None;
      }
      merged := next.value;
    }
    r := Some(merged);
  }

  lemma {:induction false} MergeFails(reviews: map<Id, Decision>, responses: seq<map<Id, Decision>>, k: nat, n: nat,
                                      replace: bool)
    requires k <= n <= |responses| && MergeUpTo(reviews, responses, k, replace).None?
    ensures MergeUpTo(reviews, responses, n, replace).None?
    decreases n
  {
    if k < n {
      MergeFails(reviews, responses, k, n - 1, replace);
    }
  }

  // ---------------------------------------------------------------- merging without replacement

  /** Decision d for a message is in the journal or in one of the first k responses. */
  ghost predicate Offered(reviews: map<Id, Decision>, responses: seq<map<Id, Decision>>, k: nat, id: Id, d: Decision)
    requires k <= |responses|
  {
    || (id in reviews && reviews[id] == d)
    || exists i :: 0 <= i < k && id in Reviewed(responses[i]) && Reviewed(responses[i])[id] == d
  }

  /** No message has two different decisions on offer. */
  ghost predicate Agreed(reviews: map<Id, Decision>, responses: seq<map<Id, Decision>>, k: nat)
    requires k <= |responses|
  {
    forall id, d, e | Offered(reviews, responses, k, id, d) && Offered(reviews, responses, k, id, e) :: d == e
  }

  lemma AgreedBefore(reviews: map<Id, Decision>, responses: seq<map<Id, Decision>>, k: nat)
    requires 0 < k <= |responses| && Agreed(reviews, responses, k)
    ensures Agreed(reviews, responses, k - 1)
  {
    hide Reviewed;
    if !Agreed(reviews, responses, k - 1) {
      var id, d, e :| Offered(reviews, responses, k - 1, id, d) && Offered(reviews, responses, k - 1, id, e) && d != e;
      OfferedStep(reviews, responses, k, id, d);
      OfferedStep(reviews, responses, k, id, e);
    }
  }

  /** Without replacement, merging succeeds exactly if all that is on offer agrees, and then the result
      is everything on offer. */
  lemma {:induction false} MergeIsUnion(reviews: map<Id, Decision>, responses: seq<map<Id, Decision>>, k: nat)
    requires k <= |responses|
    ensures MergeUpTo(reviews, responses, k, false).Some? <==> Agreed(reviews, responses, k)
    ensures MergeUpTo(reviews, responses, k, false).Some? ==>
              var m := MergeUpTo(reviews, responses, k, false).value;
              forall id, d :: Offered(reviews, responses, k, id, d) <==> id in m && m[id] == d
  {
    hide Reviewed;
    if k == 0 {
      assert forall id, d :: Offered(reviews, responses, 0, id, d) <==> id in reviews && reviews[id] == d;
    } else {
      MergeIsUnion(reviews, responses, k - 1);
      var incoming := Reviewed(responses[k - 1]);
      forall id, d
        ensures Offered(reviews, responses, k, id, d) <==>
                  Offered(reviews, responses, k - 1, id, d) || (id in incoming && incoming[id] == d)
      {
        OfferedStep(reviews, responses, k, id, d);
      }
      if Agreed(reviews, responses, k) {
        AgreedBefore(reviews, responses, k);
        var m := MergeUpTo(reviews, responses, k - 1, false).value;
        forall id | id in m && id in incoming
          ensures m[id] == incoming[id]
        {
          assert Offered(reviews, responses, k, id, m[id]) && Offered(reviews, responses, k, id, incoming[id]);
        }
        assert !Conflicts(m, incoming);
      }
    }
  }

  lemma OfferedStep(reviews: map<Id, Decision>, responses: seq<map<Id, Decision>>, k: nat, id: Id, d: Decision)
    requires 0 < k <= |responses|
    ensures Offered(reviews, responses, k, id, d) <==>
              Offered(reviews, responses, k - 1, id, d)
              || (id in Reviewed(responses[k - 1]) && Reviewed(responses[k - 1])[id] == d)
  {
    hide Reviewed;
  }

  /** Without replacement no journal entry is ever altered or lost. */
  lemma MergeKeepsEntries(reviews: map<Id, Decision>, responses: seq<map<Id, Decision>>, id: Id)
    requires Merged(reviews, responses, false).Some? && id in reviews
    ensures id in Merged(reviews, responses, false).value && Merged(reviews, responses, false).value[id] == reviews[id]
  {
    MergeIsUnion(reviews, responses, |responses|);
    assert Offered(reviews, responses, |responses|, id, reviews[id]);
  }

  /** Without replacement, neither success nor the result depends on the order of the responses. */
  lemma MergeAnyOrder(reviews: map<Id, Decision>, a: seq<map<Id, Decision>>, b: seq<map<Id, Decision>>)
    requires multiset(a) == multiset(b)
    ensures Merged(reviews, a, false) == Merged(reviews, b, false)
  {
    hide Merged;
    assert forall m :: m in a <==> m in multiset(a);
    assert forall m :: m in b <==> m in multiset(b);
    MergeSame(reviews, a, b);
  }

  /** Nor on how often one is given. */
  lemma MergeSame(reviews: map<Id, Decision>, a: seq<map<Id, Decision>>, b: seq<map<Id, Decision>>)
    requires forall m :: m in a <==> m in b
    ensures Merged(reviews, a, false) == Merged(reviews, b, false)
  {
    hide MergeUpTo;
    hide Reviewed;
    MergeIsUnion(reviews, a, |a|);
    MergeIsUnion(reviews, b, |b|);
    forall id, d
      ensures Offered(reviews, a, |a|, id, d) <==> Offered(reviews, b, |b|, id, d)
    {
      if Offered(reviews, a, |a|, id, d) {
        OfferedAnyOrder(reviews, a, b, id, d);
      } else if Offered(reviews, b, |b|, id, d) {
        OfferedAnyOrder(reviews, b, a, id, d);
      }
    }
    if Merged(reviews, a, false).Some? {
      SameUnion(reviews, a, b);
    }
  }

  lemma OfferedAnyOrder(reviews: map<Id, Decision>, a: seq<map<Id, Decision>>, b: seq<map<Id, Decision>>, id: Id,
                        d: Decision)
    requires (forall m | m in a :: m in b) && Offered(reviews, a, |a|, id, d)
    ensures Offered(reviews, b, |b|, id, d)
  {
    hide Reviewed;
    if !(id in reviews && reviews[id] == d) {
      var i :| 0 <= i < |a| && id in Reviewed(a[i]) && Reviewed(a[i])[id] == d;
      assert a[i] in b;
    }
  }

  lemma SameUnion(reviews: map<Id, Decision>, a: seq<map<Id, Decision>>, b: seq<map<Id, Decision>>)
    requires Merged(reviews, a, false).Some? && Merged(reviews, b, false).Some?
    requires forall id, d :: Offered(reviews, a, |a|, id, d) <==> Offered(reviews, b, |b|, id, d)
    ensures Merged(reviews, a, false) == Merged(reviews, b, false)
  {
    hide MergeUpTo;
    hide Offered;
    var m, n := Merged(reviews, a, false).value, Merged(reviews, b, false).value;
    MergeIsUnion(reviews, a, |a|);
    MergeIsUnion(reviews, b, |b|);
    forall id
      ensures id in m <==> id in n
      ensures id in m ==> m[id] == n[id]
    {
      assert id in m ==> Offered(reviews, a, |a|, id, m[id]);
      assert id in n ==> Offered(reviews, b, |b|, id, n[id]);
    }
    assert m == n;
  }

  // ---------------------------------------------------------------- merging with replacement

  /** Response i is the last of the first k that decides on a message. */
  ghost predicate DecidesLast(responses: seq<map<Id, Decision>>, k: nat, i: nat, id: Id)
    requires k <= |responses|
  {
    i < k && id in Reviewed(responses[i]) && forall j :: i < j < k ==> id !in Reviewed(responses[j])
  }

  ghost predicate Undecided(responses: seq<map<Id, Decision>>, k: nat, id: Id)
    requires k <= |responses|
  {
    forall i :: 0 <= i < k ==> id !in Reviewed(responses[i])
  }

  lemma ReplaceStep(reviews: map<Id, Decision>, responses: seq<map<Id, Decision>>, k: nat)
    requires 0 < k <= |responses| && MergeUpTo(reviews, responses, k - 1, true).Some?
    ensures MergeUpTo(reviews, responses, k, true) ==
            Some(MergeUpTo(reviews, responses, k - 1, true).value + Reviewed(responses[k - 1]))
  {
    hide Reviewed;
    hide Conflicts;
  }

  lemma MergeStart(reviews: map<Id, Decision>, responses: seq<map<Id, Decision>>)
    ensures MergeUpTo(reviews, responses, 0, true) == Some(reviews)
  {
  }

  /** With replacement merging always succeeds, and the last response that decides on a message wins. */
  lemma {:induction false} ReplaceTakesLast(reviews: map<Id, Decision>, responses: seq<map<Id, Decision>>, k: nat,
                                            id: Id)
    requires k <= |responses|
    ensures MergeUpTo(reviews, responses, k, true).Some?
    ensures var m := MergeUpTo(reviews, responses, k, true).value;
            && (forall i: nat :: DecidesLast(responses, k, i, id) ==> id in m && m[id] == Reviewed(responses[i])[id])
            && (Undecided(responses, k, id) ==> (id in m <==> id in reviews) && (id in m ==> m[id] == reviews[id]))
  {
    hide MergeUpTo;
    hide Reviewed;
    if k == 0 {
      MergeStart(reviews, responses);
    } else {
      ReplaceTakesLast(reviews, responses, k - 1, id);
      ReplaceStep(reviews, responses, k);
      forall i: nat | DecidesLast(responses, k, i, id)
        ensures var m := MergeUpTo(reviews, responses, k, true).value;
                id in m && m[id] == Reviewed(responses[i])[id]
      {
        assert i < k - 1 ==> DecidesLast(responses, k - 1, i, id);
      }
    }
  }

  // ---------------------------------------------------------------- validity

  lemma {:induction false} MergeIsValid(c: Checks, records: seq<Record>, reviews: map<Id, Decision>,
                                        responses: seq<map<Id, Decision>>, k: nat, replace: bool)
    requires k <= |responses| && MergeUpTo(reviews, responses, k, replace).Some?
    requires ValidMap(c, records, reviews) && forall r | r in responses :: ValidMap(c, records, r)
    ensures ValidMap(c, records, MergeUpTo(reviews, responses, k, replace).value)
    ensures (forall id | id in reviews :: !reviews[id].choice.NeedsContext?) ==>
              var m := MergeUpTo(reviews, responses, k, replace).value;
              forall id | id in m :: !m[id].choice.NeedsContext?
  {
    hide IsNormal;
    hide RecordFor;
    hide Conflicts;
    if k > 0 {
      MergeIsValid(c, records, reviews, responses, k - 1, replace);
      assert responses[k - 1] in responses;
    }
  }
}

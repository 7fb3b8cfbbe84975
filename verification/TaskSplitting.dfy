/** `split_tasks` of scripts/translation/translate_ts.py: a greedy packer with a record limit and a
    byte limit that keeps a context group together when it can. */
module TaskSplitting {
  import opened Wrappers

  const RESERVE := 2048

  /** A record as the packer sees it: its id, its context, and the bytes of its JSON line. */
  datatype Item = Item(id: string, context: Option<string>, bytes: nat)

  datatype Limits = Limits(maxRecords: nat, maxBytes: nat)

  function Bytes(items: seq<Item>): nat {
    if items == [] then 0 else Bytes(items[..|items| - 1]) + items[|items| - 1].bytes
  }

  function Flatten(tasks: seq<seq<Item>>): seq<Item> {
    if tasks == [] then [] else Flatten(tasks[..|tasks| - 1]) + tasks[|tasks| - 1]
  }

  /** What one task can hold. */
  predicate Fits(l: Limits, items: seq<Item>) {
    |items| <= l.maxRecords && RESERVE + Bytes(items) <= l.maxBytes
  }

  /** The bytes of a task that are left for records. */
  function Capacity(l: Limits): int {
    l.maxBytes - RESERVE
  }

  predicate TooLarge(l: Limits, item: Item) {
    RESERVE + item.bytes > l.maxBytes
  }

  /** A maximal run of equal contexts, as `itertools.groupby` forms them. */
  ghost predicate IsGroup(items: seq<Item>, a: nat, b: nat) {
    && a < b <= |items|
    && (forall k :: a <= k < b ==> items[k].context == items[a].context)
    && (a > 0 ==> items[a - 1].context != items[a].context)
    && (b < |items| ==> items[b].context != items[a].context)
  }

  /** A cut at p separates no group that would fit a task of its own. */
  ghost predicate NaturalCut(l: Limits, items: seq<Item>, p: nat) {
    forall a: nat, b: nat | IsGroup(items, a, b) && a < p < b :: !Fits(l, items[a..b])
  }

  /** Neighbours would not have fit one task together. */
  ghost predicate Tight(l: Limits, tasks: seq<seq<Item>>) {
    forall k :: 0 < k < |tasks| ==> !Fits(l, tasks[k - 1] + tasks[k])
  }

  ghost predicate Packed(l: Limits, items: seq<Item>, tasks: seq<seq<Item>>) {
    && Flatten(tasks) <= items
    && (forall k :: 0 <= k < |tasks| ==> tasks[k] != [] && Fits(l, tasks[k]))
    && Tight(l, tasks)
    && (forall k :: 0 < k < |tasks| ==> NaturalCut(l, items, |Flatten(tasks[..k])|))
  }

  // ---------------------------------------------------------------- sums

  lemma {:induction false} BytesAppend(a: seq<Item>, b: seq<Item>)
    ensures Bytes(a + b) == Bytes(a) + Bytes(b)
  {
    if b == [] {
      assert a + b == a;
    } else {
      assert (a + b)[..|a + b| - 1] == a + b[..|b| - 1];
      BytesAppend(a, b[..|b| - 1]);
    }
  }

  lemma BytesOne(items: seq<Item>, k: nat)
    requires k < |items|
    ensures Bytes(items[k..k + 1]) == items[k].bytes && items[k..k + 1] == [items[k]]
  {
    assert items[k..k + 1][..0] == [];
  }

  lemma GroupUnique(items: seq<Item>, a: nat, b: nat, c: nat, d: nat, p: nat)
    requires IsGroup(items, a, b) && IsGroup(items, c, d) && a <= p < b && c <= p < d
    ensures a == c && b == d
  {
    assert items[p].context == items[a].context == items[c].context;
  }

  // ---------------------------------------------------------------- one more task

  /** What the loop keeps of the tasks closed so far and the one being filled. */
  ghost predicate Filling(l: Limits, items: seq<Item>, tasks: seq<seq<Item>>, current: seq<Item>, i: nat) {
    && i <= |items| && Packed(l, items, tasks)
    && Flatten(tasks) + current == items[..i]
    && (current != [] ==> Fits(l, current)) && (tasks != [] ==> NaturalCut(l, items, |Flatten(tasks)|))
  }

  /** The last closed task and the current one do not fit together, once `pending` is added. */
  ghost predicate Apart(l: Limits, tasks: seq<seq<Item>>, current: seq<Item>, pending: seq<Item>) {
    tasks != [] ==> !Fits(l, tasks[|tasks| - 1] + (current + pending))
  }

  /** What is still to come of a group that is to stay together. */
  ghost function Pending(l: Limits, items: seq<Item>, a: nat, i: nat, b: nat): seq<Item>
    requires a <= i <= b <= |items|
  {
    if Fits(l, items[a..b]) then items[i..b] else []
  }

  lemma FlattenAppend(tasks: seq<seq<Item>>, task: seq<Item>)
    ensures Flatten(tasks + [task]) == Flatten(tasks) + task
    ensures forall k :: 0 <= k <= |tasks| ==> (tasks + [task])[..k] == tasks[..k]
  {
  }

  /** Closing the current task. */
  lemma Close(l: Limits, items: seq<Item>, tasks: seq<seq<Item>>, current: seq<Item>, i: nat)
    requires Filling(l, items, tasks, current, i) && current != []
    requires tasks != [] ==> !Fits(l, tasks[|tasks| - 1] + current)
    requires NaturalCut(l, items, i)
    ensures Packed(l, items, tasks + [current]) && Flatten(tasks + [current]) == items[..i]
    ensures NaturalCut(l, items, |Flatten(tasks + [current])|)
  {
    var more := tasks + [current];
    FlattenAppend(tasks, current);
    hide Fits;
    hide NaturalCut;
    hide Flatten;
    assert more[..|tasks|] == tasks;
  }

  lemma AtGroupStart(l: Limits, items: seq<Item>, a: nat)
    requires a <= |items|
    requires 0 < a < |items| ==> items[a - 1].context != items[a].context
    ensures NaturalCut(l, items, a)
  {
    forall c: nat, d: nat
      ensures !(IsGroup(items, c, d) && c < a < d)
    {
      if IsGroup(items, c, d) && c < a < d {
        SameInGroup(items, c, d, a);
      }
    }
  }

  lemma SameInGroup(items: seq<Item>, a: nat, b: nat, p: nat)
    requires IsGroup(items, a, b) && a < p < b
    ensures items[p - 1].context == items[p].context
  {
  }

  lemma MoreDoesNotFit(l: Limits, items: seq<Item>, more: seq<Item>)
    requires Fits(l, items + more)
    ensures Fits(l, items)
  {
    BytesAppend(items, more);
  }

  // ---------------------------------------------------------------- the steps of the loops

  /** What holds when the next group, if any, starts at a. */
  ghost predicate BetweenGroups(l: Limits, items: seq<Item>, tasks: seq<seq<Item>>, current: seq<Item>, a: nat) {
    && Filling(l, items, tasks, current, a) && Apart(l, tasks, current, [])
    && (0 < a < |items| ==> items[a - 1].context != items[a].context)
    && (current == [] <==> a == 0) && (a == 0 ==> tasks == [])
  }

  /** What holds within the group from a to b, before record j is placed. */
  ghost predicate WithinGroup(l: Limits, items: seq<Item>, tasks: seq<seq<Item>>, current: seq<Item>, a: nat, j: nat,
                              b: nat) {
    && IsGroup(items, a, b) && a <= j <= b
    && Filling(l, items, tasks, current, j) && Apart(l, tasks, current, Pending(l, items, a, j, b))
    && (Fits(l, items[a..b]) ==> Fits(l, current + items[j..b]))
    && (j > a ==> current != [])
  }

  /** The condition for starting a task with a group. */
  predicate MovesGroup(l: Limits, current: seq<Item>, group: seq<Item>) {
    && current != [] && |group| <= l.maxRecords && Bytes(group) + RESERVE <= l.maxBytes
    && (|current| + |group| > l.maxRecords || RESERVE + Bytes(current) + Bytes(group) > l.maxBytes)
  }

  /** The condition for starting a task with a record. */
  predicate MovesRecord(l: Limits, current: seq<Item>, item: Item) {
    current != [] && (|current| >= l.maxRecords || RESERVE + Bytes(current) + item.bytes > l.maxBytes)
  }

  lemma StayInTask(l: Limits, items: seq<Item>, tasks: seq<seq<Item>>, current: seq<Item>, a: nat, b: nat)
    requires BetweenGroups(l, items, tasks, current, a) && IsGroup(items, a, b)
    requires !MovesGroup(l, current, items[a..b])
    ensures WithinGroup(l, items, tasks, current, a, a, b)
  {
    hide Bytes;
    hide Packed;
    hide NaturalCut;
    hide Flatten;
    var group := items[a..b];
    BytesAppend(current, group);
    assert [] + group == group && current + [] == current;
    if tasks != [] && Fits(l, group) {
      DoesNotFitMore(l, tasks[|tasks| - 1], current, group);
    }
  }

  lemma DoesNotFitMore(l: Limits, last: seq<Item>, current: seq<Item>, more: seq<Item>)
    requires !Fits(l, last + current)
    ensures !Fits(l, last + (current + more))
  {
    assert last + (current + more) == last + current + more;
    if Fits(l, last + current + more) {
      MoreDoesNotFit(l, last + current, more);
    }
  }

  lemma StartTaskWithGroup(l: Limits, items: seq<Item>, tasks: seq<seq<Item>>, current: seq<Item>, a: nat, b: nat)
    requires BetweenGroups(l, items, tasks, current, a) && IsGroup(items, a, b)
    requires MovesGroup(l, current, items[a..b])
    ensures WithinGroup(l, items, tasks + [current], [], a, a, b)
  {
    hide Bytes;
    hide Fits;
    hide MovesGroup;
    hide Packed;
    hide Flatten;
    hide NaturalCut;
    var group := items[a..b];
    MovedGroupFits(l, current, group);
    assert [] + group == group && current + [] == current;
    AtGroupStart(l, items, a);
    Close(l, items, tasks, current, a);
    assert items[..a] + [] == items[..a];
  }

  lemma MovedGroupFits(l: Limits, current: seq<Item>, group: seq<Item>)
    requires MovesGroup(l, current, group)
    ensures current != [] && Fits(l, group) && !Fits(l, current + group)
  {
    hide Bytes;
    BytesAppend(current, group);
  }

  lemma StartTaskWithRecord(l: Limits, items: seq<Item>, tasks: seq<seq<Item>>, current: seq<Item>, a: nat, j: nat,
                            b: nat)
    requires WithinGroup(l, items, tasks, current, a, j, b) && j < b && l.maxRecords >= 1
    requires !TooLarge(l, items[j]) && MovesRecord(l, current, items[j])
    ensures WithinGroup(l, items, tasks + [current], [items[j]], a, j + 1, b)
  {
    hide Bytes;
    hide Packed;
    hide Flatten;
    var item := items[j];
    BytesOne(items, j);
    BytesAppend(current, [item]);
    GroupTooLarge(l, items, current, a, j, b);
    CutInGroup(l, items, a, j, b);
    assert current + [] == current && [item] + [] == [item];
    Close(l, items, tasks, current, j);
    assert items[..j] + [item] == items[..j + 1];
  }

  /** A group that fits on is never interrupted. */
  lemma GroupTooLarge(l: Limits, items: seq<Item>, current: seq<Item>, a: nat, j: nat, b: nat)
    requires a <= j < b <= |items| && !Fits(l, current + [items[j]])
    requires Fits(l, items[a..b]) ==> Fits(l, current + items[j..b])
    ensures !Fits(l, items[a..b])
  {
    if Fits(l, items[a..b]) {
      assert current + items[j..b] == current + [items[j]] + items[j + 1..b];
      MoreDoesNotFit(l, current + [items[j]], items[j + 1..b]);
    }
  }

  lemma CutInGroup(l: Limits, items: seq<Item>, a: nat, j: nat, b: nat)
    requires IsGroup(items, a, b) && a <= j < b && !Fits(l, items[a..b])
    ensures NaturalCut(l, items, j)
  {
    forall c: nat, d: nat | IsGroup(items, c, d) && c < j < d
      ensures !Fits(l, items[c..d])
    {
      GroupUnique(items, a, b, c, d, j);
    }
  }

  lemma FillMore(l: Limits, items: seq<Item>, tasks: seq<seq<Item>>, current: seq<Item>, j: nat)
    requires Filling(l, items, tasks, current, j) && j < |items| && l.maxRecords >= 1
    requires !TooLarge(l, items[j]) && !MovesRecord(l, current, items[j])
    ensures Filling(l, items, tasks, current + [items[j]], j + 1)
  {
    hide Packed;
    hide Flatten;
    hide NaturalCut;
    BytesOne(items, j);
    BytesAppend(current, [items[j]]);
    assert items[..j] + [items[j]] == items[..j + 1];
    assert Flatten(tasks) + (current + [items[j]]) == Flatten(tasks) + current + [items[j]];
  }

  lemma ApartMore(l: Limits, items: seq<Item>, tasks: seq<seq<Item>>, current: seq<Item>, a: nat, j: nat, b: nat)
    requires a <= j < b <= |items| && Apart(l, tasks, current, Pending(l, items, a, j, b))
    ensures Apart(l, tasks, current + [items[j]], Pending(l, items, a, j + 1, b))
  {
    hide Fits;
    var more := current + [items[j]];
    if Fits(l, items[a..b]) {
      assert current + items[j..b] == more + items[j + 1..b];
    } else if tasks != [] {
      assert current + [] == current && more + [] == more;
      DoesNotFitMore(l, tasks[|tasks| - 1], current, [items[j]]);
    }
  }

  lemma AddRecord(l: Limits, items: seq<Item>, tasks: seq<seq<Item>>, current: seq<Item>, a: nat, j: nat, b: nat)
    requires WithinGroup(l, items, tasks, current, a, j, b) && j < b && l.maxRecords >= 1
    requires !TooLarge(l, items[j]) && !MovesRecord(l, current, items[j])
    ensures WithinGroup(l, items, tasks, current + [items[j]], a, j + 1, b)
  {
    hide Bytes;
    hide Filling;
    hide Apart;
    hide Pending;
    hide Fits;
    hide IsGroup;
    assert a <= j < b <= |items| by { GroupBounds(items, a, b); }
    FillMore(l, items, tasks, current, j);
    ApartMore(l, items, tasks, current, a, j, b);
    assert current + items[j..b] == current + [items[j]] + items[j + 1..b];
  }

  lemma GroupBounds(items: seq<Item>, a: nat, b: nat)
    requires IsGroup(items, a, b)
    ensures a < b <= |items|
  {
  }

  lemma LeaveGroup(l: Limits, items: seq<Item>, tasks: seq<seq<Item>>, current: seq<Item>, a: nat, b: nat)
    requires WithinGroup(l, items, tasks, current, a, b, b)
    ensures BetweenGroups(l, items, tasks, current, b)
  {
    assert items[b..b] == [];
    assert b < |items| ==> items[b - 1].context == items[a].context;
  }

  lemma Start(l: Limits, items: seq<Item>)
    ensures BetweenGroups(l, items, [], [], 0) && Bytes([]) == 0
  {
  }

  lemma Finish(l: Limits, items: seq<Item>, tasks: seq<seq<Item>>, current: seq<Item>)
    requires BetweenGroups(l, items, tasks, current, |items|)
    ensures var all := if current != [] then tasks + [current] else tasks;
            Packed(l, items, all) && Flatten(all) == items
  {
    hide Bytes;
    assert items[..|items|] == items && current + [] == current;
    if current != [] {
      AtGroupStart(l, items, |items|);
      Close(l, items, tasks, current, |items|);
    }
  }

  lemma AtBoundary(l: Limits, items: seq<Item>, tasks: seq<seq<Item>>, current: seq<Item>, a: nat)
    requires BetweenGroups(l, items, tasks, current, a)
    ensures 0 < a < |items| ==> items[a - 1].context != items[a].context
    ensures a <= |items|
  {
  }

  // ---------------------------------------------------------------- the packer

  method GroupEnd(items: seq<Item>, a: nat) returns (b: nat)
    requires a < |items| && (a > 0 ==> items[a - 1].context != items[a].context)
    ensures a < b <= |items| && IsGroup(items, a, b)
  {
    b := a + 1;
    while b < |items| && items[b].context == items[a].context
      invariant a < b <= |items|
      invariant forall k :: a <= k < b ==> items[k].context == items[a].context
    {
      b := b + 1;
    }
  }

  method SumBytes(items: seq<Item>) returns (sum: nat)
    ensures sum == Bytes(items)
  {
    sum := 0;
    for k := 0 to |items|
      invariant sum == Bytes(items[..k])
    {
      sum := sum + items[k].bytes;
      assert items[..k + 1][..k] == items[..k];
    }
    assert items[..|items|] == items;
  }

  /** Either rejects, naming the first record that no task can hold, or returns tasks that together are
      the input, each within the limits, cut only where a cut is natural, none of them mergeable with
      the next. */
  method SplitTasks(items: seq<Item>, l: Limits) returns (r: Result<seq<seq<Item>>, string>)
    requires l.maxRecords >= 1
    ensures r.Success? <==> forall k :: 0 <= k < |items| ==> !TooLarge(l, items[k])
    ensures r.Success? ==> Packed(l, items, r.value) && Flatten(r.value) == items
    ensures r.Failure? ==> exists k :: 0 <= k < |items| && TooLarge(l, items[k]) && r.error == items[k].id
                                       && forall i :: 0 <= i < k ==> !TooLarge(l, items[i])
  {
    hide Bytes;
    hide BetweenGroups;
    hide WithinGroup;
    hide Packed;
    hide Fits;
    hide Flatten;
    hide IsGroup;
    Start(l, items);
    var tasks: seq<seq<Item>> := [];
    var current: seq<Item> := [];
    var currentBytes := RESERVE;
    var a := 0;
    while a < |items|
      invariant a <= |items|
      invariant BetweenGroups(l, items, tasks, current, a) && currentBytes == RESERVE + Bytes(current)
      invariant forall k :: 0 <= k < a ==> !TooLarge(l, items[k])
    {
      AtBoundary(l, items, tasks, current, a);
      var b := GroupEnd(items, a);
      var sum := SumBytes(items[a..b]);
      if current != [] && b - a <= l.maxRecords && sum + RESERVE <= l.maxBytes
         && (|current| + (b - a) > l.maxRecords || currentBytes + sum > l.maxBytes) {
        StartTaskWithGroup(l, items, tasks, current, a, b);
        tasks := tasks + [current];
        current := [];
        currentBytes := RESERVE;
      } else {
        StayInTask(l, items, tasks, current, a, b);
      }
      var j := a;
      while j < b
        invariant a <= j <= b
        invariant WithinGroup(l, items, tasks, current, a, j, b) && currentBytes == RESERVE + Bytes(current)
        invariant forall k :: 0 <= k < j ==> !TooLarge(l, items[k])
      {
        var item := items[j];
        if RESERVE + item.bytes > l.maxBytes {
          return Failure(item.id);
        }
        BytesOne(items, j);
        if current != [] && (|current| >= l.maxRecords || currentBytes + item.bytes > l.maxBytes) {
          StartTaskWithRecord(l, items, tasks, current, a, j, b);
          tasks := tasks + [current];
          current := [];
          currentBytes := RESERVE;
          assert current + [item] == [item];
        } else {
          AddRecord(l, items, tasks, current, a, j, b);
        }
        BytesAppend(current, [item]);
        current := current + [item];
        currentBytes := currentBytes + item.bytes;
        j := j + 1;
      }
      LeaveGroup(l, items, tasks, current, a, b);
      a := b;
    }
    Finish(l, items, tasks, current);
    if current != [] {
      tasks := tasks + [current];
    }
    r := Success(tasks);
  }

  // ---------------------------------------------------------------- how many tasks there can be

  /** The pairs (0, 1), (2, 3), ... of the first 2n tasks that together exceed the record limit. */
  function HeavyPairs(l: Limits, tasks: seq<seq<Item>>, n: nat): (heavy: nat)
    requires 2 * n <= |tasks|
    ensures heavy <= n
  {
    if n == 0 then 0
    else HeavyPairs(l, tasks, n - 1) + if |tasks[2 * n - 2]| + |tasks[2 * n - 1]| > l.maxRecords then 1 else 0
  }

  lemma {:induction false} PairsUseUp(l: Limits, tasks: seq<seq<Item>>, n: nat)
    requires Tight(l, tasks) && 2 * n <= |tasks| && Capacity(l) >= 0
    ensures var heavy := HeavyPairs(l, tasks, n);
            var used := Flatten(tasks[..2 * n]);
            && heavy * (l.maxRecords + 1) <= |used|
            && (n - heavy) * (Capacity(l) + 1) <= Bytes(used)
  {
    hide *;
    HeavyPairsIs(l, tasks, n);
    if n == 0 {
      NoPairs(tasks);
    } else {
      PairsUseUp(l, tasks, n - 1);
      var a, b := tasks[2 * n - 2], tasks[2 * n - 1];
      NextPair(tasks, n);
      BytesAppend(a, b);
      BytesAppend(Flatten(tasks[..2 * n - 2]), a + b);
      PairTooHeavy(l, tasks, n);
      OneMore(HeavyPairs(l, tasks, n - 1), l.maxRecords + 1);
      OneMore(n - 1 - HeavyPairs(l, tasks, n - 1), Capacity(l) + 1);
      assert tasks[..2 * (n - 1)] == tasks[..2 * n - 2];
    }
  }

  lemma HeavyPairsIs(l: Limits, tasks: seq<seq<Item>>, n: nat)
    requires 2 * n <= |tasks|
    ensures HeavyPairs(l, tasks, n) ==
            if n == 0 then 0
            else HeavyPairs(l, tasks, n - 1) + if |tasks[2 * n - 2]| + |tasks[2 * n - 1]| > l.maxRecords then 1 else 0
  {
  }

  lemma NoPairs(tasks: seq<seq<Item>>)
    ensures Flatten(tasks[..0]) == [] && Bytes([]) == 0
  {
  }

  lemma NextPair(tasks: seq<seq<Item>>, n: nat)
    requires 0 < n && 2 * n <= |tasks|
    ensures Flatten(tasks[..2 * n]) == Flatten(tasks[..2 * n - 2]) + (tasks[2 * n - 2] + tasks[2 * n - 1])
  {
    assert tasks[..2 * n][..2 * n - 1] == tasks[..2 * n - 1];
    assert tasks[..2 * n - 1][..2 * n - 2] == tasks[..2 * n - 2];
  }

  lemma PairTooHeavy(l: Limits, tasks: seq<seq<Item>>, n: nat)
    requires Tight(l, tasks) && 0 < n && 2 * n <= |tasks|
    ensures var pair := tasks[2 * n - 2] + tasks[2 * n - 1]; |pair| > l.maxRecords || Bytes(pair) > Capacity(l)
  {
    hide Bytes;
    assert !Fits(l, tasks[2 * n - 1 - 1] + tasks[2 * n - 1]);
  }

  lemma OneMore(k: nat, d: nat)
    ensures (k + 1) * d == k * d + d
  {
  }

  lemma AtLeastAsMuch(a: nat, b: nat, d: nat)
    requires a <= b
    ensures a * d <= b * d
  {
  }

  lemma BeyondQuotient(k: nat, d: nat, total: nat)
    requires d > 0 && k > total / d
    ensures k * d > total
  {
    OneMore(total / d, d);
    AtLeastAsMuch(total / d + 1, k, d);
  }

  lemma AtMostQuotient(k: nat, d: nat, total: nat)
    requires d > 0 && k * d <= total
    ensures k <= total / d
  {
    if k > total / d {
      BeyondQuotient(k, d, total);
    }
  }

  lemma PairCount(l: Limits, items: seq<Item>, tasks: seq<seq<Item>>, n: nat)
    requires Tight(l, tasks) && Flatten(tasks) == items && Capacity(l) >= 0 && 2 * n <= |tasks|
    ensures n <= |items| / (l.maxRecords + 1) + Bytes(items) / (Capacity(l) + 1)
  {
    hide Flatten;
    hide Bytes;
    hide Tight;
    hide Capacity;
    var heavy := HeavyPairs(l, tasks, n);
    PairsUseUp(l, tasks, n);
    FlattenPrefix(tasks, 2 * n);
    AtMostQuotient(heavy, l.maxRecords + 1, |items|);
    AtMostQuotient(n - heavy, Capacity(l) + 1, Bytes(items));
  }

  /** No two neighbours fit together, so the number of tasks is at most twice what the totals allow. */
  lemma TaskCount(l: Limits, items: seq<Item>, tasks: seq<seq<Item>>)
    requires Tight(l, tasks) && Flatten(tasks) == items && Capacity(l) >= 0
    ensures |tasks| <= 2 * (|items| / (l.maxRecords + 1) + Bytes(items) / (Capacity(l) + 1)) + 1
  {
    hide *;
    PairCount(l, items, tasks, |tasks| / 2);
  }

  lemma {:induction false} FlattenPrefix(tasks: seq<seq<Item>>, k: nat)
    requires k <= |tasks|
    ensures |Flatten(tasks[..k])| <= |Flatten(tasks)| && Bytes(Flatten(tasks[..k])) <= Bytes(Flatten(tasks))
    decreases |tasks|
  {
    if k < |tasks| {
      var most := tasks[..|tasks| - 1];
      FlattenPrefix(most, k);
      assert most[..k] == tasks[..k];
      BytesAppend(Flatten(most), tasks[|tasks| - 1]);
    } else {
      assert tasks[..k] == tasks;
    }
  }
}

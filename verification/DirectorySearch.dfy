/** FileSystem::FindFiles and its recursive worker (POSIX), src/common/file_system.cpp: a depth-first
    search over a directory graph that links may make cyclic, with one visited list shared by the
    whole recursion.

    The file system is a finite graph that does not change during the search: the real directories,
    each with its entries in the order readdir returns them. A path is passed together with the real
    directory it resolves to. RealPath is total, so every directory entry has a real target. */
module DirectorySearch {
  import opened PathComponents
  import opened Wrappers

  const U32 := 0x1_0000_0000

  /** What a 32-bit counter shows after n increments. */
  function Wrapped(n: int): nat {
    n % U32
  }

  lemma WrappedMore(n: int)
    ensures Wrapped(n + 1) == (Wrapped(n) + 1) % U32
  {
  }

  lemma WrappedJoin(m: int, n: int)
    ensures Wrapped(m + n) == (Wrapped(m) + Wrapped(n)) % U32
  {
  }

  lemma WrappedNone()
    ensures Wrapped(0) == 0
  {
  }

  datatype Stat =
    | Failed
    | File(link: bool, info: Info)
    | Directory(link: bool, info: Info, target: string)

  /** Size, creation time and modification time. */
  datatype Info = Info(size: int, created: int, modified: int)

  datatype Entry = Entry(name: string, stat: Stat)

  datatype Flags = Flags(recursive: bool, hidden: bool, folders: bool, files: bool, relativePaths: bool,
                         keepArray: bool)

  datatype FindData = FindData(fileName: string, directory: bool, link: bool, info: Info)

  /** Everything a search is asked: the path and pattern given, the real directory of the path, and
      the graph. A directory outside `entries` cannot be opened. The wildcard matcher of the string
      utilities is not part of this model. */
  datatype Request = Request(
    origin: string, pattern: string, flags: Flags, start: string,
    entries: map<string, seq<Entry>>, wildcardMatch: (string, string) -> bool)
  {
    function EntriesOf(dir: string): seq<Entry> {
      if dir in entries then entries[dir] else []
    }

    predicate Skipped(e: Entry) {
      || (e.name != "" && e.name[0] == '.' && (e.name == "." || e.name == ".." || !flags.hidden))
      || e.stat.Failed?
    }

    predicate HasWildcards() {
      exists k :: 0 <= k < |pattern| && (pattern[k] == '*' || pattern[k] == '?')
    }

    predicate Matches(name: string) {
      if HasWildcards() then pattern == "*" || wildcardMatch(name, pattern) else name == pattern
    }

    predicate Reported(e: Entry) {
      !Skipped(e) && (if e.stat.Directory? then flags.folders else flags.files) && Matches(e.name)
    }

    /** The search descends from `dir` along its k-th entry to a real directory. */
    ghost predicate Descends(dir: string, k: nat, to: string) {
      && flags.recursive && k < |EntriesOf(dir)|
      && !Skipped(EntriesOf(dir)[k])
      && EntriesOf(dir)[k].stat.Directory? && EntriesOf(dir)[k].stat.target == to
    }

    ghost predicate Edge(dir: string, to: string) {
      exists k: nat :: Descends(dir, k, to)
    }

    /** A directory is reachable if a list of entry names leads there from the start. */
    ghost predicate Leads(route: seq<string>, dir: string)
    {
      if route == [] then
        dir == start
      else
        exists from: string, k: nat ::
          EndsWithStep(route, from, k, dir) && Leads(route[..|route| - 1], from)
    }

    ghost predicate EndsWithStep(route: seq<string>, from: string, k: nat, to: string)
      requires route != []
    {
      Descends(from, k, to) && EntriesOf(from)[k].name == route[|route| - 1]
    }

    ghost predicate Reachable(dir: string) {
      exists route :: Leads(route, dir)
    }

    ghost predicate ClosedUnderEdges(dirs: set<string>) {
      forall d, to :: d in dirs && Edge(d, to) ==> to in dirs
    }

    lemma LeadsFurther(route: seq<string>, from: string, k: nat, to: string)
      requires Leads(route, from) && Descends(from, k, to)
      ensures Leads(route + [EntriesOf(from)[k].name], to) && Reachable(to)
    {
      var further := route + [EntriesOf(from)[k].name];
      assert further[..|further| - 1] == route;
      assert EndsWithStep(further, from, k, to);
      assert Leads(further, to);
    }

    lemma StepsNeedRecursion(route: seq<string>, dir: string)
      requires Leads(route, dir)
      ensures route == [] || flags.recursive
    {
      if route != [] {
        var from, k: nat :| EndsWithStep(route, from, k, dir) && Leads(route[..|route| - 1], from);
      }
    }

    lemma {:induction false} ReachableStaysInside(route: seq<string>, dir: string, dirs: set<string>)
      requires start in dirs && ClosedUnderEdges(dirs) && Leads(route, dir)
      ensures dir in dirs
      decreases |route|
    {
      if route != [] {
        var from, k: nat :| EndsWithStep(route, from, k, dir) && Leads(route[..|route| - 1], from);
        ReachableStaysInside(route[..|route| - 1], from, dirs);
        assert Edge(from, dir);
      }
    }

    /** All the real directories there are: what remains of them unvisited bounds the recursion. */
    ghost function Universe(): set<string> {
      {start} + set d, k | d in entries && 0 <= k < |entries[d]| && entries[d][k].stat.Directory?
                  :: entries[d][k].stat.target
    }

    /** The result for an entry found along a route. */
    function Describe(f: Found): FindData
      requires f.index < |EntriesOf(f.dir)| && !EntriesOf(f.dir)[f.index].stat.Failed?
    {
      var e := EntriesOf(f.dir)[f.index];
      FindData((if flags.relativePaths then "" else origin + "/") + Join(f.route + [e.name]),
               e.stat.Directory?, e.stat.link, e.stat.info)
    }

    ghost predicate Genuine(f: Found) {
      && f.index < |EntriesOf(f.dir)| && Reported(EntriesOf(f.dir)[f.index]) && Leads(f.route, f.dir)
    }
  }

  /** One reported entry: the real directory that holds it, its place there, and the names of the
      directories on the way. */
  datatype Found = Found(dir: string, index: nat, route: seq<string>)

  ghost predicate Distinct<T>(s: seq<T>) {
    forall i, j :: 0 <= i < j < |s| ==> s[i] != s[j]
  }

  /** No (directory, entry) pair twice. */
  ghost predicate DistinctFinds(log: seq<Found>) {
    forall i, j :: 0 <= i < j < |log| ==> log[i].dir != log[j].dir || log[i].index != log[j].index
  }

  ghost predicate Logged(log: seq<Found>, dir: string, index: nat) {
    exists i :: 0 <= i < |log| && log[i].dir == dir && log[i].index == index
  }

  // ---------------------------------------------------------------- the progress of a search

  /** The visited list, the directories opened so far and the entries reported so far, in order. */
  datatype Progress = Progress(visited: seq<string>, scanned: seq<string>, log: seq<Found>)

  ghost predicate Consistent(rq: Request, p: Progress) {
    && Distinct(p.scanned) && DistinctFinds(p.log)
    && (forall d | d in p.scanned :: d in rq.entries && (rq.flags.recursive ==> d in p.visited))
    && (forall v | v in p.visited :: v in rq.Universe() && rq.Reachable(v))
    && (forall f | f in p.log :: f.dir in p.scanned && rq.Genuine(f))
  }

  /** Nothing is left to do in a directory. */
  ghost predicate Done(rq: Request, p: Progress, d: string) {
    && (d in rq.entries ==> d in p.scanned)
    && (forall to | rq.Edge(d, to) :: to in p.visited)
    && (forall k: nat | k < |rq.EntriesOf(d)| && rq.Reported(rq.EntriesOf(d)[k]) :: Logged(p.log, d, k))
  }

  ghost predicate DoneSince(rq: Request, was: Progress, p: Progress) {
    forall d | d in p.visited && d !in was.visited :: Done(rq, p, d)
  }

  /** The first k entries of an open directory are dealt with. */
  ghost predicate DoneUpTo(rq: Request, p: Progress, dir: string, k: nat)
    requires k <= |rq.EntriesOf(dir)|
  {
    && (forall i: nat, to | i < k && rq.Descends(dir, i, to) :: to in p.visited)
    && (forall i: nat | i < k && rq.Reported(rq.EntriesOf(dir)[i]) :: Logged(p.log, dir, i))
    && (forall f | f in p.log && f.dir == dir :: f.index < k)
  }

  /** Progress only grows, and only `dir` and directories visited since are opened or reported on. */
  ghost predicate Grown(was: Progress, p: Progress, dir: string) {
    && was.visited <= p.visited && was.scanned <= p.scanned && was.log <= p.log
    && (forall d | d in p.scanned && d !in was.scanned :: d == dir || (d in p.visited && d !in was.visited))
    && (forall f | f in p.log && f !in was.log :: f.dir !in was.scanned)
  }

  /** What the entry loop of `dir` keeps. */
  ghost predicate Scanning(rq: Request, was: Progress, p: Progress, dir: string, k: nat)
    requires k <= |rq.EntriesOf(dir)|
  {
    && Consistent(rq, p) && Grown(was, p, dir)
    && dir !in was.scanned && dir in p.scanned && (rq.flags.recursive ==> dir in was.visited)
    && DoneSince(rq, was, p) && DoneUpTo(rq, p, dir, k)
  }

  lemma Enter(rq: Request, was: Progress, dir: string)
    requires Consistent(rq, was) && dir in rq.entries && dir !in was.scanned
    requires rq.flags.recursive ==> dir in was.visited
    ensures Scanning(rq, was, was.(scanned := was.scanned + [dir]), dir, 0)
  {
    assert forall f | f in was.log :: f.dir in was.scanned;
  }

  lemma Unopened(rq: Request, p: Progress, dir: string)
    requires dir !in rq.entries
    ensures Grown(p, p, dir) && DoneSince(rq, p, p) && Done(rq, p, dir)
  {
  }

  /** A target not met before can be entered, and counts against the bound. */
  lemma Visit(rq: Request, was: Progress, p: Progress, dir: string, k: nat, route: seq<string>, to: string)
    requires k < |rq.EntriesOf(dir)| && Scanning(rq, was, p, dir, k) && rq.Leads(route, dir)
    requires rq.Descends(dir, k, to) && to !in p.visited
    ensures Consistent(rq, p.(visited := p.visited + [to])) && to !in p.scanned
    ensures rq.Leads(route + [rq.EntriesOf(dir)[k].name], to)
    ensures rq.flags.recursive && to in rq.Universe() && to != dir
  {
    rq.LeadsFurther(route, dir, k, to);
  }

  /** Coming back from a target: it and everything found below it is done. */
  lemma Return(rq: Request, was: Progress, p: Progress, dir: string, k: nat, to: string, after: Progress)
    requires k <= |rq.EntriesOf(dir)| && Scanning(rq, was, p, dir, k)
    requires rq.flags.recursive && to !in p.visited && to != dir
    requires var entered := p.(visited := p.visited + [to]);
             && Consistent(rq, after) && Grown(entered, after, to) && Done(rq, after, to)
             && DoneSince(rq, entered, after)
    ensures Scanning(rq, was, after, dir, k) && to in after.visited && p.visited <= after.visited
  {
    hide Request.Reported;
    hide Request.Descends;
    hide Request.Edge;
    hide Request.Leads;
    hide Request.Universe;
    hide Consistent;
    hide Done;
    hide Logged;
    var entered := p.(visited := p.visited + [to]);
    assert to in after.visited by { assert entered.visited[|p.visited|] == to; }
    LoggedKept(p.log, after.log);
    ScannedKept(p.scanned, after.scanned);
    ScannedKept(p.visited, after.visited);
    forall d | d in after.visited && d !in was.visited
      ensures Done(rq, after, d)
    {
      if d in p.visited {
        DoneStays(rq, p, after, d);
      }
    }
    forall f | f in after.log && f.dir == dir
      ensures f.index < k
    {
      assert f in p.log;
    }
    forall f | f in after.log && f !in was.log
      ensures f.dir !in was.scanned
    {
      if f !in p.log {
        assert f.dir !in p.scanned;
        ScannedKept(was.scanned, p.scanned);
      }
    }
  }

  lemma ScannedKept(a: seq<string>, b: seq<string>)
    requires a <= b
    ensures forall d | d in a :: d in b
  {
    assert forall i :: 0 <= i < |a| ==> b[i] == a[i];
  }

  lemma LoggedKept(a: seq<Found>, b: seq<Found>)
    requires a <= b
    ensures forall d, i: nat | Logged(a, d, i) :: Logged(b, d, i)
  {
    forall d, i: nat | Logged(a, d, i)
      ensures Logged(b, d, i)
    {
      var n :| 0 <= n < |a| && a[n].dir == d && a[n].index == i;
      assert b[n] == a[n];
    }
  }

  lemma DoneStays(rq: Request, p: Progress, after: Progress, d: string)
    requires Done(rq, p, d) && p.visited <= after.visited && p.scanned <= after.scanned && p.log <= after.log
    ensures Done(rq, after, d)
  {
    hide Request.Reported;
    hide Request.Edge;
    hide Logged;
    LoggedKept(p.log, after.log);
    ScannedKept(p.visited, after.visited);
    ScannedKept(p.scanned, after.scanned);
  }

  /** What passing over the k-th entry, or reporting it, leaves. */
  function Passed(rq: Request, p: Progress, dir: string, k: nat, route: seq<string>): Progress
    requires k < |rq.EntriesOf(dir)|
  {
    if rq.Reported(rq.EntriesOf(dir)[k]) then p.(log := p.log + [Found(dir, k, route)]) else p
  }

  lemma LoggedStays(log: seq<Found>, f: Found)
    ensures Logged(log + [f], f.dir, f.index)
    ensures forall d, i | Logged(log, d, i) :: Logged(log + [f], d, i)
  {
    assert (log + [f])[|log|] == f;
    forall d, i | Logged(log, d, i)
      ensures Logged(log + [f], d, i)
    {
      var n :| 0 <= n < |log| && log[n].dir == d && log[n].index == i;
      assert (log + [f])[n] == log[n];
    }
  }

  lemma Advance(rq: Request, was: Progress, p: Progress, dir: string, k: nat, route: seq<string>)
    requires k < |rq.EntriesOf(dir)| && Scanning(rq, was, p, dir, k) && rq.Leads(route, dir)
    requires forall to | rq.Descends(dir, k, to) :: to in p.visited
    ensures Scanning(rq, was, Passed(rq, p, dir, k, route), dir, k + 1)
    ensures Consistent(rq, Passed(rq, p, dir, k, route))
  {
    hide Request.Descends;
    hide Request.Reported;
    hide Request.EntriesOf;
    hide Request.Edge;
    hide Request.Leads;
    hide Request.Universe;
    hide Logged;
    var found := Found(dir, k, route);
    var after := Passed(rq, p, dir, k, route);
    if after != p {
      LoggedStays(p.log, found);
      assert DistinctFinds(after.log);
      assert Grown(was, after, dir);
    }
  }

  /** The end of the entry loop. */
  lemma Leave(rq: Request, was: Progress, p: Progress, dir: string)
    requires Scanning(rq, was, p, dir, |rq.EntriesOf(dir)|)
    ensures Consistent(rq, p) && Grown(was, p, dir) && DoneSince(rq, was, p) && Done(rq, p, dir)
  {
    forall to | rq.Edge(dir, to)
      ensures to in p.visited
    {
      var k: nat :| rq.Descends(dir, k, to);
    }
  }

  /** A search from the start that is done everywhere it went has visited what is reachable. */
  lemma VisitedIsReachable(rq: Request, p: Progress, dir: string)
    requires Consistent(rq, p) && rq.start in p.visited && forall d | d in p.visited :: Done(rq, p, d)
    ensures dir in p.visited <==> rq.Reachable(dir)
  {
    if rq.Reachable(dir) {
      var route :| rq.Leads(route, dir);
      rq.ReachableStaysInside(route, dir, set d | d in p.visited);
    }
  }

  /** Without recursion only the start is reachable. */
  lemma OnlyStartReachable(rq: Request, dir: string)
    requires !rq.flags.recursive
    ensures rq.Reachable(dir) <==> dir == rq.start
  {
    assert rq.Leads([], rq.start);
    forall route | rq.Leads(route, dir)
      ensures dir == rq.start
    {
      rq.StepsNeedRecursion(route, dir);
    }
  }

  /** What the whole search has opened and reported. */
  lemma Complete(rq: Request, was: Progress, p: Progress)
    requires was == Progress(if rq.flags.recursive then [rq.start] else [], [], [])
    requires Consistent(rq, p) && Grown(was, p, rq.start) && DoneSince(rq, was, p) && Done(rq, p, rq.start)
    ensures forall d :: d in p.scanned <==> d in rq.entries && rq.Reachable(d)
    ensures forall d, k: nat :: Logged(p.log, d, k) <==>
              rq.Reachable(d) && k < |rq.EntriesOf(d)| && rq.Reported(rq.EntriesOf(d)[k])
  {
    forall d
      ensures rq.Reachable(d) <==> d == rq.start || (d in p.visited && d !in was.visited)
      ensures rq.Reachable(d) ==> Done(rq, p, d)
    {
      if rq.flags.recursive {
        assert rq.start in p.visited by { assert p.visited[0] == was.visited[0]; }
        VisitedIsReachable(rq, p, d);
      } else {
        OnlyStartReachable(rq, d);
        if d in p.visited {
          assert rq.Reachable(d);
        }
      }
    }
    forall d, k: nat | Logged(p.log, d, k)
      ensures rq.Reachable(d) && k < |rq.EntriesOf(d)| && rq.Reported(rq.EntriesOf(d)[k])
    {
      var n :| 0 <= n < |p.log| && p.log[n].dir == d && p.log[n].index == k;
      assert p.log[n] in p.log;
    }
  }

  // ---------------------------------------------------------------- the search

  /** The path of a directory under the origin, as the pair of strings the original passes. */
  ghost predicate Locates(parent: Option<string>, path: Option<string>, route: seq<string>) {
    match (parent, path)
    case (None, None) => route == []
    case (None, Some(p)) => route == [p]
    case (Some(q), Some(p)) => |route| > 1 && route[|route| - 1] == p && q == Join(route[..|route| - 1])
    case (Some(_), None) => false
  }

  function UnderOrigin(parent: Option<string>, path: Option<string>, name: string): string {
    match (parent, path)
    case (_, None) => name
    case (None, Some(p)) => p + "/" + name
    case (Some(q), Some(p)) => q + "/" + p + "/" + name
  }

  function DeeperParent(parent: Option<string>, path: Option<string>): Option<string>
    requires parent.Some? ==> path.Some?
  {
    if parent.Some? then Some(parent.value + "/" + path.value) else path
  }

  lemma UnderOriginIsJoin(parent: Option<string>, path: Option<string>, route: seq<string>, name: string)
    requires Locates(parent, path, route)
    ensures UnderOrigin(parent, path, name) == Join(route + [name])
    ensures Locates(DeeperParent(parent, path), Some(name), route + [name])
  {
    assert (route + [name])[..|route|] == route;
    if route == [] {
      assert route + [name] == [name];
    } else {
      JoinAppend(route, [name]);
      if |route| > 1 {
        JoinAppend(route[..|route| - 1], [route[|route| - 1]]);
        assert route == route[..|route| - 1] + [route[|route| - 1]];
      }
    }
  }

  class Search {
    const request: Request
    var visited: seq<string>
    var results: seq<FindData>
    // What the proof records: the directories opened and the entries reported, in order.
    ghost var kept: seq<FindData>
    ghost var scanned: seq<string>
    ghost var log: seq<Found>

    constructor (request: Request, results: seq<FindData>)
      ensures this.request == request && this.results == results
    {
      this.request, this.results := request, results;
      visited, kept, scanned, log := [], [], [], [];
    }

    ghost function State(): Progress
      reads this
    {
      Progress(visited, scanned, log)
    }

    /** The result array is what it held before, then one description for each entry reported. */
    ghost predicate Valid()
      reads this
    {
      && Consistent(request, State())
      && |results| == |kept| + |log|
      && (forall i :: 0 <= i < |kept| ==> results[i] == kept[i])
      && (forall i :: 0 <= i < |log| ==> request.Genuine(log[i]) && results[|kept| + i] == request.Describe(log[i]))
    }

    /** Adds an entry to the result array and counts it. */
    method Report(name: string, entry: Entry, ghost found: Found, count: nat, ghost start: nat)
      returns (total: nat)
      requires Valid() && count == Wrapped(|log| - start)
      requires request.Leads(found.route, found.dir) && found.index < |request.EntriesOf(found.dir)|
      requires entry == request.EntriesOf(found.dir)[found.index] && request.Reported(entry)
      requires name == Join(found.route + [entry.name])
      requires Consistent(request, State().(log := log + [found]))
      modifies this
      ensures Valid() && kept == old(kept) && State() == old(State()).(log := old(log) + [found])
      ensures total == Wrapped(|log| - start)
    {
      hide Consistent;
      hide Request.Leads;
      hide Request.Matches;
      hide Wrapped;
      results := results + [FindData(if request.flags.relativePaths then name else request.origin + "/" + name,
                                     entry.stat.Directory?, entry.stat.link, entry.stat.info)];
      WrappedMore(|log| - start);
      log := log + [found];
      total := (count + 1) % U32;
    }

    ghost function Unvisited(): set<string>
      reads this
    {
      request.Universe() - set v | v in visited
    }

    method Recurse(parent: Option<string>, path: Option<string>, dir: string, ghost route: seq<string>)
      returns (count: nat)
      requires Valid() && Locates(parent, path, route) && request.Leads(route, dir)
      requires dir !in scanned && (request.flags.recursive ==> dir in visited)
      modifies this
      decreases Unvisited(), 2
      ensures Valid() && kept == old(kept)
      ensures Grown(old(State()), State(), dir)
      ensures DoneSince(request, old(State()), State()) && Done(request, State(), dir)
      ensures count == Wrapped(|log| - |old(log)|)
    {
      hide Consistent;
      hide Done;
      hide DoneSince;
      hide Grown;
      hide Scanning;
      hide Request.Leads;
      hide Request.Universe;
      hide Wrapped;
      ghost var was := State();
      WrappedNone();
      if dir !in request.entries {
        Unopened(request, was, dir);
        return 0;
      }
      Enter(request, was, dir);
      scanned := scanned + [dir];
      count := 0;
      var entries := request.entries[dir];
      for k := 0 to |entries|
        invariant Valid() && kept == old(kept) && Scanning(request, was, State(), dir, k)
        invariant count == Wrapped(|log| - |was.log|) && was.visited <= visited
      {
        assert Unvisited() <= old(Unvisited());
        count := ScanEntry(parent, path, dir, route, k, entries[k], was, count);
      }
      Leave(request, was, State(), dir);
    }

    /** One round of the entry loop; a return is a `continue` of the original. */
    method ScanEntry(parent: Option<string>, path: Option<string>, dir: string, ghost route: seq<string>,
                     ghost at: nat, entry: Entry, ghost was: Progress, count: nat)
      returns (total: nat)
      requires Valid() && Locates(parent, path, route) && request.Leads(route, dir)
      requires at < |request.EntriesOf(dir)| && request.EntriesOf(dir)[at] == entry
      requires Scanning(request, was, State(), dir, at)
      requires count == Wrapped(|log| - |was.log|)
      modifies this
      decreases Unvisited(), 1
      ensures Valid() && kept == old(kept) && Scanning(request, was, State(), dir, at + 1)
      ensures total == Wrapped(|log| - |was.log|) && old(visited) <= visited
    {
      hide Consistent;
      hide Done;
      hide DoneSince;
      hide Grown;
      hide Scanning;
      hide Request.Leads;
      hide Request.Universe;
      hide Request.Matches;
      hide Request.Describe;
      hide Request.Genuine;
      hide Wrapped;
      total := count;
      if request.Skipped(entry) || !entry.stat.Directory? {
        Advance(request, was, State(), dir, at, route);
      }
      if entry.name != "" && entry.name[0] == '.' {
        if entry.name == "." || entry.name == ".." {
          return;
        }
        if !request.flags.hidden {
          return;
        }
      }
      if entry.stat.Failed? {
        return;
      }
      if entry.stat.Directory? {
        if request.flags.recursive {
          if entry.stat.target !in visited {
            total := Descend(parent, path, dir, route, at, entry.name, entry.stat.target, was, total);
          }
        }
        Advance(request, was, State(), dir, at, route);
        if !request.flags.folders {
          return;
        }
      } else if !request.flags.files {
        return;
      }
      if !request.Matches(entry.name) {
        return;
      }
      UnderOriginIsJoin(parent, path, route, entry.name);
      total := Report(UnderOrigin(parent, path, entry.name), entry, Found(dir, at, route), total, |was.log|);
    }

    /** The search proper. Every directory reachable over entries that are not skipped is opened
        exactly once if it can be opened; every entry to report of every such directory is reported
        exactly once, under the names of a route that leads there; nothing else is. */
    method FindFiles() returns (found: bool)
      modifies this
      ensures kept == (if request.flags.keepArray then old(results) else [])
      ensures Distinct(scanned)
      ensures forall d :: d in scanned <==> d in request.entries && request.Reachable(d)
      ensures DistinctFinds(log)
      ensures forall d, k: nat :: Logged(log, d, k) <==>
                request.Reachable(d) && k < |request.EntriesOf(d)| && request.Reported(request.EntriesOf(d)[k])
      ensures |results| == |kept| + |log| && results[..|kept|] == kept
      ensures forall i :: 0 <= i < |log| ==> request.Genuine(log[i]) && results[|kept| + i] == request.Describe(log[i])
      ensures found <==> Wrapped(|results| - |kept|) != 0
    {
      if !request.flags.keepArray {
        results := [];
      }
      visited, kept, scanned, log := [], results, [], [];
      if request.flags.recursive {
        visited := visited + [request.start];
      }
      assert request.Leads([], request.start);
      ghost var was := State();
      var count := Recurse(None, None, request.start, []);
      Complete(request, was, State());
      found := count != 0;
    }

    /** The recursive step: the target is put on the visited list and searched. */
    method Descend(parent: Option<string>, path: Option<string>, dir: string, ghost route: seq<string>,
                   ghost at: nat, name: string, next: string, ghost was: Progress, count: nat)
      returns (total: nat)
      requires Valid() && Locates(parent, path, route) && request.Leads(route, dir)
      requires at < |request.EntriesOf(dir)| && Scanning(request, was, State(), dir, at)
      requires request.Descends(dir, at, next) && request.EntriesOf(dir)[at].name == name && next !in visited
      requires count == Wrapped(|log| - |was.log|)
      modifies this
      decreases Unvisited(), 0
      ensures Valid() && kept == old(kept) && Scanning(request, was, State(), dir, at)
      ensures next in visited && old(visited) <= visited
      ensures total == Wrapped(|log| - |was.log|)
    {
      hide Consistent;
      hide Done;
      hide DoneSince;
      hide Grown;
      hide Scanning;
      hide Request.Leads;
      hide Request.Universe;
      hide Wrapped;
      ghost var before := State();
      Visit(request, was, before, dir, at, route, next);
      UnderOriginIsJoin(parent, path, route, name);
      ghost var unvisited := Unvisited();
      visited := visited + [next];
      assert next in unvisited && next !in Unvisited() && Unvisited() <= unvisited;
      var more;
      if parent.Some? {
        more := Recurse(Some(parent.value + "/" + path.value), Some(name), next, route + [name]);
      } else {
        more := Recurse(path, Some(name), next, route + [name]);
      }
      WrappedJoin(|before.log| - |was.log|, |log| - |before.log|);
      total := (count + more) % U32;
      Return(request, was, before, dir, at, next, State());
    }
  }
}

/** The character loop of src/common/file_system.cpp that collapses separators, and ToNativePath and
    Combine, which are built on it. It works on characters and one flag; the lemmas show that it
    agrees with the component splitter. */
module PathAppend {
  import opened PathComponents

  predicate EndsInSeparator(s: string) {
    s != "" && s[|s| - 1] == '/'
  }

  /** `source` without separators that follow a separator; `last` says whether one came before. */
  function Collapse(source: string, last: bool): string {
    if source == "" then ""
    else if source[0] == '/' then (if last then Collapse(source[1..], true) else "/" + Collapse(source[1..], true))
    else [source[0]] + Collapse(source[1..], false)
  }

  function StripTrailing(s: string): string {
    if EndsInSeparator(s) then StripTrailing(s[..|s| - 1]) else s
  }

  method PathAppendString(dst: string, src: string) returns (result: string)
    ensures result == dst + Collapse(src, EndsInSeparator(dst))
    ensures dst == "" ==> result == Collapse(src, false)
  {
    result := dst;
    var lastSeparator := EndsInSeparator(dst);
    var index := 0;
    while index < |src|
      invariant 0 <= index <= |src|
      invariant result + Collapse(src[index..], lastSeparator) == dst + Collapse(src, EndsInSeparator(dst))
    {
      var ch := src[index];
      assert src[index..][1..] == src[index + 1..];
      ghost var before := result;
      if ch == '/' {
        if lastSeparator {
          index := index + 1;
          continue;
        }
        lastSeparator := true;
        result := result + ['/'];
      } else {
        lastSeparator := false;
        result := result + [ch];
      }
      index := index + 1;
      assert result + Collapse(src[index..], lastSeparator) == before + ([ch] + Collapse(src[index..], lastSeparator));
    }
  }

  /** Removing separators from the end, as the callers of the append do. */
  method PopSeparators(s: string) returns (result: string)
    ensures result == StripTrailing(s)
  {
    result := s;
    while result != "" && result[|result| - 1] == '/'
      invariant StripTrailing(result) == StripTrailing(s)
      decreases |result|
    {
      result := result[..|result| - 1];
    }
  }

  lemma {:induction false} StripAfter(prefix: string, s: string)
    ensures StripTrailing(s) != "" ==> StripTrailing(prefix + s) == prefix + StripTrailing(s)
    ensures StripTrailing(s) == "" ==> StripTrailing(prefix + s) == StripTrailing(prefix)
    decreases |s|
  {
    if s == "" {
      assert prefix + s == prefix;
    } else if EndsInSeparator(s) {
      assert (prefix + s)[..|prefix + s| - 1] == prefix + s[..|s| - 1];
      StripAfter(prefix, s[..|s| - 1]);
    }
  }

  /** Stripping what was appended behind one separator. */
  lemma StripBehindSeparator(left: string, right: string)
    requires !EndsInSeparator(left) && (StripTrailing(right) == "" ==> right == "")
    ensures StripTrailing(left + "/" + right)
         == left + if StripTrailing(right) == "" then "" else "/" + StripTrailing(right)
  {
    assert StripTrailing("/") == "";
    StripAfter(left + "/", right);
    StripAfter(left, "/");
    assert left + "/" + StripTrailing(right) == left + ("/" + StripTrailing(right));
  }

  lemma {:induction false} CollapseRun(run: string, after: string, last: bool)
    requires '/' !in run
    ensures Collapse(run + after, last) == run + Collapse(after, if run == "" then last else false)
  {
    if run == "" {
      assert run + after == after;
    } else {
      assert run[0] in run;
      assert (run + after)[1..] == run[1..] + after;
      CollapseRun(run[1..], after, false);
      assert run == [run[0]] + run[1..];
    }
  }

  lemma CollapseOfRun(run: string, after: string)
    requires IsName(run) && (after == "" || after[0] == '/')
    ensures Collapse(run + after, true) == run + if after == "" then "" else "/" + Collapse(after[1..], true)
    ensures !EndsInSeparator(run)
  {
    CollapseRun(run, after, true);
    assert run[|run| - 1] in run;
  }

  /** The character loop and the component splitter agree: behind a separator, the loop leaves the
      names joined by single separators, and at most a separator at the end. */
  lemma {:induction false} CollapseIsJoin(path: string)
    ensures StripTrailing(Collapse(path, true)) == Join(Names(path))
    ensures Names(path) == [] <==> Collapse(path, true) == ""
    decreases |path|
  {
    if path == "" {
    } else if path[0] == '/' {
      CollapseIsJoin(path[1..]);
    } else {
      var run, after := path[..RunLength(path)], path[RunLength(path)..];
      assert path == run + after;
      CollapseOfRun(run, after);
      NamesOfRun(run, after);
      if after == "" {
        assert Join([run]) == run == run + "";
      } else {
        var rest := Collapse(after[1..], true);
        CollapseIsJoin(after[1..]);
        JoinNames(Names(after[1..]));
        StripBehindSeparator(run, rest);
        assert run + ("/" + rest) == run + "/" + rest;
        JoinCons(run, Names(after[1..]));
      }
    }
  }

  /** The same for a whole path, of which the components keep nothing when it has only separators. */
  lemma CollapseIsJoinSplit(path: string)
    ensures StripTrailing(Collapse(path, false)) == Join(Split(path))
    ensures path != "" && Names(path) == [] ==> Collapse(path, false) == "/"
    ensures Names(path) != [] ==> Join(Split(path)) != ""
    ensures |Collapse(path, false)| <= 1 ==> Names(path) == [] || Collapse(path, false) == Join(Split(path))
  {
    JoinRooted(Names(path));
    JoinNames(Names(path));
    if IsAbsolute(path) {
      CollapseIsJoin(path[1..]);
      StripAfter("/", Collapse(path[1..], true));
      assert StripTrailing("/") == "";
    } else if path != "" {
      CollapseIsJoin(path);
      assert Collapse(path, true) == Collapse(path, false);
    }
  }

  // ---------------------------------------------------------------- ToNativePath and Combine

  function Native(path: string): string {
    var collapsed := Collapse(path, false);
    if |collapsed| > 1 then StripTrailing(collapsed) else collapsed
  }

  /** The loop has no test for an empty string: it never gets there. */
  method ToNativePath(path: string) returns (result: string)
    ensures result == Native(path)
  {
    result := PathAppendString("", path);
    if |result| > 1 {
      CollapseIsJoinSplit(path);
      JoinNames(Names(path));
      JoinRooted(Names(path));
      while result[|result| - 1] == '/'
        invariant StripTrailing(result) == StripTrailing(Collapse(path, false)) == Join(Split(path)) != ""
        invariant result != ""
        decreases |result|
      {
        result := result[..|result| - 1];
      }
    }
  }

  /** Splitting and rejoining a path is ToNativePath, except on paths of separators only, of which
      the components keep nothing: "/" becomes "". */
  lemma JoinOfSplit(path: string)
    ensures Join(Split(path)) == Native(path) <==> path == "" || Names(path) != []
    ensures path != "" && Names(path) == [] ==> Join(Split(path)) == "" && Native(path) == "/"
  {
    CollapseIsJoinSplit(path);
    JoinRooted(Names(path));
    assert path == "" || Names(path) != [] ==> Join(Split(path)) == Native(path);
  }

  function Combined(base: string, next: string): string {
    StripTrailing(StripTrailing(Collapse(base, false)) + "/" + Collapse(next, true))
  }

  method Combine(base: string, next: string) returns (result: string)
    ensures result == Combined(base, next)
  {
    result := PathAppendString("", base);
    result := PopSeparators(result);
    result := result + ['/'];
    result := PathAppendString(result, next);
    result := PopSeparators(result);
  }

  method Combine3(base: string, subdir: string, next: string) returns (result: string)
    ensures result == Combined(Combined(base, subdir), next)
  {
    result := PathAppendString("", base);
    result := PopSeparators(result);
    result := result + ['/'];
    result := PathAppendString(result, subdir);
    result := PopSeparators(result);
    CombinedComponents(base, subdir);
    CollapseIsJoinSplit(result);
    result := result + ['/'];
    result := PathAppendString(result, next);
    result := PopSeparators(result);
  }

  lemma StripTrailingTwice(s: string)
    ensures StripTrailing(StripTrailing(s)) == StripTrailing(s)
    ensures !EndsInSeparator(StripTrailing(s))
  {
  }

  lemma CombinedIsJoin(base: string, next: string)
    ensures Combined(base, next) == Join(Split(base)) + if Names(next) == [] then "" else "/" + Join(Names(next))
  {
    CollapseIsJoinSplit(base);
    StripTrailingTwice(Collapse(base, false));
    CollapseIsJoin(next);
    JoinNames(Names(next));
    StripBehindSeparator(Join(Split(base)), Collapse(next, true));
  }

  lemma CombinedIsRooted(base: string, next: string)
    requires Names(base) + Names(next) != []
    ensures Combined(base, next) == Join(Rooted(IsAbsolute(base) || base == "", Names(base) + Names(next)))
  {
    hide Join;
    CombinedIsJoin(base, next);
    JoinRooted(Names(next));
    JoinOfNothing();
    if base == "" {
      assert Names(base) + Names(next) == Names(next);
      assert "" + ("/" + Join(Names(next))) == "/" + Join(Names(next));
    } else {
      JoinedParts(IsAbsolute(base), Names(base), Names(next));
    }
  }

  lemma JoinOfNothing()
    ensures Join([]) == ""
  {
  }

  /** Combining appends the names of `next` to the components of `base`. An empty base counts as the
      root when there is something to append. */
  lemma CombinedComponents(base: string, next: string)
    ensures Names(Combined(base, next)) == Names(base) + Names(next)
    ensures IsAbsolute(Combined(base, next)) <==>
              Names(base) + Names(next) != [] && (IsAbsolute(base) || base == "")
    ensures Names(base) + Names(next) == [] ==> Combined(base, next) == ""
    ensures Combined(base, next) == Join(Split(Combined(base, next)))
  {
    hide Names;
    hide Join;
    hide Combined;
    hide Joinable;
    hide Split;
    hide Rooted;
    hide IsName;
    var all := Names(base) + Names(next);
    var absolute := IsAbsolute(base) || base == "";
    if all == [] {
      CombinedOfNothing(base, next);
    } else {
      CombinedIsRooted(base, next);
      assert forall name | name in all :: name in Names(base) || name in Names(next);
      RootedIsJoinable(absolute, all);
      SplitOfJoin(Rooted(absolute, all));
      SplitTells(Combined(base, next), absolute, all);
    }
  }

  lemma RootedIsJoinable(absolute: bool, names: seq<string>)
    requires names != [] && forall name | name in names :: IsName(name)
    ensures Joinable(Rooted(absolute, names)) && "" !in names
  {
    var components := Rooted(absolute, names);
    var skip := if absolute then 1 else 0;
    assert |components| == |names| + skip;
    forall k | skip <= k < |components|
      ensures IsName(components[k])
    {
      assert components[k] == names[k - skip];
      assert names[k - skip] in names;
    }
    assert !IsName("");
  }

  lemma CombinedOfNothing(base: string, next: string)
    requires Names(base) + Names(next) == []
    ensures Combined(base, next) == "" && Names("") == [] && Join(Split("")) == ""
  {
    hide Names;
    hide Combined;
    NamesSkip("");
    CombinedIsJoin(base, next);
    JoinRooted(Names(base));
    assert "" + "" == "";
  }

  lemma JoinedParts(absolute: bool, left: seq<string>, right: seq<string>)
    requires left != [] || absolute
    ensures Join(Rooted(absolute, left + right))
         == Join(Rooted(absolute, left)) + if right == [] then "" else "/" + Join(right)
  {
    var l := Rooted(absolute, left);
    assert Rooted(absolute, left + right) == l + right;
    if right == [] {
      assert l + right == l && Join(l) + "" == Join(l);
    } else if l != [] {
      JoinAppend(l, right);
      assert Join(l) + "/" + Join(right) == Join(l) + ("/" + Join(right));
    }
  }
}

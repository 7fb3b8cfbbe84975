/** The POSIX component splitter and joiner of src/common/file_system.cpp. The functions define what
    the splitting loop computes; Join is the joiner of the string utilities, which are not part of
    this model. */
module PathComponents {
  predicate IsAbsolute(path: string) {
    |path| >= 1 && path[0] == '/'
  }

  ghost predicate IsName(component: string) {
    component != "" && '/' !in component
  }

  /** The number of characters before the first separator. */
  function RunLength(path: string): (n: nat)
    ensures n <= |path| && '/' !in path[..n]
    ensures n < |path| ==> path[n] == '/'
  {
    if path == "" || path[0] == '/' then 0
    else
      assert path == [path[0]] + path[1..];
      1 + RunLength(path[1..])
  }

  /** The maximal runs of characters other than separators. */
  function Names(path: string): (names: seq<string>)
    ensures forall name | name in names :: IsName(name)
    decreases |path|
  {
    if path == "" then []
    else if path[0] == '/' then Names(path[1..])
    else [path[..RunLength(path)]] + Names(path[RunLength(path)..])
  }

  /** The components of an absolute path have an empty one, the root marker, in front. */
  function Rooted(absolute: bool, names: seq<string>): seq<string> {
    if absolute then [""] + names else names
  }

  function Split(path: string): seq<string> {
    Rooted(IsAbsolute(path), Names(path))
  }

  /** The joiner of the string utilities, which are not part of this model. */
  function Join(components: seq<string>): string {
    if components == [] then ""
    else if |components| == 1 then components[0]
    else components[0] + "/" + Join(components[1..])
  }

  lemma RunLengthUnique(path: string, n: nat)
    requires n <= |path| && '/' !in path[..n] && (n < |path| ==> path[n] == '/')
    ensures RunLength(path) == n
  {
    var r := RunLength(path);
    assert forall i :: 0 <= i < n ==> path[i] in path[..n];
    assert forall i :: 0 <= i < r ==> path[i] in path[..r];
  }

  lemma NamesOfRun(run: string, after: string)
    requires IsName(run) && (after == "" || after[0] == '/')
    ensures Names(run + after) == [run] + Names(after)
  {
    var path := run + after;
    assert path[..|run|] == run && path[|run|..] == after;
    RunLengthUnique(path, |run|);
    assert path[0] == run[0] && run[0] in run;
  }

  /** What one separator adds to the components, and what the end of the path adds. */
  lemma NamesAtSeparator(path: string, start: nat, pos: nat)
    requires start <= pos < |path| && path[pos] == '/' && '/' !in path[start..pos]
    ensures Names(path[start..]) == (if pos != start then [path[start..pos]] else []) + Names(path[pos + 1..])
  {
    assert path[pos..][1..] == path[pos + 1..];
    if pos != start {
      assert path[start..] == path[start..pos] + path[pos..];
      NamesOfRun(path[start..pos], path[pos..]);
    }
  }

  lemma NamesAtEnd(path: string, start: nat)
    requires start <= |path| && '/' !in path[start..]
    ensures Names(path[start..]) == if start != |path| then [path[start..]] else []
  {
    if start != |path| {
      assert path[start..] == path[start..] + "";
      NamesOfRun(path[start..], "");
    }
  }

  method SplitNativePath(path: string) returns (parts: seq<string>)
    ensures parts == Split(path)
  {
    hide Names;
    parts := [];
    var start, pos := 0, 0;
    assert path[0..] == path;
    while pos < |path|
      invariant start <= pos <= |path| && '/' !in path[start..pos]
      invariant pos == 0 ==> parts == []
      invariant pos > 0 ==> parts + Names(path[start..]) == Split(path)
    {
      if path[pos] != '/' {
        pos := pos + 1;
        continue;
      }
      NamesAtSeparator(path, start, pos);
      if pos != start || pos == 0 {
        parts := parts + [path[start..pos]];
      }
      pos := pos + 1;
      start := pos;
    }
    NamesAtEnd(path, start);
    if start != pos {
      parts := parts + [path[start..]];
    }
  }

  lemma NamesSkip(rest: string)
    ensures Names("/" + rest) == Names(rest) && Names("") == []
  {
    assert ("/" + rest)[1..] == rest;
  }

  lemma NameEnds(name: string)
    requires IsName(name)
    ensures name != "" && name[0] != '/' && name[|name| - 1] != '/'
  {
    assert name[0] in name && name[|name| - 1] in name;
  }

  lemma JoinFirst(names: seq<string>)
    requires names != []
    ensures Join(names) == names[0] + if |names| == 1 then "" else "/" + Join(names[1..])
    ensures Join([]) == ""
  {
  }

  lemma {:induction false} JoinNames(names: seq<string>)
    requires forall name | name in names :: IsName(name)
    ensures Names(Join(names)) == names
    ensures names != [] ==> Join(names) != "" && Join(names)[0] != '/' && Join(names)[|Join(names)| - 1] != '/'
  {
    hide Names;
    hide Join;
    hide IsName;
    NamesSkip("");
    if names == [] {
      JoinFirst([""]);
    } else {
      var name, rest := names[0], names[1..];
      assert name in names;
      NameEnds(name);
      JoinFirst(names);
      var after := if |names| == 1 then "" else "/" + Join(rest);
      NamesOfRun(name, after);
      assert names == [name] + rest;
      JoinNames(rest);
      NamesSkip(Join(rest));
    }
  }

  /** Component lists that joining does not confuse: names, with at most a leading root marker. */
  ghost predicate Joinable(components: seq<string>) {
    && (forall k | 0 <= k < |components| :: IsName(components[k]) || (k == 0 && components[0] == ""))
    && components != [""]
  }

  lemma SplitRooted(rest: string)
    requires rest != "" && rest[0] != '/'
    ensures Split("/" + rest) == [""] + Names(rest) && Split(rest) == Names(rest)
    ensures Split("") == []
  {
    hide Names;
    NamesSkip(rest);
  }

  lemma SplitOfJoin(components: seq<string>)
    requires Joinable(components)
    ensures Split(Join(components)) == components
  {
    hide Names;
    hide Join;
    hide Split;
    SplitRooted("a");
    if components == [] {
      JoinFirst([""]);
    } else if components[0] == "" {
      var names := components[1..];
      assert forall k :: 0 <= k < |names| ==> names[k] == components[k + 1];
      JoinNames(names);
      JoinFirst(components);
      assert "" + ("/" + Join(names)) == "/" + Join(names);
      SplitRooted(Join(names));
      assert components == [""] + names;
    } else {
      JoinNames(components);
      SplitRooted(Join(components));
    }
  }

  /** The root marker is never taken for a name. */
  lemma SplitTells(path: string, absolute: bool, names: seq<string>)
    requires Split(path) == Rooted(absolute, names) && "" !in names
    ensures IsAbsolute(path) == absolute && Names(path) == names
  {
    assert absolute ==> Split(path)[0] == "" && Split(path)[1..] == names;
    assert IsAbsolute(path) ==> Rooted(absolute, names)[0] == "" && Rooted(absolute, names)[1..] == Names(path);
  }

  lemma JoinRooted(names: seq<string>)
    ensures Join([""] + names) == if names == [] then "" else "/" + Join(names)
  {
    assert ([""] + names)[1..] == names;
  }

  lemma {:induction false} JoinAppend(left: seq<string>, right: seq<string>)
    requires left != [] && right != []
    ensures Join(left + right) == Join(left) + "/" + Join(right)
  {
    if |left| == 1 {
      assert (left + right)[1..] == right;
    } else {
      JoinAppend(left[1..], right);
      assert (left + right)[1..] == left[1..] + right;
    }
  }

  lemma JoinCons(name: string, names: seq<string>)
    ensures Join([name] + names) == name + if names == [] then "" else "/" + Join(names)
  {
    assert ([name] + names)[1..] == names;
  }
}

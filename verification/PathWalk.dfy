/** Path::Canonicalize: a stack machine over components, compared with an independent account of
    where a path leads. */
module PathWalk {
  import opened PathComponents

  const CURRENT := "."
  const PARENT := ".."

  /** The names below the starting point, and how often a parent step found none to drop. */
  datatype Walker = Walker(climbs: nat, names: seq<string>)

  /** Where a path leads: from the root, whose parent is itself, or from the current directory, some
      levels up. */
  datatype Place = Place(absolute: bool, ups: nat, names: seq<string>)

  function Follow(w: Walker, component: string): Walker {
    if component == CURRENT then w
    else if component == PARENT then
      if w.names == [] then w.(climbs := w.climbs + 1) else w.(names := w.names[..|w.names| - 1])
    else w.(names := w.names + [component])
  }

  /** The walk over the first k names. */
  function WalkUpTo(names: seq<string>, k: nat): Walker
    requires k <= |names|
  {
    if k == 0 then Walker(0, []) else Follow(WalkUpTo(names, k - 1), names[k - 1])
  }

  function Walk(path: string): Walker {
    WalkUpTo(Names(path), |Names(path)|)
  }

  function Meaning(path: string): Place {
    Place(IsAbsolute(path), if IsAbsolute(path) then 0 else Walk(path).climbs, Walk(path).names)
  }

  ghost predicate Plain(names: seq<string>) {
    forall name | name in names :: IsName(name) && name != CURRENT && name != PARENT
  }

  lemma WalkStep(names: seq<string>, k: nat)
    requires k <= |names|
    ensures WalkUpTo(names, k) == if k == 0 then Walker(0, []) else Follow(WalkUpTo(names, k - 1), names[k - 1])
  {
    hide Follow;
  }

  lemma PlainAppend(names: seq<string>, name: string)
    requires Plain(names)
    ensures IsName(name) && name != CURRENT && name != PARENT ==> Plain(names + [name])
    ensures names != [] ==> Plain(names[..|names| - 1])
  {
    hide IsName;
    var more := names + [name];
    assert forall n | n in more :: n in names || n == name;
    if names != [] {
      var front := names[..|names| - 1];
      assert forall n | n in front :: n in names;
    }
  }

  lemma PlainName(names: seq<string>, k: nat)
    requires Plain(names) && k < |names|
    ensures IsName(names[k]) && names[k] != CURRENT && names[k] != PARENT
  {
    hide IsName;
    assert names[k] in names;
  }

  lemma {:induction false} WalkIsPlain(names: seq<string>, k: nat)
    requires k <= |names| && forall name | name in names :: IsName(name)
    ensures Plain(WalkUpTo(names, k).names)
  {
    hide IsName;
    if k > 0 {
      WalkIsPlain(names, k - 1);
      assert names[k - 1] in names;
      PlainAppend(WalkUpTo(names, k - 1).names, names[k - 1]);
      hide Plain;
      WalkStep(names, k);
    }
  }

  lemma {:induction false} WalkOfPlain(prefix: seq<string>, names: seq<string>, k: nat)
    requires Plain(names) && |prefix| <= k <= |prefix| + |names|
    requires WalkUpTo(prefix, |prefix|).names == []
    ensures WalkUpTo(prefix + names, k) == Walker(WalkUpTo(prefix, |prefix|).climbs, names[..k - |prefix|])
  {
    hide WalkUpTo;
    hide Plain;
    if k == |prefix| {
      WalkPrefix(prefix, names, k);
    } else {
      WalkOfPlain(prefix, names, k - 1);
      WalkStep(prefix + names, k);
      PlainName(names, k - 1 - |prefix|);
    }
  }

  lemma {:induction false} WalkPrefix(prefix: seq<string>, names: seq<string>, k: nat)
    requires k <= |prefix|
    ensures WalkUpTo(prefix + names, k) == WalkUpTo(prefix, k)
  {
    if k > 0 {
      WalkPrefix(prefix, names, k - 1);
    }
  }

  // ---------------------------------------------------------------- Canonicalize

  /** One round of the component loop; `only` says that the component is the path's only one. */
  function Canonical1(stack: seq<string>, component: string, only: bool): seq<string> {
    if component == CURRENT then (if only then stack + [component] else stack)
    else if component == PARENT then (if stack != [] then stack[..|stack| - 1] else [component])
    else stack + [component]
  }

  function CanonicalUpTo(components: seq<string>, k: nat): seq<string>
    requires k <= |components|
  {
    if k == 0 then [] else Canonical1(CanonicalUpTo(components, k - 1), components[k - 1], |components| == 1)
  }

  function Canonical(path: string): string {
    Join(CanonicalUpTo(Split(path), |Split(path)|))
  }

  method Canonicalize(path: string) returns (result: string)
    ensures result == Canonical(path)
  {
    var components := SplitNativePath(path);
    var newComponents: seq<string> := [];
    for i := 0 to |components|
      invariant newComponents == CanonicalUpTo(components, i)
    {
      var component := components[i];
      if component == "." {
        if |components| == 1 {
          newComponents := newComponents + [component];
        }
      } else if component == ".." {
        if newComponents != [] {
          newComponents := newComponents[..|newComponents| - 1];
        } else {
          newComponents := newComponents + [component];
        }
      } else {
        newComponents := newComponents + [component];
      }
    }
    result := Join(newComponents);
  }

  /** The component stack after a walk. The code remembers only the parity of the climbs, and takes
      the first climb of an absolute path for the removal of its root marker. */
  function StackAfter(absolute: bool, w: Walker): seq<string> {
    if absolute && w.climbs == 0 then [""] + w.names
    else if absolute == (w.climbs % 2 == 1) then w.names
    else [PARENT] + w.names
  }

  /** One round of the component loop follows one step of the walk. */
  lemma CanonicalStep(absolute: bool, w: Walker, name: string, only: bool)
    requires only ==> name != CURRENT
    ensures Canonical1(StackAfter(absolute, w), name, only) == StackAfter(absolute, Follow(w, name))
  {
    var stack := StackAfter(absolute, w);
    if name == PARENT && w.names != [] {
      assert stack[..|stack| - 1] == StackAfter(absolute, Follow(w, name));
    }
  }

  lemma {:induction false} CanonicalFollowsWalk(absolute: bool, names: seq<string>, k: nat)
    requires Rooted(absolute, names) != [CURRENT] && k <= |names|
    ensures CanonicalUpTo(Rooted(absolute, names), k + if absolute then 1 else 0) ==
              StackAfter(absolute, WalkUpTo(names, k))
  {
    var components := Rooted(absolute, names);
    if k == 0 {
      assert CanonicalUpTo(components, 0) == [];
      assert absolute ==> CanonicalUpTo(components, 1) == Canonical1([], "", |components| == 1);
    } else {
      CanonicalFollowsWalk(absolute, names, k - 1);
      CanonicalStep(absolute, WalkUpTo(names, k - 1), names[k - 1], |components| == 1);
    }
  }

  lemma CanonicalStack(path: string)
    requires Split(path) != [CURRENT]
    ensures Canonical(path) == Join(StackAfter(IsAbsolute(path), Walk(path)))
    ensures Plain(Walk(path).names)
  {
    CanonicalFollowsWalk(IsAbsolute(path), Names(path), |Names(path)|);
    WalkIsPlain(Names(path), |Names(path)|);
  }

  /** The parent step that is left in front of a stack, if there is one. */
  function Lead(absolute: bool, w: Walker): seq<string> {
    if (absolute && w.climbs == 0) || absolute == (w.climbs % 2 == 1) then [] else [PARENT]
  }

  lemma StackIs(absolute: bool, w: Walker)
    requires Plain(w.names)
    ensures var stack, lead := StackAfter(absolute, w), Lead(absolute, w);
            && stack == Rooted(absolute && w.climbs == 0, lead + w.names)
            && (stack != [] && stack[0] == PARENT <==> lead == [PARENT])
            && (lead == [] || lead == [PARENT]) && (absolute && w.climbs == 0 ==> lead == [])
  {
    hide Plain;
    if w.names != [] {
      PlainName(w.names, 0);
    }
    assert [] + w.names == w.names;
  }

  lemma LeadIsJoinable(rooted: bool, lead: seq<string>, names: seq<string>)
    requires Plain(names) && (lead == [] || lead == [PARENT]) && (rooted ==> lead + names != [])
    ensures Joinable(Rooted(rooted, lead + names)) && "" !in lead + names
  {
    hide Plain;
    var all := lead + names;
    forall k | 0 <= k < |all|
      ensures IsName(all[k])
    {
      if k >= |lead| {
        PlainName(names, k - |lead|);
      }
    }
    var components := Rooted(rooted, all);
    assert forall k | 0 <= k < |components| :: (rooted && k == 0) || components[k] == all[if rooted then k - 1 else k];
    if all != [] {
      assert all[0] != "";
    }
  }

  /** Joining a stack and walking it again. */
  lemma StackRead(absolute: bool, w: Walker)
    requires Plain(w.names)
    ensures var stack := StackAfter(absolute, w);
            var path := Join(stack);
            && IsAbsolute(path) == (absolute && w.climbs == 0 && w.names != [])
            && Names(path) == (if absolute && w.climbs == 0 then w.names else stack)
            && Walk(path) == Walker(if stack != [] && stack[0] == PARENT then 1 else 0, w.names)
  {
    hide Names;
    hide Join;
    hide Plain;
    hide Joinable;
    hide StackAfter;
    hide Lead;
    hide WalkUpTo;
    var stack, lead := StackAfter(absolute, w), Lead(absolute, w);
    var rooted := absolute && w.climbs == 0;
    StackIs(absolute, w);
    WalkOfParentThenPlain(lead, w.names);
    if rooted && w.names == [] {
      JoinRooted([]);
      NamesSkip("");
      assert [""] + [] == [""];
    } else {
      LeadIsJoinable(rooted, lead, w.names);
      SplitOfJoin(stack);
      SplitTells(Join(stack), rooted, lead + w.names);
    }
    assert [] + w.names == w.names;
  }

  lemma WalkOfParentThenPlain(prefix: seq<string>, names: seq<string>)
    requires (prefix == [] || prefix == [PARENT]) && Plain(names)
    ensures WalkUpTo(prefix + names, |prefix + names|) == Walker(|prefix|, names)
  {
    hide WalkUpTo;
    hide Plain;
    WalkStep(prefix, 0);
    if prefix != [] {
      WalkStep(prefix, 1);
    }
    WalkOfPlain(prefix, names, |prefix + names|);
    assert names[..|names|] == names;
  }

  lemma CanonicalOfCurrent(path: string)
    requires Split(path) == [CURRENT]
    ensures Canonical(path) == CURRENT && Split(CURRENT) == [CURRENT]
    ensures !IsAbsolute(path) && Walk(path) == Walk(CURRENT) == Walker(0, [])
  {
    SplitTells(path, false, [CURRENT]);
    assert CanonicalUpTo([CURRENT], 1) == Canonical1(CanonicalUpTo([CURRENT], 0), CURRENT, true);
    SplitOfJoin([CURRENT]);
    assert WalkUpTo([CURRENT], 1) == Follow(WalkUpTo([CURRENT], 0), CURRENT);
  }

  /** When no parent step climbs above the start and a name is left, the components of the canonical
      path are exactly the names of the walk, and an absolute path stays absolute. */
  lemma CanonicalComponents(path: string)
    requires Walk(path).climbs == 0 && Walk(path).names != []
    ensures IsAbsolute(Canonical(path)) == IsAbsolute(path)
    ensures Names(Canonical(path)) == Walk(path).names
    ensures Split(Canonical(path)) == Rooted(IsAbsolute(path), Walk(path).names)
  {
    if Split(path) == [CURRENT] {
      CanonicalOfCurrent(path);
      assert false;
    }
    CanonicalStack(path);
    StackRead(IsAbsolute(path), Walk(path));
  }

  /** Canonicalize keeps where a path leads in exactly these cases: a relative path may climb once,
      an absolute path must not climb and must not end at the root. */
  lemma CanonicalKeepsMeaning(path: string)
    ensures Meaning(Canonical(path)) == Meaning(path)
       <==> if IsAbsolute(path) then Walk(path).climbs == 0 && Walk(path).names != [] else Walk(path).climbs <= 1
  {
    if Split(path) == [CURRENT] {
      CanonicalOfCurrent(path);
    } else {
      CanonicalStack(path);
      StackRead(IsAbsolute(path), Walk(path));
      StackHead(Walk(path));
    }
  }

  lemma StackHead(w: Walker)
    requires Plain(w.names)
    ensures StackAfter(false, w) != [] && StackAfter(false, w)[0] == PARENT <==> w.climbs % 2 == 1
  {
    assert w.names != [] ==> w.names[0] in w.names;
  }

  /** Both sides, for a path given by its components. */
  lemma CanonicalOfJoined(absolute: bool, names: seq<string>)
    requires Joinable(Rooted(absolute, names)) && "" !in names && Rooted(absolute, names) != [CURRENT]
    ensures var path, w := Join(Rooted(absolute, names)), WalkUpTo(names, |names|);
            && Canonical(path) == Join(StackAfter(absolute, w))
            && Meaning(path) == Place(absolute, if absolute then 0 else w.climbs, w.names)
  {
    hide Join;
    SplitOfJoin(Rooted(absolute, names));
    SplitTells(Join(Rooted(absolute, names)), absolute, names);
    CanonicalStack(Join(Rooted(absolute, names)));
  }

  /** Inputs on which the meaning is lost: a second climb cancels the first. */
  lemma CanonicalLosesClimb(name: string)
    requires Plain([name])
    ensures Canonical("../../" + name) == name
    ensures Meaning("../../" + name) == Place(false, 2, [name])
  {
    var up := [PARENT, PARENT, name];
    assert IsName(name) && name != CURRENT && name != PARENT by { assert name in [name]; }
    assert [PARENT, name][1..] == [name] && up[1..] == [PARENT, name];
    assert Join([PARENT, name]) == ".." + "/" + name == "../" + name;
    assert Join(up) == ".." + "/" + ("../" + name) == "../../" + name;
    assert WalkUpTo(up, 0) == Walker(0, []);
    assert WalkUpTo(up, 1) == Walker(1, []);
    assert WalkUpTo(up, 2) == Walker(2, []);
    assert WalkUpTo(up, 3) == Walker(2, [name]);
    CanonicalOfJoined(false, up);
    assert Join([name]) == name;
  }

  /** Another: the root is forgotten when the walk ends there. */
  lemma CanonicalLosesRoot()
    ensures Canonical("/a/..") == "" && Meaning("/a/..") == Place(true, 0, [])
  {
    var down := ["a", PARENT];
    assert Join(down) == "a/.." by { assert down[1..] == [PARENT]; }
    JoinRooted(down);
    assert WalkUpTo(down, 1) == Walker(0, ["a"]);
    CanonicalOfJoined(true, down);
  }

  /** Canonicalizing twice is canonicalizing once, for every string. */
  lemma CanonicalIdempotent(path: string)
    ensures Canonical(Canonical(path)) == Canonical(path)
  {
    if Split(path) == [CURRENT] {
      CanonicalOfCurrent(path);
    } else {
      var again := Canonical(path);
      CanonicalStack(path);
      StackRead(IsAbsolute(path), Walk(path));
      StackStable(IsAbsolute(path), Walk(path));
      hide *;
      CanonicalStack(again);
      JoinRooted([]);
    }
  }

  /** The stack is what its own walk leaves, but for a bare root marker. */
  lemma StackStable(absolute: bool, w: Walker)
    requires Plain(w.names)
    ensures var stack := StackAfter(absolute, w);
            && stack != [CURRENT] && w.names != [CURRENT]
            && StackAfter(absolute && w.climbs == 0 && w.names != [],
                          Walker(if stack != [] && stack[0] == PARENT then 1 else 0, w.names))
               == if stack == [""] then [] else stack
  {
    var stack := StackAfter(absolute, w);
    assert w.names != [] ==> w.names[0] in w.names;
    assert stack == [""] + w.names || stack == [PARENT] + w.names || stack == w.names;
    assert stack != [] ==> stack[0] != CURRENT;
  }
}

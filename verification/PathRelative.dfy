/** Path::MakeRelative and the round trip through Combine and Canonicalize. */
module PathRelative {
  import opened PathComponents
  import opened PathAppend
  import opened PathWalk

  /** The number of equal leading components. */
  function CommonLength(a: seq<string>, b: seq<string>): (n: nat)
    ensures n <= |a| && n <= |b| && a[..n] == b[..n]
    ensures n < |a| && n < |b| ==> a[n] != b[n]
  {
    if a == [] || b == [] || a[0] != b[0] then 0
    else
      assert a == [a[0]] + a[1..] && b == [b[0]] + b[1..];
      1 + CommonLength(a[1..], b[1..])
  }

  lemma CommonLengthUnique(a: seq<string>, b: seq<string>, n: nat)
    requires n <= |a| && n <= |b| && a[..n] == b[..n]
    requires n < |a| && n < |b| ==> a[n] != b[n]
    ensures CommonLength(a, b) == n
  {
    var c := CommonLength(a, b);
    assert forall i :: 0 <= i < n ==> a[i] == a[..n][i] == b[..n][i] == b[i];
    assert forall i :: 0 <= i < c ==> a[i] == a[..c][i] == b[..c][i] == b[i];
  }

  function Parents(n: nat): (ups: seq<string>)
    ensures |ups| == n
  {
    seq(n, _ => PARENT)
  }

  function Relative(path: string, base: string): string {
    var p, b := Split(path), Split(base);
    if IsAbsolute(path) && IsAbsolute(base) then
      var same := CommonLength(p, b);
      if same > 0 then Join(Parents(|b| - same) + p[same..]) else Join(p)
    else Join(p)
  }

  lemma ParentsMore(n: nat)
    ensures Parents(0) == [] && Parents(n) + [PARENT] == Parents(n + 1)
  {
  }

  /** The loop that counts the common components. */
  method CountCommon(a: seq<string>, b: seq<string>) returns (same: nat)
    ensures same == CommonLength(a, b)
  {
    hide CommonLength;
    var i := 0;
    same := 0;
    while i < |a| && i < |b|
      invariant same == i <= |a| && i <= |b| && a[..i] == b[..i]
    {
      if a[i] != b[i] {
        break;
      }
      same := same + 1;
      i := i + 1;
    }
    CommonLengthUnique(a, b, same);
  }

  method MakeRelative(path: string, relativeTo: string) returns (result: string)
    ensures result == Relative(path, relativeTo)
  {
    hide Names;
    hide Join;
    hide Split;
    hide CommonLength;
    hide Parents;
    var pathComponents := SplitNativePath(path);
    var relativeComponents := SplitNativePath(relativeTo);
    var newComponents: seq<string> := [];
    ParentsMore(0);
    if IsAbsolute(path) && IsAbsolute(relativeTo) {
      var numSame := CountCommon(pathComponents, relativeComponents);
      if numSame > 0 {
        var numUps := |relativeComponents| - numSame;
        for k := 0 to numUps
          invariant newComponents == Parents(k)
        {
          ParentsMore(k);
          newComponents := newComponents + [PARENT];
        }
        for k := numSame to |pathComponents|
          invariant newComponents == Parents(numUps) + pathComponents[numSame..k]
        {
          newComponents := newComponents + [pathComponents[k]];
        }
        assert pathComponents[numSame..|pathComponents|] == pathComponents[numSame..];
      } else {
        newComponents := pathComponents;
      }
    } else {
      newComponents := pathComponents;
    }
    result := Join(newComponents);
  }

  /** Parent steps undo names one by one. */
  lemma {:induction false} WalkParents(names: seq<string>, ups: nat, k: nat)
    requires Plain(names) && k <= ups <= |names|
    ensures WalkUpTo(names + Parents(ups), |names| + k) == Walker(0, names[..|names| - k])
  {
    hide WalkUpTo;
    hide Plain;
    if k == 0 {
      WalkPrefix(names, Parents(ups), |names|);
      assert [] + names == names;
      WalkStep([], 0);
      WalkOfPlain([], names, |names|);
    } else {
      WalkParents(names, ups, k - 1);
      var steps, left := names + Parents(ups), names[..|names| - (k - 1)];
      WalkStep(steps, |names| + k);
      assert steps[|names| + k - 1] == PARENT;
      assert left[..|left| - 1] == names[..|names| - k];
    }
  }

  lemma {:induction false} WalkMore(before: seq<string>, more: seq<string>, k: nat)
    requires Plain(more) && k <= |more|
    ensures WalkUpTo(before + more, |before| + k)
         == WalkUpTo(before, |before|).(names := WalkUpTo(before, |before|).names + more[..k])
  {
    hide WalkUpTo;
    hide Plain;
    if k == 0 {
      WalkPrefix(before, more, |before|);
    } else {
      WalkMore(before, more, k - 1);
      WalkStep(before + more, |before| + k);
      PlainName(more, k - 1);
      assert more[..k] == more[..k - 1] + [more[k - 1]];
    }
  }

  lemma RelativeSteps(path: string, base: string)
    requires IsAbsolute(path) && IsAbsolute(base)
    ensures var p, b := Names(path), Names(base);
            Relative(path, base) == Join(Parents(|b| - CommonLength(p, b)) + p[CommonLength(p, b)..])
  {
    var p, b := Names(path), Names(base);
    var same := CommonLength(p, b);
    assert Split(path)[1..] == p && Split(base)[1..] == b;
    assert CommonLength(Split(path), Split(base)) == 1 + same;
    assert Split(path)[1 + same..] == p[same..];
  }

  lemma PlainRest(p: seq<string>, same: nat)
    requires Plain(p) && same <= |p|
    ensures Plain(p[same..])
  {
  }

  /** The walk down the base, up again and down to the path ends at the path. */
  lemma WalkBack(p: seq<string>, b: seq<string>, same: nat)
    requires Plain(p) && Plain(b) && same <= |p| && same <= |b| && p[..same] == b[..same]
    ensures var steps := b + (Parents(|b| - same) + p[same..]);
            WalkUpTo(steps, |steps|) == Walker(0, p)
  {
    hide WalkUpTo;
    hide Plain;
    var up, down := Parents(|b| - same), p[same..];
    var there := b + up;
    WalkParents(b, |up|, |up|);
    PlainRest(p, same);
    WalkMore(there, down, |down|);
    assert b + (up + down) == there + down;
    assert b[..same] + down[..|down|] == p;
  }

  lemma StepsAreNames(p: seq<string>, b: seq<string>)
    requires Plain(p)
    ensures var steps := Parents(|b| - CommonLength(p, b)) + p[CommonLength(p, b)..];
            Names(Join(steps)) == steps && (p != [] ==> b + steps != [])
  {
    var steps := Parents(|b| - CommonLength(p, b)) + p[CommonLength(p, b)..];
    assert forall name | name in p :: IsName(name);
    JoinNames(steps);
  }

  lemma RelativeNames(path: string, base: string)
    requires IsAbsolute(path) && IsAbsolute(base)
    requires Plain(Names(path)) && Plain(Names(base))
    ensures Walk(Combined(base, Relative(path, base))) == Walker(0, Names(path))
    ensures Names(path) != [] ==> Names(Combined(base, Relative(path, base))) != []
  {
    hide Names;
    hide Join;
    hide Combined;
    hide Plain;
    hide CommonLength;
    hide WalkUpTo;
    RelativeSteps(path, base);
    StepsAreNames(Names(path), Names(base));
    CombinedComponents(base, Relative(path, base));
    WalkBack(Names(path), Names(base), CommonLength(Names(path), Names(base)));
  }

  /** Going from the base along the relative path leads back to the path. Nothing is assumed of
      repeated separators in either; the root itself comes back as the empty string. */
  lemma RelativeRoundTrip(path: string, base: string)
    requires IsAbsolute(path) && IsAbsolute(base)
    requires Plain(Names(path)) && Plain(Names(base))
    ensures Canonical(Combined(base, Relative(path, base))) == if Names(path) != [] then Native(path) else ""
  {
    var there := Combined(base, Relative(path, base));
    RelativeNames(path, base);
    CombinedComponents(base, Relative(path, base));
    JoinOfSplit(path);
    JoinRooted(Names(path));
    if Names(there) == [] {
      JoinRooted([]);
      assert there == "";
      assert CanonicalUpTo([], 0) == [];
    } else {
      assert Split(there)[0] == "";
      CanonicalStack(there);
    }
  }
}

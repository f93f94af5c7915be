/** When going to a path relative to a base and combining it with the base gives the path. */
module PathRoundTrip {
  import opened PathText
  import opened PathAlgebra
  import opened PathPlace

  /** How much deeper the components lead, if they never climb. */
  function Net(cs: seq<string>): int
    decreases |cs|
  {
    if cs == [] then 0
    else (if cs[0] == "." then 0 else if cs[0] == ".." then -1 else 1) + Net(cs[1..])
  }

  lemma {:induction false} NetJoin(a: seq<string>, b: seq<string>)
    ensures Net(a + b) == Net(a) + Net(b)
    decreases |a|
  {
    if a == [] {
      assert a + b == b;
    } else {
      assert (a + b)[1..] == a[1..] + b;
      NetJoin(a[1..], b);
    }
  }

  lemma {:induction false} NetIsDepth(st: seq<string>, cs: seq<string>)
    requires Climbs(|st|, cs) == 0
    ensures |Walk(st, cs)| == |st| + Net(cs)
    decreases |cs|
  {
    if cs != [] {
      NetIsDepth(Enter(st, cs[0]), cs[1..]);
    }
  }

  lemma {:induction false} NetOfUps(n: nat)
    ensures Net(Ups(n)) == 0 - n
  {
    if n > 0 {
      assert Ups(n)[1..] == Ups(n - 1);
      NetOfUps(n - 1);
    }
  }

  lemma {:induction false} NetBelowLength(cs: seq<string>)
    requires AreNames(cs)
    ensures Net(cs) <= |cs| && (Net(cs) == |cs| ==> ArePlain(cs))
    decreases |cs|
  {
    if cs != [] {
      assert IsName(cs[0]);
      NetBelowLength(cs[1..]);
      if Net(cs) == |cs| {
        assert forall i | 0 < i < |cs| :: cs[i] == cs[1..][i - 1];
      }
    }
  }

  /** The components of the combined path, behind the root. */
  function Detour(p: seq<string>, b: seq<string>, same: nat): seq<string>
    requires 1 <= same <= |p| && same <= |b|
  {
    b[1..] + (Ups(|b| - same) + p[same..])
  }

  lemma DetourIsShallower(p: seq<string>, b: seq<string>, same: nat)
    requires 1 <= same <= |p| && same <= |b| && p[..same] == b[..same]
    requires AreNames(b[same..]) && !ArePlain(b[same..])
    ensures Net(Detour(p, b, same)) < Net(p[1..])
  {
    var common, down, up, rest := p[1..same], b[same..], Ups(|b| - same), p[same..];
    assert b[1..] == common + down && p[1..] == common + rest;
    NetJoin(common, down);
    NetJoin(common, rest);
    NetJoin(common + down, up + rest);
    NetJoin(up, rest);
    NetOfUps(|b| - same);
    NetBelowLength(down);
  }

  /** Joining loses nothing but the root alone. */
  lemma JoinInjective(a: seq<string>, b: seq<string>)
    requires AreComponents(a) && AreComponents(b) && Join(a) == Join(b)
    ensures a == b || (a in {[], [""]} && b in {[], [""]})
  {
    SplitOfJoin(a);
    SplitOfJoin(b);
  }

  /** For an absolute path that stays below the root, the round trip works exactly when the
      base is plain behind what the two have in common. */
  lemma RoundTripExactly(path: string, base: string)
    requires IsAbsolute(path) && IsAbsolute(base) && KeepsPlace(path)
    ensures Canonical(Combined(base, Relative(path, base))) == Canonical(path)
            <==> ArePlain(Split(base)[CommonPrefix(Split(path), Split(base))..])
  {
    var p, b := Split(path), Split(base);
    var same := CommonPrefix(p, b);
    RelativeIsNames(path, base);
    if ArePlain(b[same..]) {
      RelativeRoundTrip(path, base);
    } else {
      BrokenRoundTrip(path, base);
    }
  }

  lemma BrokenRoundTrip(path: string, base: string)
    requires IsAbsolute(path) && IsAbsolute(base) && KeepsPlace(path)
    requires CommonPrefix(Split(path), Split(base)) >= 1
    requires !ArePlain(Split(base)[CommonPrefix(Split(path), Split(base))..])
    ensures Canonical(Combined(base, Relative(path, base))) != Canonical(path)
  {
    var p, b, names := Split(path), Split(base), Names(path);
    var same := CommonPrefix(p, b);
    var detour := Detour(p, b, same);
    RoundTripByClimbs(path, base);
    NamesAreNames(base);
    SuffixAreNames(Names(base), b, same);
    DetourIsShallower(p, b, same);
    DifferentDepth(names, detour, p);
  }

  lemma DifferentDepth(names: seq<string>, detour: seq<string>, p: seq<string>)
    requires p == [""] + names && Net(detour) < Net(p[1..])
    requires Climbs(0, names) == 0 && Walk([], names) != []
    ensures Walk([], detour) == Walk([], names) ==> !ClimbAlike(Climbs(0, detour), 0, false)
  {
    assert p[1..] == names;
    NetIsDepth([], names);
    if Climbs(0, detour) == 0 {
      NetIsDepth([], detour);
    }
  }

  lemma CanonicalOfCombined(path: string, base: string)
    requires IsAbsolute(path) && IsAbsolute(base)
    ensures var whole := Split(base) + RelativeComponents(path, base);
            Canonical(Combined(base, Relative(path, base)))
            == Join(CanonicalComponents(if whole == [""] then [] else whole))
  {
    RelativeIsNames(path, base);
    CombinedWithJoined(base, RelativeComponents(path, base));
  }

  lemma CanonicalIsComponents(names: seq<string>)
    requires AreNames(names)
    ensures AreComponents(CanonicalComponents([""] + names))
  {
    assert ([""] + names)[1..] == names;
    CanonicalShape([""] + names);
    CanonicalIsFixed(CanonicalComponents([""] + names));
  }

  // ---- paths that climb above the root, or lead to it ----

  /** What `Canonicalize` puts in front of the names of an absolute path that climbs `u` times. */
  function Front(u: nat): seq<string> {
    if u == 0 then [""] else Dots(u - 1)
  }

  /** Two numbers of climbs make no difference: both zero, or both odd, or both even; in front
      of nothing, zero and odd come to the same. */
  predicate ClimbAlike(u: nat, v: nat, nothing: bool) {
    || u == v == 0
    || (u > 0 && v > 0 && u % 2 == v % 2)
    || (nothing && (u == 0 || u % 2 == 1) && (v == 0 || v % 2 == 1))
  }

  /** The round trip for all absolute paths and bases: going to the base, up again and down to
      the path must leave the same names as the path does and climb above the root alike. */
  lemma RoundTripByClimbs(path: string, base: string)
    requires IsAbsolute(path) && IsAbsolute(base)
    ensures CommonPrefix(Split(path), Split(base)) >= 1
    ensures var names, same := Names(path), CommonPrefix(Split(path), Split(base));
            var detour := Detour(Split(path), Split(base), same);
            Canonical(Combined(base, Relative(path, base))) == Canonical(path)
            <==> Walk([], detour) == Walk([], names)
                 && ClimbAlike(Climbs(0, detour), Climbs(0, names), Walk([], names) == [])
  {
    RelativeIsNames(path, base);
    NamesAreNames(path);
    var detour := Detour(Split(path), Split(base), CommonPrefix(Split(path), Split(base)));
    CombinedIsDetour(path, base, detour);
    SameCanonical(detour, Names(path));
  }

  lemma CombinedIsDetour(path: string, base: string, detour: seq<string>)
    requires IsAbsolute(path) && IsAbsolute(base) && CommonPrefix(Split(path), Split(base)) >= 1
    requires detour == Detour(Split(path), Split(base), CommonPrefix(Split(path), Split(base)))
    ensures AreNames(detour)
    ensures Canonical(Combined(base, Relative(path, base))) == Join(CanonicalComponents([""] + detour))
  {
    var p, b := Split(path), Split(base);
    NamesAreNames(path);
    NamesAreNames(base);
    DetourAreNames(Names(path), Names(base), p, b, CommonPrefix(p, b));
    CanonicalOfCombined(path, base);
    WholeIsDetour(p, b, CommonPrefix(p, b), RelativeComponents(path, base));
    JoinedWithoutRoot(detour);
  }

  lemma WholeIsDetour(p: seq<string>, b: seq<string>, same: nat, rel: seq<string>)
    requires 1 <= same <= |p| && same <= |b| && b[0] == "" && rel == Ups(|b| - same) + p[same..]
    ensures b + rel == [""] + Detour(p, b, same)
  {}

  lemma DetourAreNames(names: seq<string>, baseNames: seq<string>, p: seq<string>, b: seq<string>, same: nat)
    requires p == [""] + names && b == [""] + baseNames && AreNames(names) && AreNames(baseNames)
    requires 1 <= same <= |p| && same <= |b|
    ensures AreNames(Detour(p, b, same))
  {
    SuffixAreNames(names, p, same);
    DotsAreNames();
    assert b[1..] == baseNames;
  }

  lemma JoinedWithoutRoot(detour: seq<string>)
    ensures var whole := [""] + detour;
            Join(CanonicalComponents(if whole == [""] then [] else whole)) == Join(CanonicalComponents(whole))
  {
    RootIsEmpty();
  }

  lemma SameCanonical(a: seq<string>, b: seq<string>)
    requires AreNames(a) && AreNames(b)
    ensures Join(CanonicalComponents([""] + a)) == Join(CanonicalComponents([""] + b))
            <==> Walk([], a) == Walk([], b) && ClimbAlike(Climbs(0, a), Climbs(0, b), Walk([], b) == [])
  {
    FrontThenNames(a);
    FrontThenNames(b);
    var u, w, v, x := Climbs(0, a), Walk([], a), Climbs(0, b), Walk([], b);
    FrontIsComponents(a, u, w);
    FrontIsComponents(b, v, x);
    SameBehindFront(u, w, v, x);
  }

  lemma FrontThenNames(names: seq<string>)
    requires AreNames(names)
    ensures CanonicalComponents([""] + names) == Front(Climbs(0, names)) + Walk([], names)
    ensures ArePlain(Walk([], names))
  {
    CanonicalBehindRoot(names);
    WalkIsPlain([], names);
  }

  lemma FrontIsComponents(names: seq<string>, u: nat, w: seq<string>)
    requires AreNames(names) && CanonicalComponents([""] + names) == Front(u) + w
    ensures AreComponents(Front(u) + w)
  {
    CanonicalIsComponents(names);
  }

  lemma SameBehindFront(u: nat, w: seq<string>, v: nat, x: seq<string>)
    requires ArePlain(w) && ArePlain(x) && AreComponents(Front(u) + w) && AreComponents(Front(v) + x)
    ensures Join(Front(u) + w) == Join(Front(v) + x) <==> w == x && ClimbAlike(u, v, x == [])
  {
    JoinsAlike(Front(u) + w, Front(v) + x);
    FrontsDiffer(u, w, v, x);
    FrontIsNothing(u, w);
    FrontIsNothing(v, x);
    FrontParity(u, v);
  }

  lemma FrontParity(u: nat, v: nat)
    ensures Front(u) == Front(v) <==> ClimbAlike(u, v, false)
  {
    assert Front(u) != [] ==> Front(u)[0] == if u == 0 then "" else "..";
    assert Front(v) != [] ==> Front(v)[0] == if v == 0 then "" else "..";
  }

  lemma JoinsAlike(a: seq<string>, b: seq<string>)
    requires AreComponents(a) && AreComponents(b)
    ensures Join(a) == Join(b) <==> a == b || (a in {[], [""]} && b in {[], [""]})
  {
    if Join(a) == Join(b) {
      JoinInjective(a, b);
    }
  }

  lemma FrontsDiffer(u: nat, w: seq<string>, v: nat, x: seq<string>)
    requires ArePlain(w) && ArePlain(x)
    ensures Front(u) + w == Front(v) + x <==> w == x && Front(u) == Front(v)
  {
    var a, b := Front(u) + w, Front(v) + x;
    if Front(u) != [] {
      FrontIsNotPlain(u, w, x);
    }
    if Front(v) != [] {
      FrontIsNotPlain(v, x, w);
    }
    if a == b && |Front(u)| == |Front(v)| {
      assert w == a[|Front(u)|..] && x == b[|Front(v)|..];
      assert Front(u) == a[..|Front(u)|] && Front(v) == b[..|Front(v)|];
    }
    assert Front(u) == [] ==> a == w;
    assert Front(v) == [] ==> b == x;
  }

  /** Plain names are not what begins with a front. */
  lemma FrontIsNotPlain(u: nat, w: seq<string>, x: seq<string>)
    requires ArePlain(x) && Front(u) != []
    ensures Front(u) + w != x
  {
    if x != [] {
      assert IsPlain(x[0]);
      assert (Front(u) + w)[0] == Front(u)[0];
    }
  }

  lemma FrontIsNothing(u: nat, w: seq<string>)
    requires ArePlain(w)
    ensures Front(u) + w in {[], [""]} <==> w == [] && (u == 0 || u % 2 == 1)
  {
    var a := Front(u) + w;
    if w != [] {
      assert IsPlain(w[|w| - 1]);
      assert a[|a| - 1] == w[|w| - 1];
    } else {
      assert a == Front(u);
      assert a != [] ==> a[0] == if u == 0 then "" else "..";
    }
  }
}

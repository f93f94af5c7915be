/** Where a path leads, in a tree without links, and when `Canonicalize` keeps that place. */
module PathPlace {
  import opened PathText
  import opened PathAlgebra

  /** A place is the list of names from the root. */
  type Place = seq<string>

  function Enter(at: Place, c: string): Place {
    if c == "." then at
    else if c == ".." then if at == [] then [] else at[..|at| - 1]
    else at + [c]
  }

  function Walk(at: Place, cs: seq<string>): Place
    decreases |cs|
  {
    if cs == [] then at else Walk(Enter(at, cs[0]), cs[1..])
  }

  /** Where a path leads from the working directory `cwd`; an empty path stays there. */
  function PlaceOf(path: string, cwd: Place): Place {
    Walk(if IsAbsolute(path) then [] else cwd, Names(path))
  }

  /** How often the components go up from where they began, `depth` levels below it. */
  function Climbs(depth: nat, cs: seq<string>): nat
    decreases |cs|
  {
    if cs == [] then 0
    else if cs[0] == "." then Climbs(depth, cs[1..])
    else if cs[0] == ".." then if depth == 0 then 1 + Climbs(0, cs[1..]) else Climbs(depth - 1, cs[1..])
    else Climbs(depth + 1, cs[1..])
  }

  /** The place `u` levels up; the root is above itself. */
  function Above(at: Place, u: nat): (r: Place)
    ensures |r| == if u <= |at| then |at| - u else 0
  {
    if u == 0 then at else Enter(Above(at, u - 1), "..")
  }

  lemma EnterBelow(at: Place, st: seq<string>, c: string)
    requires c != ".." || st != []
    ensures Enter(at + st, c) == at + Enter(st, c)
  {}

  lemma WalkUp(at: Place, u: nat, rest: seq<string>)
    ensures Walk(Above(at, u) + [], [".."] + rest) == Walk(Above(at, u + 1) + [], rest)
  {
    var left, higher := Above(at, u), Above(at, u + 1);
    assert left + [] == left && higher + [] == higher;
  }

  lemma WalkBelow(left: Place, st: seq<string>, c: string, rest: seq<string>)
    requires c != ".." || st != []
    ensures Walk(left + st, [c] + rest) == Walk(left + Enter(st, c), rest)
  {
    EnterBelow(left, st, c);
  }

  lemma WalkFirst(st: seq<string>, c: string, rest: seq<string>)
    ensures Walk(st, [c] + rest) == Walk(Enter(st, c), rest)
    ensures c == ".." && st == [] ==> Climbs(|st|, [c] + rest) == 1 + Climbs(0, rest)
    ensures c != ".." || st != [] ==> Climbs(|st|, [c] + rest) == Climbs(|Enter(st, c)|, rest)
  {
    assert ([c] + rest)[1..] == rest;
  }

  /** In general: up `Climbs` times, then down the names that are left over. */
  lemma {:induction false} WalkClimbs(at: Place, u: nat, st: seq<string>, cs: seq<string>)
    ensures Walk(Above(at, u) + st, cs) == Above(at, u + Climbs(|st|, cs)) + Walk(st, cs)
    decreases |cs|
  {
    if cs != [] {
      var c, rest := cs[0], cs[1..];
      assert cs == [c] + rest;
      WalkFirst(st, c, rest);
      if c == ".." && st == [] {
        WalkUp(at, u, rest);
        WalkClimbs(at, u + 1, [], rest);
      } else {
        WalkBelow(Above(at, u), st, c, rest);
        WalkClimbs(at, u, Enter(st, c), rest);
      }
    }
  }

  /** `Canonicalize` keeps one ".." in front of the names when the number of climbs is odd:
      the second one removes the first. */
  function Dots(u: nat): seq<string> {
    if u % 2 == 1 then [".."] else []
  }

  lemma ResolveBelow(front: seq<string>, st: seq<string>, c: string)
    requires c != ".." || st != []
    ensures Resolve(front + st, c, false) == front + Enter(st, c)
  {}

  lemma ResolveUp(u: nat, st: seq<string>)
    requires st == []
    ensures Resolve(Dots(u) + st, "..", false) == Dots(u + 1) + []
  {
    assert Dots(u) + st == Dots(u) && Dots(u + 1) + [] == Dots(u + 1);
  }

  lemma ResolveFirst(stack: seq<string>, c: string, rest: seq<string>)
    ensures ResolveAll(stack, [c] + rest, false) == ResolveAll(Resolve(stack, c, false), rest, false)
  {
    assert ([c] + rest)[1..] == rest;
  }

  lemma {:induction false} ResolveClimbs(u: nat, st: seq<string>, cs: seq<string>)
    ensures ResolveAll(Dots(u) + st, cs, false) == Dots(u + Climbs(|st|, cs)) + Walk(st, cs)
    decreases |cs|
  {
    if cs != [] {
      var c, rest := cs[0], cs[1..];
      assert cs == [c] + rest;
      WalkFirst(st, c, rest);
      ResolveFirst(Dots(u) + st, c, rest);
      if c == ".." && st == [] {
        ResolveUp(u, st);
        ResolveClimbs(u + 1, [], rest);
        assert u + 1 + Climbs(0, rest) == u + Climbs(|st|, cs);
      } else {
        ResolveBelow(Dots(u), st, c);
        ResolveClimbs(u, Enter(st, c), rest);
      }
    }
  }

  /** Behind the root the first climb removes the root, and the rest is taken as relative. */
  lemma {:induction false} ResolveBehindRoot(st: seq<string>, cs: seq<string>)
    ensures var u := Climbs(|st|, cs);
            ResolveAll([""] + st, cs, false) == (if u == 0 then [""] else Dots(u - 1)) + Walk(st, cs)
    decreases |cs|
  {
    if cs != [] {
      var c, rest := cs[0], cs[1..];
      assert cs == [c] + rest;
      WalkFirst(st, c, rest);
      ResolveFirst([""] + st, c, rest);
      if c == ".." && st == [] {
        assert Resolve([""] + st, c, false) == Dots(0) + [];
        ResolveClimbs(0, [], rest);
      } else {
        ResolveBelow([""], st, c);
        ResolveBehindRoot(Enter(st, c), rest);
      }
    }
  }

  lemma {:induction false} WalkIsPlain(st: seq<string>, cs: seq<string>)
    requires ArePlain(st) && AreNames(cs)
    ensures ArePlain(Walk(st, cs))
    decreases |cs|
  {
    if cs != [] {
      assert IsName(cs[0]);
      WalkIsPlain(Enter(st, cs[0]), cs[1..]);
    }
  }

  lemma {:induction false} WalkPlain(at: Place, cs: seq<string>)
    requires ArePlain(cs)
    ensures Walk(at, cs) == at + cs
    decreases |cs|
  {
    if cs == [] {
      assert at + cs == at;
    } else {
      assert IsPlain(cs[0]);
      WalkPlain(at + [cs[0]], cs[1..]);
      assert at + [cs[0]] + cs[1..] == at + cs;
    }
  }

  // ---- relative paths ----

  lemma CanonicalOfNames(names: seq<string>)
    ensures CanonicalComponents(names) == if names == ["."] then ["."] else Dots(Climbs(0, names)) + Walk([], names)
  {
    if names != ["."] {
      OnlyMattersForDot(names);
      ResolveClimbs(0, [], names);
      assert Dots(0) + [] == [];
    } else {
      assert names[1..] == [];
      assert ResolveAll([], names, true) == ResolveAll(["."], names[1..], true);
    }
  }

  lemma OnlyMattersForDot(cs: seq<string>)
    requires cs != ["."]
    ensures CanonicalComponents(cs) == ResolveAll([], cs, false)
  {
    if |cs| == 1 {
      assert cs == [cs[0]];
      assert cs[1..] == [];
      assert ResolveAll([], cs, true) == Resolve([], cs[0], true);
      assert ResolveAll([], cs, false) == Resolve([], cs[0], false);
    }
  }

  lemma PlaceOfJoined(cs: seq<string>, cwd: Place)
    requires AreNames(cs)
    ensures PlaceOf(Join(cs), cwd) == Walk(cwd, cs)
  {
    NamesOfJoin(cs);
    if cs != [] {
      JoinStartsWithName(cs);
    }
  }

  lemma PlaceOfCanonicalNames(names: seq<string>, cwd: Place)
    requires AreNames(names)
    ensures PlaceOf(Join(CanonicalComponents(names)), cwd) == Above(cwd, Climbs(0, names) % 2) + Walk([], names)
  {
    CanonicalOfNames(names);
    if names == ["."] {
      DotsAreNames();
      PlaceOfJoined(names, cwd);
      DotStays(cwd);
    } else {
      WalkIsPlain([], names);
      DotsThenNames(Climbs(0, names), Walk([], names), cwd);
    }
  }

  lemma DotStays(at: Place)
    ensures Walk(at, ["."]) == at == Above(at, Climbs(0, ["."]) % 2) + Walk([], ["."])
  {
    assert ["."][1..] == [];
    assert Above(at, 0) + [] == at;
  }

  lemma {:induction false} PlaceOfNames(names: seq<string>, cwd: Place)
    ensures Walk(cwd, names) == Above(cwd, Climbs(0, names)) + Walk([], names)
  {
    assert Above(cwd, 0) + [] == cwd;
    WalkClimbs(cwd, 0, [], names);
  }

  lemma {:induction false} RelativeCase(path: string, cwd: Place)
    requires !IsAbsolute(path)
    ensures var u, rest := Climbs(0, Names(path)), Walk([], Names(path));
            && PlaceOf(path, cwd) == Above(cwd, u) + rest
            && PlaceOf(Canonical(path), cwd) == Above(cwd, u % 2) + rest
  {
    NamesAreNames(path);
    PlaceOfNames(Names(path), cwd);
    PlaceOfCanonicalNames(Names(path), cwd);
  }

  lemma DotsThenNames(u: nat, rest: seq<string>, cwd: Place)
    requires ArePlain(rest)
    ensures PlaceOf(Join(Dots(u) + rest), cwd) == Above(cwd, u % 2) + rest
  {
    DotsAreNames();
    var cs := Dots(u) + rest;
    assert AreNames(cs);
    PlaceOfJoined(cs, cwd);
    if u % 2 == 1 {
      assert cs[1..] == rest;
      assert Above(cwd, 1) == Enter(Above(cwd, 0), "..");
      WalkPlain(Above(cwd, 1), rest);
    } else {
      assert cs == rest;
      assert Above(cwd, 0) == cwd;
      WalkPlain(cwd, rest);
    }
  }

  // ---- absolute paths ----

  lemma CanonicalBehindRoot(names: seq<string>)
    ensures var u := Climbs(0, names);
            CanonicalComponents([""] + names) == (if u == 0 then [""] else Dots(u - 1)) + Walk([], names)
  {
    OnlyBehindRoot(names);
    assert [""] + [] == [""];
    ResolveBehindRoot([], names);
  }

  lemma PlaceBehindRoot(names: seq<string>, cwd: Place)
    requires AreNames(names)
    ensures var u, rest := Climbs(0, names), Walk([], names);
            PlaceOf(Join(CanonicalComponents([""] + names)), cwd)
            == if u > 0 then Above(cwd, (u - 1) % 2) + rest else if rest == [] then cwd else rest
  {
    var u, rest := Climbs(0, names), Walk([], names);
    WalkIsPlain([], names);
    CanonicalBehindRoot(names);
    if u == 0 {
      assert CanonicalComponents([""] + names) == [""] + rest;
      RootThenNames(rest, cwd);
    } else {
      assert CanonicalComponents([""] + names) == Dots(u - 1) + rest;
      DotsThenNames(u - 1, rest, cwd);
    }
  }

  lemma {:induction false} AbsoluteCase(path: string, cwd: Place)
    requires IsAbsolute(path)
    ensures var u, rest := Climbs(0, Names(path)), Walk([], Names(path));
            && PlaceOf(path, cwd) == rest
            && PlaceOf(Canonical(path), cwd)
               == if u > 0 then Above(cwd, (u - 1) % 2) + rest else if rest == [] then cwd else rest
  {
    NamesAreNames(path);
    PlaceBehindRoot(Names(path), cwd);
  }

  lemma RootThenNames(rest: seq<string>, cwd: Place)
    requires ArePlain(rest)
    ensures PlaceOf(Join([""] + rest), cwd) == if rest == [] then cwd else rest
  {
    assert AreNames(rest);
    SplitOfJoinedRoot(rest);
    var path := Join([""] + rest);
    if rest == [] {
      assert path == "";
    } else {
      JoinAfterRoot(rest);
      assert Split(path)[1..] == rest;
      WalkPlain([], rest);
      assert [] + rest == rest;
    }
  }

  // ---- the condition ----

  /** Paths on which `Canonicalize` is right: an absolute one must not climb above the root
      nor lead to the root; a relative one may climb above its start once. */
  predicate KeepsPlace(path: string) {
    if IsAbsolute(path) then Climbs(0, Names(path)) == 0 && Walk([], Names(path)) != []
    else Climbs(0, Names(path)) <= 1
  }

  /** Seen from two levels below the root, the two places differ in depth. */
  lemma {:induction false} OtherPlace(path: string, cwd: Place)
    requires !KeepsPlace(path) && |cwd| == 2
    ensures PlaceOf(Canonical(path), cwd) != PlaceOf(path, cwd)
  {
    if IsAbsolute(path) {
      AbsoluteCase(path, cwd);
      assert |PlaceOf(Canonical(path), cwd)| > |PlaceOf(path, cwd)|;
    } else {
      RelativeCase(path, cwd);
      assert |PlaceOf(Canonical(path), cwd)| > |PlaceOf(path, cwd)|;
    }
  }

  lemma {:induction false} SamePlaceFrom(path: string, cwd: Place)
    requires KeepsPlace(path)
    ensures PlaceOf(Canonical(path), cwd) == PlaceOf(path, cwd)
  {
    if IsAbsolute(path) {
      AbsoluteCase(path, cwd);
      SameEnds(PlaceOf(Canonical(path), cwd), PlaceOf(path, cwd), Walk([], Names(path)));
    } else {
      RelativeCase(path, cwd);
      var u := Climbs(0, Names(path));
      assert u % 2 == u;
      SameEnds(PlaceOf(Canonical(path), cwd), PlaceOf(path, cwd), Above(cwd, u) + Walk([], Names(path)));
    }
  }

  lemma SameEnds(a: Place, b: Place, end: Place)
    requires a == end && b == end
    ensures a == b
  {}

  /** `Canonicalize` leads to the same place, from every working directory, exactly then. */
  lemma SamePlace(path: string)
    ensures (forall cwd :: PlaceOf(Canonical(path), cwd) == PlaceOf(path, cwd)) <==> KeepsPlace(path)
  {
    if KeepsPlace(path) {
      forall cwd
        ensures PlaceOf(Canonical(path), cwd) == PlaceOf(path, cwd)
      {
        SamePlaceFrom(path, cwd);
      }
    } else {
      OtherPlace(path, ["a", "a"]);
    }
  }
}

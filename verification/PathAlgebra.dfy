/** `Canonicalize`, `MakeRelative` and `Combine` on lists of components, and what they do to
    the place a path leads to. */
module PathAlgebra {
  import opened PathText

  predicate IsPlain(c: string) {
    IsName(c) && c != "." && c != ".."
  }

  ghost predicate ArePlain(cs: seq<string>) {
    forall i | 0 <= i < |cs| :: IsPlain(cs[i])
  }

  /** One component of the loop of `Canonicalize`; `only` says that it is the only one. */
  function Resolve(stack: seq<string>, c: string, only: bool): seq<string> {
    if c == "." then if only then stack + [c] else stack
    else if c == ".." then if stack != [] then stack[..|stack| - 1] else stack + [c]
    else stack + [c]
  }

  function ResolveAll(stack: seq<string>, cs: seq<string>, only: bool): seq<string>
    decreases |cs|
  {
    if cs == [] then stack else ResolveAll(Resolve(stack, cs[0], only), cs[1..], only)
  }

  function Canonical(path: string): string {
    Join(CanonicalComponents(Split(path)))
  }

  function CanonicalComponents(cs: seq<string>): seq<string> {
    ResolveAll([], cs, |cs| == 1)
  }

  lemma {:induction false} ResolveJoin(stack: seq<string>, a: seq<string>, b: seq<string>, only: bool)
    ensures ResolveAll(stack, a + b, only) == ResolveAll(ResolveAll(stack, a, only), b, only)
    decreases |a|
  {
    if a == [] {
      assert a + b == b;
    } else {
      assert (a + b)[0] == a[0] && (a + b)[1..] == a[1..] + b;
      ResolveJoin(Resolve(stack, a[0], only), a[1..], b, only);
    }
  }

  lemma {:induction false} PlainIsPushed(stack: seq<string>, cs: seq<string>, only: bool)
    requires ArePlain(cs)
    ensures ResolveAll(stack, cs, only) == stack + cs
    decreases |cs|
  {
    if cs == [] {
      assert stack + cs == stack;
    } else {
      assert IsPlain(cs[0]);
      PlainIsPushed(stack + [cs[0]], cs[1..], only);
      assert stack + [cs[0]] + cs[1..] == stack + cs;
    }
  }

  function Ups(n: nat): (cs: seq<string>)
    ensures |cs| == n
  {
    seq(n, _ => "..")
  }

  lemma {:induction false} UpsPop(stack: seq<string>, more: seq<string>, only: bool)
    ensures ResolveAll(stack + more, Ups(|more|), only) == stack
    decreases |more|
  {
    var ups := Ups(|more|);
    if more == [] {
      assert stack + more == stack;
    } else {
      var front := more[..|more| - 1];
      assert Resolve(stack + more, "..", only) == stack + front;
      assert ups[1..] == Ups(|front|);
      UpsPop(stack, front, only);
    }
  }

  // ---- canonical paths ----

  /** What `Canonicalize` leaves: plain names, behind the root, behind one "..", or nothing;
      or a single ".". */
  ghost predicate IsCanonical(cs: seq<string>) {
    || cs == ["."]
    || ArePlain(cs)
    || (cs != [] && (cs[0] == "" || cs[0] == "..") && ArePlain(cs[1..]))
  }

  lemma ResolveCanonical(stack: seq<string>, c: string, only: bool)
    requires IsCanonical(stack) && stack != ["."] && (IsName(c) || (c == "" && stack == [])) && (only ==> stack == [])
    ensures IsCanonical(Resolve(stack, c, only)) && (!only ==> Resolve(stack, c, only) != ["."])
  {
    var r := Resolve(stack, c, only);
    if stack != [] {
      assert c != "." && c != ".." ==> r[1..] == stack[1..] + [c];
      assert c == ".." && |stack| > 1 ==> r[1..] == stack[1..][..|stack| - 2];
    }
  }

  lemma {:induction false} ResolveAllCanonical(stack: seq<string>, cs: seq<string>, only: bool)
    requires IsCanonical(stack) && stack != ["."] && (only ==> stack == [] && |cs| <= 1)
    requires AreNames(cs)
    ensures IsCanonical(ResolveAll(stack, cs, only))
    decreases |cs|
  {
    if cs != [] {
      assert IsName(cs[0]);
      ResolveCanonical(stack, cs[0], only);
      if cs[1..] != [] {
        ResolveAllCanonical(Resolve(stack, cs[0], only), cs[1..], only);
      }
    }
  }

  lemma CanonicalShape(cs: seq<string>)
    requires AreComponents(cs)
    ensures IsCanonical(CanonicalComponents(cs))
  {
    if cs != [] && cs[0] == "" {
      var root := [""];
      assert Resolve([], "", |cs| == 1) == root;
      if |cs| > 1 {
        ResolveAllCanonical(root, cs[1..], false);
      } else {
        assert cs[1..] == [] && ArePlain(root[1..]);
        assert ResolveAll([], cs, true) == ResolveAll(root, cs[1..], true) == root;
      }
    } else {
      ResolveAllCanonical([], cs, |cs| == 1);
    }
  }

  lemma CanonicalIsFixed(cs: seq<string>)
    requires IsCanonical(cs)
    ensures CanonicalComponents(cs) == cs && AreComponents(cs)
  {
    var only := |cs| == 1;
    DotsAreNames();
    if ArePlain(cs) {
      PlainIsPushed([], cs, only);
    } else {
      assert cs == [cs[0]] + cs[1..];
      assert Resolve([], cs[0], only) == [cs[0]];
      if cs != ["."] {
        PlainIsPushed([cs[0]], cs[1..], only);
        assert forall i | 0 < i < |cs| :: cs[i] == cs[1..][i - 1];
        assert [cs[0]] + cs[1..] == cs;
        assert AreNames(cs[1..]);
      } else {
        assert cs[1..] == [];
        assert ResolveAll([], cs, true) == ResolveAll(cs, cs[1..], true) == cs;
      }
    }
  }

  lemma DotsAreNames()
    ensures IsName(".") && IsName("..")
  {}

  /** `Canonicalize` is idempotent, on every path. */
  lemma CanonicalizeIdempotent(path: string)
    ensures Canonical(Canonical(path)) == Canonical(path)
  {
    var cs := CanonicalComponents(Split(path));
    SplitIsComponents(path);
    CanonicalShape(Split(path));
    CanonicalIsFixed(cs);
    SplitOfJoin(cs);
  }

  // ---- relative paths ----

  function CommonPrefix(a: seq<string>, b: seq<string>): (n: nat)
    ensures n <= |a| && n <= |b| && a[..n] == b[..n]
    ensures n < |a| && n < |b| ==> a[n] != b[n]
  {
    if a == [] || b == [] || a[0] != b[0] then 0
    else
      var n := CommonPrefix(a[1..], b[1..]) + 1;
      assert a[..n] == [a[0]] + a[1..][..n - 1] && b[..n] == [b[0]] + b[1..][..n - 1];
      n
  }

  function RelativeComponents(path: string, base: string): seq<string> {
    var p, b := Split(path), Split(base);
    var same := CommonPrefix(p, b);
    if IsAbsolute(path) && IsAbsolute(base) && same > 0 then Ups(|b| - same) + p[same..] else p
  }

  function Relative(path: string, base: string): string {
    Join(RelativeComponents(path, base))
  }

  lemma RelativeIsNames(path: string, base: string)
    requires IsAbsolute(path) && IsAbsolute(base)
    ensures CommonPrefix(Split(path), Split(base)) >= 1
    ensures AreNames(RelativeComponents(path, base))
  {
    var p, b := Split(path), Split(base);
    NamesAreNames(path);
    assert p[0] == "" && b[0] == "";
    var same := CommonPrefix(p, b);
    SuffixAreNames(Names(path), p, same);
    DotsAreNames();
  }

  lemma SuffixAreNames(names: seq<string>, cs: seq<string>, same: nat)
    requires cs == [""] + names && 1 <= same <= |cs| && AreNames(names)
    ensures AreNames(cs[same..])
  {
    assert forall i | same <= i < |cs| :: cs[i] == names[i - 1];
  }

  /** Whether the only component is "." does not matter behind the root. */
  lemma {:induction false} OnlyBehindRoot(names: seq<string>)
    ensures CanonicalComponents([""] + names) == ResolveAll([""], names, false)
  {
    var cs := [""] + names;
    assert cs[1..] == names;
    assert Resolve([], "", |cs| == 1) == [""];
    if names == [] {
      assert ResolveAll([""], names, true) == ResolveAll([""], names, false);
    }
  }

  /** Going up from the base and down again leads to the path: the round trip, for absolute
      paths where the base is plain behind what the two have in common. */
  lemma RelativeRoundTrip(path: string, base: string)
    requires IsAbsolute(path) && IsAbsolute(base)
    requires ArePlain(Split(base)[CommonPrefix(Split(path), Split(base))..])
    ensures Canonical(Combined(base, Relative(path, base))) == Canonical(path)
  {
    var p, b := Split(path), Split(base);
    var same := CommonPrefix(p, b);
    var rel := RelativeComponents(path, base);
    RelativeIsNames(path, base);
    CombinedWithJoined(base, rel);
    UpAndDown(p, b, same);
    if b + rel == [""] {
      RootIsEmpty();
    }
  }

  lemma CombinedWithJoined(base: string, rel: seq<string>)
    requires IsAbsolute(base) && AreNames(rel)
    ensures Split(Combined(base, Join(rel))) == if Split(base) + rel == [""] then [] else Split(base) + rel
  {
    NamesOfJoin(rel);
    SplitOfCombined(base, Join(rel));
  }

  lemma RootIsEmpty()
    ensures Join(CanonicalComponents([""])) == Join(CanonicalComponents([])) == ""
  {
    OnlyBehindRoot([]);
    assert [""] + [] == [""];
  }

  lemma DownAndUp(st: seq<string>, down: seq<string>, rest: seq<string>)
    requires ArePlain(down)
    ensures ResolveAll(st, down + (Ups(|down|) + rest), false) == ResolveAll(st, rest, false)
  {
    var up := Ups(|down|);
    calc {
      ResolveAll(st, down + (up + rest), false);
      { ResolveJoin(st, down, up + rest, false); PlainIsPushed(st, down, false); }
      ResolveAll(st + down, up + rest, false);
      { ResolveJoin(st + down, up, rest, false); UpsPop(st, down, false); }
      ResolveAll(st, rest, false);
    }
  }

  lemma BehindCommon(common: seq<string>, more: seq<string>)
    ensures CanonicalComponents([""] + (common + more)) == ResolveAll(ResolveAll([""], common, false), more, false)
  {
    OnlyBehindRoot(common + more);
    ResolveJoin([""], common, more, false);
  }

  lemma Cut<X>(a: seq<X>, n: nat, more: seq<X>)
    requires 1 <= n <= |a|
    ensures a + more == [a[0]] + (a[1..n] + (a[n..] + more))
  {}

  lemma UpAndDown(p: seq<string>, b: seq<string>, same: nat)
    requires 1 <= same <= |p| && same <= |b| && p[..same] == b[..same] && p[0] == ""
    requires ArePlain(b[same..])
    ensures CanonicalComponents(b + (Ups(|b| - same) + p[same..])) == CanonicalComponents(p)
  {
    var common, down, rest := p[1..same], b[same..], p[same..];
    var detour := Ups(|down|) + rest;
    assert b[1..same] == b[..same][1..] == p[..same][1..] == common && b[0] == b[..same][0] == p[..same][0];
    calc {
      CanonicalComponents(b + detour);
      { Cut(b, same, detour); }
      CanonicalComponents([""] + (common + (down + detour)));
      { BehindCommon(common, down + detour); DownAndUp(ResolveAll([""], common, false), down, rest); }
      ResolveAll(ResolveAll([""], common, false), rest, false);
      { BehindCommon(common, rest); }
      CanonicalComponents([""] + (common + rest));
      { Cut(p, same, []); assert rest + [] == rest && p + [] == p; }
      CanonicalComponents(p);
    }
  }
}

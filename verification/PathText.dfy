/** Paths as text: splitting, joining and appending on a system whose separator is '/'. */
module PathText {

  /** A name between separators. */
  predicate IsName(s: string) {
    s != "" && '/' !in s
  }

  function FirstSlash(s: string): (n: nat)
    ensures n <= |s|
  {
    if s == "" || s[0] == '/' then 0 else FirstSlash(s[1..]) + 1
  }

  lemma {:induction false} FirstSlashIs(s: string)
    ensures '/' !in s[..FirstSlash(s)]
    ensures FirstSlash(s) < |s| ==> s[FirstSlash(s)] == '/'
    decreases |s|
  {
    if s != "" && s[0] != '/' {
      var n := FirstSlash(s);
      FirstSlashIs(s[1..]);
      assert s[..n] == [s[0]] + s[1..][..n - 1];
    }
  }

  /** The names of a path, in order; what stands between two separators and is empty is none. */
  function Names(s: string): seq<string>
    decreases |s|
  {
    var n := FirstSlash(s);
    (if n > 0 then [s[..n]] else []) + (if n < |s| then Names(s[n + 1..]) else [])
  }

  predicate IsAbsolute(s: string) {
    s != "" && s[0] == '/'
  }

  /** An absolute path has an empty component in front, which keeps its first separator when
      the components are joined again. */
  function Split(s: string): seq<string> {
    if IsAbsolute(s) then [""] + Names(s) else Names(s)
  }

  function Join(cs: seq<string>): string {
    if cs == [] then "" else if |cs| == 1 then cs[0]
    else Join(cs[..|cs| - 1]) + "/" + cs[|cs| - 1]
  }

  // ---- names ----

  lemma {:induction false} FirstSlashOf(a: string, b: string)
    requires '/' !in a
    ensures FirstSlash(a + "/" + b) == |a|
    decreases |a|
  {
    if a != "" {
      assert a[0] in a && (a + "/" + b)[1..] == a[1..] + "/" + b;
      FirstSlashOf(a[1..], b);
    }
  }

  /** The first name, if any, and the rest. */
  lemma NamesFront(a: string, b: string)
    requires '/' !in a
    ensures Names(a + "/" + b) == (if a == "" then [] else [a]) + Names(b)
  {
    var s := a + "/" + b;
    FirstSlashOf(a, b);
    assert s[..|a|] == a && s[|a| + 1..] == b;
  }

  lemma FirstSlashNone(a: string)
    requires '/' !in a
    ensures FirstSlash(a) == |a|
  {}

  /** A separator separates: the names of both sides, one after the other. */
  lemma {:induction false} NamesJoin(a: string, b: string)
    ensures Names(a + "/" + b) == Names(a) + Names(b)
    decreases |a|
  {
    var n := FirstSlash(a);
    FirstSlashIs(a);
    if n == |a| {
      assert a[..n] == a;
      NamesFront(a, b);
      NamesOfName(a);
    } else {
      var first, rest := a[..n], a[n + 1..];
      assert a == first + "/" + rest;
      assert a + "/" + b == first + "/" + (rest + "/" + b);
      NamesFront(first, rest);
      NamesFront(first, rest + "/" + b);
      NamesJoin(rest, b);
      NamesAssociate(if first == "" then [] else [first], Names(rest), Names(b));
    }
  }

  lemma NamesNil(a: seq<string>)
    ensures a + [] == a
  {}

  lemma NamesAssociate(a: seq<string>, b: seq<string>, c: seq<string>)
    ensures a + (b + c) == a + b + c
  {}

  lemma NamesOfName(s: string)
    requires '/' !in s
    ensures Names(s) == if s == "" then [] else [s]
  {
    FirstSlashNone(s);
    assert s[..|s|] == s;
  }

  ghost predicate AreNames(cs: seq<string>) {
    forall i | 0 <= i < |cs| :: IsName(cs[i])
  }

  lemma {:induction false} NamesAreNames(s: string)
    ensures AreNames(Names(s))
    decreases |s|
  {
    FirstSlashIs(s);
    if FirstSlash(s) < |s| {
      NamesAreNames(s[FirstSlash(s) + 1..]);
    }
  }

  /** A path that does not end in a separator has a name. */
  lemma {:induction false} EndsInName(s: string)
    requires s != "" && s[|s| - 1] != '/'
    ensures Names(s) != []
    decreases |s|
  {
    var n := FirstSlash(s);
    FirstSlashIs(s);
    if n < |s| {
      EndsInName(s[n + 1..]);
    }
  }

  // ---- splitting and joining undo each other ----

  lemma {:induction false} NamesOfJoin(cs: seq<string>)
    requires AreNames(cs)
    ensures Names(Join(cs)) == cs
    decreases |cs|
  {
    if |cs| == 1 {
      NamesOfName(cs[0]);
    } else if |cs| > 1 {
      var front, last := cs[..|cs| - 1], cs[|cs| - 1];
      assert IsName(last);
      calc {
        Names(Join(cs));
        { assert Join(cs) == Join(front) + "/" + last; }
        Names(Join(front) + "/" + last);
        { NamesJoin(Join(front), last); }
        Names(Join(front)) + Names(last);
        { NamesOfJoin(front); NamesOfName(last); }
        front + [last];
        cs;
      }
    }
  }

  lemma {:induction false} JoinStartsWithName(cs: seq<string>)
    requires AreNames(cs) && cs != []
    ensures Join(cs) != "" && !IsAbsolute(Join(cs))
    decreases |cs|
  {
    assert cs[0][0] in cs[0];
    if |cs| > 1 {
      JoinStartsWithName(cs[..|cs| - 1]);
    }
  }

  lemma {:induction false} JoinAfterRoot(cs: seq<string>)
    requires cs != []
    ensures Join([""] + cs) == "/" + Join(cs)
    decreases |cs|
  {
    var whole := [""] + cs;
    var front, last := whole[..|whole| - 1], whole[|whole| - 1];
    if |cs| == 1 {
      assert front == [""];
    } else {
      assert front == [""] + cs[..|cs| - 1];
      JoinAfterRoot(cs[..|cs| - 1]);
    }
  }

  /** The components of a path: names, with an empty one in front if it is absolute. */
  ghost predicate AreComponents(cs: seq<string>) {
    if cs != [] && cs[0] == "" then AreNames(cs[1..]) else AreNames(cs)
  }

  lemma SplitIsComponents(s: string)
    ensures AreComponents(Split(s))
    ensures IsAbsolute(s) <==> Split(s) != [] && Split(s)[0] == ""
  {
    NamesAreNames(s);
    assert Split(s) == [""] + Names(s) || Split(s) == Names(s);
    if !IsAbsolute(s) && Names(s) != [] {
      assert IsName(Names(s)[0]);
    }
    assert ([""] + Names(s))[1..] == Names(s);
  }

  lemma SplitOfJoinedNames(cs: seq<string>)
    requires AreNames(cs)
    ensures Split(Join(cs)) == cs
  {
    NamesOfJoin(cs);
    if cs != [] {
      JoinStartsWithName(cs);
    }
  }

  lemma {:induction false} SplitOfJoinedRoot(names: seq<string>)
    requires AreNames(names)
    ensures Split(Join([""] + names)) == if names == [] then [] else [""] + names
  {
    if names != [] {
      var rest := Join(names);
      JoinAfterRoot(names);
      NamesOfJoin(names);
      NamesFront("", rest);
      assert "" + "/" + rest == "/" + rest;
      NamesAssociate([], [], names);
    }
  }

  /** Splitting what was joined gives the components back, with one exception: the root alone
      joins to the empty string. */
  lemma SplitOfJoin(cs: seq<string>)
    requires AreComponents(cs)
    ensures Split(Join(cs)) == if cs == [""] then [] else cs
  {
    if cs != [] && cs[0] == "" {
      assert cs == [""] + cs[1..];
      SplitOfJoinedRoot(cs[1..]);
    } else {
      SplitOfJoinedNames(cs);
    }
  }

  // ---- appending ----

  /** `PathAppendString`: runs of separators become one, also across the seam. */
  function Collapse(s: string, afterSlash: bool): string {
    if s == "" then ""
    else if s[0] == '/' then (if afterSlash then "" else "/") + Collapse(s[1..], true)
    else [s[0]] + Collapse(s[1..], false)
  }

  lemma {:induction false} CollapseName(a: string, s: string, afterSlash: bool)
    requires '/' !in a && a != ""
    ensures Collapse(a + s, afterSlash) == a + Collapse(s, false)
    decreases |a|
  {
    assert (a + s)[0] == a[0] && a[0] in a && (a + s)[1..] == a[1..] + s;
    if |a| == 1 {
      assert a[1..] + s == s;
    } else {
      CollapseName(a[1..], s, false);
      assert [a[0]] + (a[1..] + Collapse(s, false)) == a + Collapse(s, false);
    }
  }

  lemma {:induction false} NamesOfCollapse(s: string, afterSlash: bool)
    ensures Names(Collapse(s, afterSlash)) == Names(s)
    decreases |s|
  {
    var n := FirstSlash(s);
    FirstSlashIs(s);
    if n == |s| {
      assert s[..n] == s;
      if s != "" {
        CollapseName(s, "", afterSlash);
        assert s + "" == s;
      }
    } else {
      var a, rest := s[..n], s[n + 1..];
      assert s == a + "/" + rest;
      NamesOfCollapse(rest, true);
      NamesFront(a, rest);
      CollapseFront(a, rest, afterSlash);
      NamesFront(a, Collapse(rest, true));
    }
  }

  lemma CollapseFront(a: string, rest: string, afterSlash: bool)
    requires '/' !in a
    ensures Collapse(a + "/" + rest, afterSlash)
            == if a == "" && afterSlash then Collapse(rest, true) else a + "/" + Collapse(rest, true)
  {
    var tail := "/" + rest;
    assert tail[1..] == rest;
    assert a + "/" + rest == a + tail;
    if a == "" {
      assert a + tail == tail;
      assert a + "/" + Collapse(rest, true) == "/" + Collapse(rest, true);
    } else {
      CollapseName(a, tail, afterSlash);
      assert a + ("/" + Collapse(rest, true)) == a + "/" + Collapse(rest, true);
    }
  }

  /** The loops that drop separators at the end. */
  function Strip(s: string): (r: string)
    ensures r == "" || r[|r| - 1] != '/'
    ensures r <= s
  {
    if s != "" && s[|s| - 1] == '/' then Strip(s[..|s| - 1]) else s
  }

  lemma {:induction false} NamesOfStrip(s: string)
    ensures Names(Strip(s)) == Names(s)
    decreases |s|
  {
    if s != "" && s[|s| - 1] == '/' {
      var front := s[..|s| - 1];
      calc {
        Names(Strip(s));
        { NamesOfStrip(front); }
        Names(front);
        { NamesOfName(""); NamesNil(Names(front)); }
        Names(front) + Names("");
        { NamesJoin(front, ""); }
        Names(front + "/" + "");
        { assert s == front + "/" + ""; }
        Names(s);
      }
    }
  }

  function Combined(base: string, next: string): string {
    Strip(Strip(Collapse(base, false)) + "/" + Collapse(next, true))
  }

  /** Combining puts the names one after the other. An absolute base stays in front; an empty
      one makes the result absolute as well. */
  lemma NamesOfCombined(base: string, next: string)
    ensures Names(Combined(base, next)) == Names(base) + Names(next)
    ensures IsAbsolute(base) || Names(base) == [] ==>
              IsAbsolute(Combined(base, next)) || Combined(base, next) == ""
  {
    var front, tail := Strip(Collapse(base, false)), Collapse(next, true);
    NamesOfStrip(front + "/" + tail);
    NamesJoin(front, tail);
    NamesOfStrip(Collapse(base, false));
    NamesOfCollapse(base, false);
    NamesOfCollapse(next, true);
    if Names(base) == [] && front != "" {
      EndsInName(front);
    }
    if front != "" {
      assert front[0] == Collapse(base, false)[0];
    }
  }

  lemma SplitOfCombined(base: string, next: string)
    requires IsAbsolute(base)
    ensures Split(Combined(base, next))
            == if Names(base) + Names(next) == [] then [] else Split(base) + Names(next)
  {
    NamesOfCombined(base, next);
    var c := Combined(base, next);
    if c == "" {
      NamesOfName("");
    } else {
      EndsInName(c);
      NamesAssociate([""], Names(base), Names(next));
    }
  }
}

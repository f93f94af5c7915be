/** The path functions as they are written: loops over characters and components. */
module Path {
  import opened PathText
  import opened PathAlgebra

  method PathAppendString(start: string, src: string) returns (dst: string)
    ensures dst == start + Collapse(src, start != "" && start[|start| - 1] == '/')
  {
    dst := start;
    var lastSeparator := dst != "" && dst[|dst| - 1] == '/';
    ghost var goal := start + Collapse(src, lastSeparator);
    var index := 0;
    while index < |src|
      invariant 0 <= index <= |src| && dst + Collapse(src[index..], lastSeparator) == goal
    {
      var ch := src[index];
      assert src[index..][1..] == src[index + 1..];
      ghost var rest := src[index + 1..];
      index := index + 1;
      if ch == '/' {
        if lastSeparator {
          continue;
        }
        lastSeparator := true;
        assert dst + ("/" + Collapse(rest, true)) == (dst + "/") + Collapse(rest, true);
        dst := dst + "/";
      } else {
        lastSeparator := false;
        assert dst + ([ch] + Collapse(rest, false)) == (dst + [ch]) + Collapse(rest, false);
        dst := dst + [ch];
      }
    }
  }

  /** What the loop of `SplitNativePath` still adds from a given state on. */
  function PartsFrom(path: string, start: nat, pos: nat): seq<string>
    requires start <= pos <= |path|
    decreases |path| - pos
  {
    if pos == |path| then if start != pos then [path[start..]] else []
    else if path[pos] != '/' then PartsFrom(path, start, pos + 1)
    else (if pos != start || pos == 0 then [path[start..pos]] else []) + PartsFrom(path, pos + 1, pos + 1)
  }

  method SplitNativePath(path: string) returns (parts: seq<string>)
    ensures parts == Split(path)
  {
    parts := [];
    var start: nat, pos: nat := 0, 0;
    ghost var all := PartsFrom(path, 0, 0);
    while pos < |path|
      invariant start <= pos <= |path| && parts + PartsFrom(path, start, pos) == all
    {
      if path[pos] != '/' {
        pos := pos + 1;
        continue;
      }
      ghost var rest := PartsFrom(path, pos + 1, pos + 1);
      if pos != start || pos == 0 {
        NamesAssociate(parts, [path[start..pos]], rest);
        parts := parts + [path[start..pos]];
      } else {
        assert [] + rest == rest;
      }
      pos := pos + 1;
      start := pos;
    }
    if start != pos {
      parts := parts + [path[start..]];
    }
    PartsAreSplit(path, 0, 0);
  }

  predicate NoSlash(path: string, start: nat, end: nat) {
    forall i | start <= i < end && i < |path| :: path[i] != '/'
  }

  lemma NamesUpTo(path: string, start: nat, pos: nat)
    requires start <= pos < |path| && path[pos] == '/' && NoSlash(path, start, pos)
    ensures Names(path[start..]) == (if start < pos then [path[start..pos]] else []) + Names(path[pos + 1..])
  {
    assert path[start..] == path[start..pos] + "/" + path[pos + 1..];
    NamesFront(path[start..pos], path[pos + 1..]);
  }

  lemma {:induction false} PartsAreSplit(path: string, start: nat, pos: nat)
    requires start <= pos <= |path| && NoSlash(path, start, pos)
    ensures PartsFrom(path, start, pos) == if start == 0 then Split(path) else Names(path[start..])
    decreases |path| - pos
  {
    if pos == |path| {
      NamesOfName(path[start..]);
      assert start == 0 ==> path[start..] == path;
    } else if path[pos] != '/' {
      PartsAreSplit(path, start, pos + 1);
    } else {
      PartsAreSplit(path, pos + 1, pos + 1);
      NamesUpTo(path, start, pos);
      if start == 0 {
        FirstPart(path, pos);
      }
    }
  }

  /** The first part is empty if the path is absolute, and counts all the same. */
  lemma FirstPart(path: string, pos: nat)
    requires pos < |path| && path[pos] == '/' && NoSlash(path, 0, pos)
    ensures Split(path) == [path[0..pos]] + Names(path[pos + 1..])
  {
    NamesUpTo(path, 0, pos);
    assert path[0..] == path;
    if pos == 0 {
      assert [] + Names(path[1..]) == Names(path[1..]);
    } else {
      assert path[0] != '/';
    }
  }

  method JoinString(components: seq<string>) returns (ret: string)
    ensures ret == Join(components)
  {
    ret := "";
    for i := 0 to |components|
      invariant ret == Join(components[..i])
    {
      assert components[..i + 1][..i] == components[..i];
      if i != 0 {
        ret := ret + "/";
      }
      ret := ret + components[i];
    }
    assert components[..|components|] == components;
  }

  method Canonicalize(path: string) returns (canonical: string)
    ensures canonical == Canonical(path)
  {
    var components := SplitNativePath(path);
    var kept: seq<string> := [];
    ghost var only := |components| == 1;
    for i := 0 to |components|
      invariant ResolveAll(kept, components[i..], only) == CanonicalComponents(components)
    {
      var component := components[i];
      assert components[i..][0] == component && components[i..][1..] == components[i + 1..];
      if component == "." {
        if |components| == 1 {
          kept := kept + [component];
        }
      } else if component == ".." {
        if kept != [] {
          kept := kept[..|kept| - 1];
        } else {
          kept := kept + [component];
        }
      } else {
        kept := kept + [component];
      }
    }
    canonical := JoinString(kept);
  }

  method MakeRelative(path: string, relativeTo: string) returns (relative: string)
    ensures relative == Relative(path, relativeTo)
  {
    var pathComponents := SplitNativePath(path);
    var relativeComponents := SplitNativePath(relativeTo);
    var components: seq<string> := [];
    if IsAbsolute(path) && IsAbsolute(relativeTo) {
      var numSame := CountSame(pathComponents, relativeComponents);
      if numSame > 0 {
        components := UpAndDownAgain(|relativeComponents| - numSame, pathComponents, numSame);
      } else {
        components := pathComponents;
      }
    } else {
      components := pathComponents;
    }
    relative := JoinString(components);
  }

  /** Back up to the common components, then the remainder of the path. */
  method UpAndDownAgain(numUps: nat, pathComponents: seq<string>, numSame: nat) returns (components: seq<string>)
    requires numSame <= |pathComponents|
    ensures components == Ups(numUps) + pathComponents[numSame..]
  {
    components := [];
    for i := 0 to numUps
      invariant components == Ups(i)
    {
      components := components + [".."];
    }
    for i := numSame to |pathComponents|
      invariant components == Ups(numUps) + pathComponents[numSame..i]
    {
      assert pathComponents[numSame..i + 1] == pathComponents[numSame..i] + [pathComponents[i]];
      components := components + [pathComponents[i]];
    }
    assert pathComponents[numSame..|pathComponents|] == pathComponents[numSame..];
  }

  method CountSame(a: seq<string>, b: seq<string>) returns (same: nat)
    ensures same == CommonPrefix(a, b)
  {
    same := 0;
    while same < |a| && same < |b| && a[same] == b[same]
      invariant same <= |a| && same <= |b| && same + CommonPrefix(a[same..], b[same..]) == CommonPrefix(a, b)
    {
      assert a[same..][1..] == a[same + 1..] && b[same..][1..] == b[same + 1..];
      same := same + 1;
    }
  }

  method DropSeparators(s: string) returns (ret: string)
    ensures ret == Strip(s)
  {
    ret := s;
    while ret != "" && ret[|ret| - 1] == '/'
      invariant Strip(ret) == Strip(s)
      decreases |ret|
    {
      ret := ret[..|ret| - 1];
    }
  }

  method Combine(base: string, next: string) returns (ret: string)
    ensures ret == Combined(base, next)
  {
    ret := PathAppendString("", base);
    assert "" + Collapse(base, false) == Collapse(base, false);
    ret := DropSeparators(ret);
    ret := ret + "/";
    ret := PathAppendString(ret, next);
    ret := DropSeparators(ret);
  }
}

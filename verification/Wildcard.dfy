/** `WildcardMatch`: '*' stands for any run of characters, '?' for any one. */
module Wildcard {

  /** How a branch of the function compares a mask character with a subject one. */
  type Same = f: (char, char) -> bool | forall c: char :: c != '\0' ==> !f('\0', c)
    witness (a, b) => a == b

  /** A C string without its terminator. */
  predicate IsText(s: string) {
    forall c | c in s :: c != '\0'
  }

  /** The relation the function decides. */
  predicate Matches(mask: string, subject: string, same: Same)
    decreases |mask| + |subject|
  {
    if mask == [] then subject == []
    else if mask[0] == '*' then
      Matches(mask[1..], subject, same) || (subject != [] && Matches(mask, subject[1..], same))
    else
      subject != [] && Fits(mask[0], subject[0], same) && Matches(mask[1..], subject[1..], same)
  }

  predicate Fits(m: char, c: char, same: Same) {
    m == '?' || same(m, c)
  }

  /** What the first '*' of a mask stands for: `k` characters of the subject. */
  lemma {:induction false} StarTakesSome(mask: string, subject: string, same: Same)
    requires mask != [] && mask[0] == '*'
    ensures Matches(mask, subject, same)
            <==> exists k :: 0 <= k <= |subject| && Matches(mask[1..], subject[k..], same)
    decreases |subject|
  {
    assert subject[0..] == subject;
    if subject != [] {
      StarTakesSome(mask, subject[1..], same);
      forall k | 0 <= k <= |subject[1..]|
        ensures subject[1..][k..] == subject[k + 1..]
      {}
      if k :| 0 <= k <= |subject| && Matches(mask[1..], subject[k..], same) {
        if k > 0 {
          assert subject[1..][k - 1..] == subject[k..];
        }
      }
      if Matches(mask, subject[1..], same) {
        var k :| 0 <= k <= |subject[1..]| && Matches(mask[1..], subject[1..][k..], same);
        assert Matches(mask[1..], subject[k + 1..], same);
      }
    }
  }

  /** A mask that begins with '*' matches whatever it matches a later part of. */
  lemma {:induction false} StarAbsorbs(mask: string, subject: string, k: nat, same: Same)
    requires mask != [] && mask[0] == '*' && k <= |subject|
    requires Matches(mask, subject[k..], same)
    ensures Matches(mask, subject, same)
    decreases k
  {
    if k == 0 {
      assert subject[0..] == subject;
    } else {
      assert subject[1..][k - 1..] == subject[k..];
      StarAbsorbs(mask, subject[1..], k - 1, same);
    }
  }

  /** The first `n` characters of the mask are not stars and fit those of the subject. */
  predicate FitsPrefix(mask: string, subject: string, n: nat, same: Same) {
    n <= |mask| && n <= |subject| && forall i | 0 <= i < n :: mask[i] != '*' && Fits(mask[i], subject[i], same)
  }

  lemma {:induction false} PrefixPeels(mask: string, subject: string, n: nat, same: Same)
    requires FitsPrefix(mask, subject, n, same)
    ensures Matches(mask, subject, same) <==> Matches(mask[n..], subject[n..], same)
    decreases n
  {
    if n == 0 {
      assert mask[0..] == mask && subject[0..] == subject;
    } else {
      assert mask[1..][n - 1..] == mask[n..] && subject[1..][n - 1..] == subject[n..];
      assert FitsPrefix(mask[1..], subject[1..], n - 1, same);
      PrefixPeels(mask[1..], subject[1..], n - 1, same);
    }
  }

  /** A mask without stars up to `n` can match only a subject that fits it there. */
  lemma {:induction false} MatchFitsPrefix(mask: string, subject: string, n: nat, same: Same)
    requires n <= |mask| && (forall i | 0 <= i < n :: mask[i] != '*')
    requires Matches(mask, subject, same)
    ensures FitsPrefix(mask, subject, n, same)
    decreases n
  {
    if n > 0 {
      MatchFitsPrefix(mask[1..], subject[1..], n - 1, same);
      forall i | 0 <= i < n
        ensures Fits(mask[i], subject[i], same)
      {
        if i > 0 {
          assert mask[i] == mask[1..][i - 1] && subject[i] == subject[1..][i - 1];
        }
      }
    }
  }

  /** Why one backtrack point is enough. Between two stars the mask is `n` characters
      long; if they fit at `at`, any match of the mask from there on or later gives one
      in which the second star begins right behind `at + n`. */
  lemma FirstFitIsEnough(mask: string, subject: string, at: nat, later: nat, n: nat, same: Same)
    requires at <= later <= |subject| && n < |mask| && mask[n] == '*'
    requires FitsPrefix(mask, subject[at..], n, same)
    requires Matches(mask, subject[later..], same)
    ensures at + n <= |subject| && Matches(mask[n..], subject[at + n..], same)
  {
    MatchFitsPrefix(mask, subject[later..], n, same);
    PrefixPeels(mask, subject[later..], n, same);
    assert subject[later..][n..] == subject[later + n..];
    assert subject[at + n..][later - at..] == subject[later + n..];
    StarAbsorbs(mask[n..], subject[at + n..], later - at, same);
  }

  lemma {:induction false} StarsMatchNothing(mask: string, n: nat, same: Same)
    requires n <= |mask| && (forall i | 0 <= i < n :: mask[i] == '*')
    ensures Matches(mask, [], same) <==> Matches(mask[n..], [], same)
    decreases n
  {
    if n == 0 {
      assert mask[0..] == mask;
    } else {
      StarsMatchNothing(mask[1..], n - 1, same);
      assert mask[1..][n - 1..] == mask[n..];
    }
  }

  lemma {:induction false} LoneStarMatches(subject: string, same: Same)
    ensures Matches("*", subject, same)
    decreases |subject|
  {
    if subject != [] {
      LoneStarMatches(subject[1..], same);
    } else {
      assert "*"[1..] == [];
    }
  }

  /** The character a pointer sees: the terminator behind the last one. */
  function At(s: string, i: nat): (c: char)
    requires IsText(s)
    ensures c == '\0' <==> i >= |s|
  {
    if i < |s| then assert s[i] in s; s[i] else '\0'
  }

  /** What is still possible once the loop has met a star: the last one, right before
      `mp`, takes some run and the rest of the mask matches from `cp - 1` or later. */
  ghost predicate Rest(mask: string, subject: string, mp: nat, cp: nat, same: Same)
    requires 1 <= mp <= |mask| && 1 <= cp <= |subject| + 1
  {
    Matches(mask[mp - 1..], subject[cp - 1..], same)
  }

  // ---- the function ----

  predicate Exact(m: char, c: char) {
    m == c
  }

  /** `tolower` of the "C" locale. */
  function Lower(c: char): char {
    if 'A' <= c <= 'Z' then (c as int + 32) as char else c
  }

  predicate Folded(m: char, c: char) {
    Lower(m) == Lower(c)
  }

  /** What each value of the flag compares with: the one called case sensitive folds case. */
  function Comparison(case_sensitive: bool): Same {
    if case_sensitive then Folded else Exact
  }

  method WildcardMatch(subject: string, mask: string, case_sensitive: bool) returns (result: bool)
    requires IsText(subject) && IsText(mask)
    ensures result <==> Matches(mask, subject, Comparison(case_sensitive))
  {
    if case_sensitive {
      result := MatchBy(subject, mask, Folded);
    } else {
      result := MatchBy(subject, mask, Exact);
    }
  }

  /** Setting the flag called case sensitive never loses a match: it is the looser branch. */
  lemma {:induction false} FlagLoosens(mask: string, subject: string)
    ensures Matches(mask, subject, Comparison(false)) ==> Matches(mask, subject, Comparison(true))
    decreases |mask| + |subject|
  {
    if mask != [] {
      FlagLoosens(mask[1..], subject);
      if subject != [] {
        FlagLoosens(mask, subject[1..]);
        FlagLoosens(mask[1..], subject[1..]);
      }
    }
  }

  /** A letter and its other case match exactly when the flag is set. */
  lemma FlagIsReversed(c: char, case_sensitive: bool)
    requires 'A' <= c <= 'Z'
    ensures Matches([c], [Lower(c)], Comparison(case_sensitive)) <==> case_sensitive
  {
    assert [c][1..] == [] && [Lower(c)][1..] == [];
    assert Matches([], [], Comparison(case_sensitive));
  }

  /** One branch of the function, on positions instead of pointers. */
  method MatchBy(subject: string, mask: string, same: Same) returns (result: bool)
    requires IsText(subject) && IsText(mask)
    ensures result <==> Matches(mask, subject, same)
  {
    var s, m := 0, 0;
    while At(subject, s) != '\0' && At(mask, m) != '*'
      invariant s <= |subject| && m == s && FitsPrefix(mask, subject, m, same)
      decreases |subject| - s
    {
      if At(mask, m) != '?' && !same(At(mask, m), At(subject, s)) {
        NoFirstFit(mask, subject, m, same);
        return false;
      }
      m, s := m + 1, s + 1;
    }
    PrefixPeels(mask, subject, m, same);
    if s == |subject| {
      result := OnlyStars(mask, m, same);
      return;
    }
    result := BacktrackingLoop(subject, mask, s, m, same);
  }

  lemma NoFirstFit(mask: string, subject: string, m: nat, same: Same)
    requires m < |subject| && FitsPrefix(mask, subject, m, same)
    requires m < |mask| ==> mask[m] != '*' && !Fits(mask[m], subject[m], same)
    ensures !Matches(mask, subject, same)
  {
    PrefixPeels(mask, subject, m, same);
    if m < |mask| {
      assert mask[m..][0] == mask[m] && subject[m..][0] == subject[m];
    } else {
      assert mask[m..] == [];
    }
  }

  /** The last loop: the subject is used up. */
  method OnlyStars(mask: string, start: nat, same: Same) returns (result: bool)
    requires IsText(mask) && start <= |mask|
    ensures result <==> Matches(mask[start..], [], same)
  {
    var m := start;
    while At(mask, m) == '*'
      invariant start <= m <= |mask| && forall i | start <= i < m :: mask[i] == '*'
      decreases |mask| - m
    {
      m := m + 1;
    }
    StarsMatchNothing(mask[start..], m - start, same);
    assert mask[start..][m - start..] == mask[m..];
    result := At(mask, m) == '\0';
  }

  /** `FitsPrefix` of what is left of both strings, by positions in them. */
  predicate FitsAlong(mask: string, subject: string, mp: nat, from: nat, n: nat, same: Same)
    requires mp + n <= |mask| && from + n <= |subject|
    decreases n
  {
    n == 0 || (var m, s := mp + n - 1, from + n - 1;
               FitsAlong(mask, subject, mp, from, n - 1, same) && mask[m] != '*' && Fits(mask[m], subject[s], same))
  }

  lemma {:induction false} FitsAlongIs(mask: string, subject: string, mp: nat, from: nat, n: nat, same: Same)
    requires mp + n <= |mask| && from + n <= |subject|
    ensures FitsAlong(mask, subject, mp, from, n, same) <==> FitsPrefix(mask[mp..], subject[from..], n, same)
    decreases n
  {
    if n > 0 {
      FitsAlongIs(mask, subject, mp, from, n - 1, same);
      assert mask[mp..][n - 1] == mask[mp + n - 1] && subject[from..][n - 1] == subject[from + n - 1];
    }
  }

  /** What the second loop keeps: the stretch of mask from `mp` to `m` fits the subject from
      `cp - 1` to `s`, and the answer is still the one sought. */
  ghost predicate Stretch(mask: string, subject: string, s: nat, m: nat, mp: nat, cp: nat, goal: bool, same: Same) {
    && 1 <= mp <= m <= |mask| && mask[mp - 1] == '*'
    && 1 <= cp && s <= |subject| && s == cp - 1 + (m - mp)
    && FitsAlong(mask, subject, mp, cp - 1, m - mp, same)
    && goal == Rest(mask, subject, mp, cp, same)
  }

  /** The second loop, entered at a star; `mp` and `cp` are the one backtrack point. */
  method BacktrackingLoop(subject: string, mask: string, start: nat, star: nat, same: Same) returns (result: bool)
    requires IsText(subject) && IsText(mask)
    requires start < |subject| && star < |mask| && mask[star] == '*'
    ensures result <==> Matches(mask[star..], subject[start..], same)
  {
    ghost var goal := Matches(mask[star..], subject[start..], same);
    if At(mask, star + 1) == '\0' {
      LoneStar(mask, subject, star, start, same);
      return true;
    }
    StretchBegins(mask, subject, start, star + 1, start + 1, goal, same);
    result := LoopBehindStar(subject, mask, start, star + 1, goal, same);
  }

  method LoopBehindStar(subject: string, mask: string, start: nat, first: nat, ghost goal: bool, same: Same)
    returns (result: bool)
    requires IsText(subject) && IsText(mask)
    requires Stretch(mask, subject, start, first, first, start + 1, goal, same)
    ensures result == goal
  {
    var s: nat, m: nat, mp: nat, cp: nat := start, first, first, start + 1;
    while At(subject, s) != '\0'
      invariant Stretch(mask, subject, s, m, mp, cp, goal, same)
      decreases |mask| - mp, |subject| - cp, |subject| - s
    {
      if At(mask, m) == '*' {
        MeetStar(mask, subject, s, m, mp, cp, goal, same);
        m := m + 1;
        if At(mask, m) == '\0' {
          return true;
        }
        mp, cp := m, s + 1;
      } else if At(mask, m) == '?' || same(At(mask, m), At(subject, s)) {
        Advance(mask, subject, s, m, mp, cp, goal, same);
        m, s := m + 1, s + 1;
      } else {
        StepBack(mask, subject, s, m, mp, cp, goal, same);
        m, s := mp, cp;
        cp := cp + 1;
      }
    }
    result := SubjectUsedUp(subject, mask, s, m, mp, cp, goal, same);
  }

  method SubjectUsedUp(subject: string, mask: string, ghost s: nat, m: nat, ghost mp: nat, ghost cp: nat,
                       ghost goal: bool,
                       same: Same)
    returns (result: bool)
    requires IsText(mask) && s == |subject| && Stretch(mask, subject, s, m, mp, cp, goal, same)
    ensures result == goal
  {
    FitsAlongIs(mask, subject, mp, cp - 1, m - mp, same);
    Exhausted(mask, subject, mp, cp, m - mp, same);
    result := OnlyStars(mask, m, same);
  }

  lemma StretchBegins(mask: string, subject: string, s: nat, m: nat, cp: nat, goal: bool, same: Same)
    requires 1 <= m <= |mask| && mask[m - 1] == '*' && s < |subject| && cp == s + 1
    requires goal == Matches(mask[m - 1..], subject[s..], same)
    ensures Stretch(mask, subject, s, m, m, cp, goal, same)
  {}

  lemma LoneStar(mask: string, subject: string, star: nat, start: nat, same: Same)
    requires star + 1 == |mask| && mask[star] == '*' && start <= |subject|
    ensures Matches(mask[star..], subject[start..], same)
  {
    assert mask[star..] == "*";
    LoneStarMatches(subject[start..], same);
  }

  /** A star in the mask becomes the new backtrack point. */
  lemma MeetStar(mask: string, subject: string, s: nat, m: nat, mp: nat, cp: nat, goal: bool, same: Same)
    requires Stretch(mask, subject, s, m, mp, cp, goal, same)
    requires m < |mask| && mask[m] == '*'
    ensures Stretch(mask, subject, s, m + 1, m + 1, s + 1, goal, same)
    ensures m + 1 == |mask| ==> goal
  {
    FitsAlongIs(mask, subject, mp, cp - 1, m - mp, same);
    NextStar(mask, subject, mp, cp, m - mp, same);
    if m + 1 == |mask| {
      LoneStar(mask, subject, m, s, same);
    }
  }

  lemma Advance(mask: string, subject: string, s: nat, m: nat, mp: nat, cp: nat, goal: bool, same: Same)
    requires Stretch(mask, subject, s, m, mp, cp, goal, same)
    requires m < |mask| && s < |subject| && mask[m] != '*' && Fits(mask[m], subject[s], same)
    ensures Stretch(mask, subject, s + 1, m + 1, mp, cp, goal, same)
  {
    var n := m + 1 - mp;
    assert mp + n - 1 == m && cp - 1 + n - 1 == s;
  }

  /** A mismatch moves the start of the stretch on by one character. */
  lemma StepBack(mask: string, subject: string, s: nat, m: nat, mp: nat, cp: nat, goal: bool, same: Same)
    requires Stretch(mask, subject, s, m, mp, cp, goal, same) && s < |subject|
    requires m < |mask| ==> mask[m] != '*' && !Fits(mask[m], subject[s], same)
    ensures Stretch(mask, subject, cp, mp, mp, cp + 1, goal, same)
  {
    FitsAlongIs(mask, subject, mp, cp - 1, m - mp, same);
    NoFitHere(mask, subject, mp, cp, m - mp, same);
  }

  /** Meeting the next star fixes the stretch before it for good. */
  lemma NextStar(mask: string, subject: string, mp: nat, cp: nat, n: nat, same: Same)
    requires 1 <= mp && mp + n < |mask| && mask[mp - 1] == '*' && mask[mp + n] == '*'
    requires 1 <= cp && cp - 1 + n <= |subject|
    requires FitsPrefix(mask[mp..], subject[cp - 1..], n, same)
    ensures Rest(mask, subject, mp, cp, same) <==> Matches(mask[mp + n..], subject[cp - 1 + n..], same)
  {
    var tail := subject[cp - 1..];
    StarTakesSome(mask[mp - 1..], tail, same);
    assert mask[mp - 1..][1..] == mask[mp..] && mask[mp..][n..] == mask[mp + n..];
    assert tail[n..] == subject[cp - 1 + n..] && tail[0..] == tail;
    if k :| 0 <= k <= |tail| && Matches(mask[mp..], tail[k..], same) {
      FirstFitIsEnough(mask[mp..], tail, 0, k, n, same);
    }
    PrefixPeels(mask[mp..], tail, n, same);
  }

  /** A mismatch in the stretch rules out only the current start. */
  lemma NoFitHere(mask: string, subject: string, mp: nat, cp: nat, n: nat, same: Same)
    requires 1 <= mp && mp + n <= |mask| && mask[mp - 1] == '*'
    requires 1 <= cp && cp - 1 + n < |subject|
    requires FitsPrefix(mask[mp..], subject[cp - 1..], n, same)
    requires mp + n < |mask| ==> mask[mp + n] != '*' && !Fits(mask[mp + n], subject[cp - 1 + n], same)
    ensures Rest(mask, subject, mp, cp, same) <==> Rest(mask, subject, mp, cp + 1, same)
  {
    var tail := subject[cp - 1..];
    NoFirstFit(mask[mp..], tail, n, same);
    assert mask[mp - 1..][1..] == mask[mp..];
    assert tail[1..] == subject[cp..];
  }

  /** With the subject used up, no later start can have room for the stretch. */
  lemma Exhausted(mask: string, subject: string, mp: nat, cp: nat, n: nat, same: Same)
    requires 1 <= mp && mp + n <= |mask| && mask[mp - 1] == '*'
    requires 1 <= cp && cp - 1 + n == |subject|
    requires FitsPrefix(mask[mp..], subject[cp - 1..], n, same)
    ensures Rest(mask, subject, mp, cp, same) <==> Matches(mask[mp + n..], [], same)
  {
    var tail := subject[cp - 1..];
    StarTakesSome(mask[mp - 1..], tail, same);
    assert mask[mp - 1..][1..] == mask[mp..] && mask[mp..][n..] == mask[mp + n..];
    assert tail[0..] == tail && tail[n..] == [];
    PrefixPeels(mask[mp..], tail, n, same);
    if k :| 0 <= k <= |tail| && Matches(mask[mp..], tail[k..], same) {
      MatchFitsPrefix(mask[mp..], tail[k..], n, same);
      assert k == 0;
    }
  }
}

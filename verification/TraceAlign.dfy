/** The strict walk of the sparse JIT trace against the dense interpreter trace, and the two
    ways the zoom has of finding a place where both agree again. */
module TraceAlign {

  /** A sample says: about to execute `pc` in the state with fingerprint `fp`. */
  datatype Sample = Sample(pc: nat, fp: nat)

  type Trace = seq<Sample>

  /** `at` places the entries `first`, `first + 1`, ... of the JIT trace, in order, on samples
      of the interpreter trace from `start` on that have the same pc. */
  ghost predicate Embeds(interp: Trace, jit: Trace, first: nat, start: nat, at: seq<nat>) {
    && (forall i | 0 <= i < |at| :: first + i < |jit| && start <= at[i] < |interp|)
    && (forall i | 0 <= i < |at| :: interp[at[i]].pc == jit[first + i].pc)
    && (forall i, j | 0 <= i < j < |at| :: at[i] < at[j])
  }

  /** Where the search for entry `i` begins. */
  function SearchFrom(start: nat, at: seq<nat>, i: nat): nat
    requires i <= |at|
  {
    if i == 0 then start else at[i - 1] + 1
  }

  ghost predicate Absent(interp: Trace, lo: nat, hi: nat, pc: nat) {
    forall j | lo <= j < hi && j < |interp| :: interp[j].pc != pc
  }

  /** The embedding that takes the first sample it can each time. */
  ghost predicate Leftmost(interp: Trace, jit: Trace, first: nat, start: nat, at: seq<nat>) {
    && Embeds(interp, jit, first, start, at)
    && (forall i {:trigger SearchFrom(start, at, i)} | 0 <= i < |at| ::
         Absent(interp, SearchFrom(start, at, i), at[i], jit[first + i].pc))
  }

  /** The first `n` entries agree in their whole fingerprint. */
  ghost predicate SameStates(interp: Trace, jit: Trace, first: nat, at: seq<nat>, n: int) {
    forall i | 0 <= i < n && i < |at| :: first + i < |jit| && at[i] < |interp| && interp[at[i]].fp == jit[first + i].fp
  }

  /** No embedding is ahead of the leftmost one. */
  lemma {:induction false} LeftmostIsEarliest(interp: Trace, jit: Trace, first: nat, start: nat, at: seq<nat>,
                                              other: seq<nat>, i: nat)
    requires Leftmost(interp, jit, first, start, at) && Embeds(interp, jit, first, start, other)
    requires i < |at| && i < |other|
    ensures at[i] <= other[i]
    decreases i
  {
    if i > 0 {
      LeftmostIsEarliest(interp, jit, first, start, at, other, i - 1);
    }
    assert Absent(interp, SearchFrom(start, at, i), at[i], jit[first + i].pc);
  }

  lemma LongerIsBehind(interp: Trace, jit: Trace, first: nat, start: nat, at: seq<nat>, other: seq<nat>)
    requires Leftmost(interp, jit, first, start, at) && Embeds(interp, jit, first, start, other)
    requires |at| < |other|
    ensures SearchFrom(start, at, |at|) <= other[|at|] < |interp| && first + |at| < |jit|
    ensures interp[other[|at|]].pc == jit[first + |at|].pc
  {
    var n := |at|;
    if n > 0 {
      LeftmostIsEarliest(interp, jit, first, start, at, other, n - 1);
    }
  }

  /** If the leftmost embedding cannot be continued, none of that length can. */
  lemma StuckMeansNone(interp: Trace, jit: Trace, first: nat, start: nat, at: seq<nat>)
    requires Leftmost(interp, jit, first, start, at) && first + |at| < |jit|
    requires Absent(interp, SearchFrom(start, at, |at|), |interp|, jit[first + |at|].pc)
    ensures !exists other :: |other| > |at| && Embeds(interp, jit, first, start, other)
  {
    forall other: seq<nat> | |other| > |at| && Embeds(interp, jit, first, start, other)
      ensures false
    {
      LongerIsBehind(interp, jit, first, start, at, other);
    }
  }

  lemma {:induction false} LeftmostIsUnique(interp: Trace, jit: Trace, first: nat, start: nat, at: seq<nat>,
                                            other: seq<nat>)
    requires Leftmost(interp, jit, first, start, at) && Leftmost(interp, jit, first, start, other)
    ensures |at| <= |other| ==> at == other[..|at|]
  {
    if |at| <= |other| {
      forall i | 0 <= i < |at|
        ensures at[i] == other[i]
      {
        LeftmostIsEarliest(interp, jit, first, start, at, other, i);
        LeftmostIsEarliest(interp, jit, first, start, other, at, i);
      }
    }
  }

  lemma LeftmostGrows(interp: Trace, jit: Trace, first: nat, start: nat, at: seq<nat>, scan: nat)
    requires Leftmost(interp, jit, first, start, at) && first + |at| < |jit|
    requires SearchFrom(start, at, |at|) <= scan < |interp| && interp[scan].pc == jit[first + |at|].pc
    requires Absent(interp, SearchFrom(start, at, |at|), scan, jit[first + |at|].pc)
    ensures Leftmost(interp, jit, first, start, at + [scan])
  {
    var longer := at + [scan];
    EmbeddingGrows(interp, jit, first, start, at, scan);
    forall i {:trigger SearchFrom(start, longer, i)} | 0 <= i < |longer|
      ensures Absent(interp, SearchFrom(start, longer, i), longer[i], jit[first + i].pc)
    {
      assert SearchFrom(start, longer, i) == SearchFrom(start, at, i);
    }
  }

  lemma EmbeddingGrows(interp: Trace, jit: Trace, first: nat, start: nat, at: seq<nat>, scan: nat)
    requires Embeds(interp, jit, first, start, at) && first + |at| < |jit|
    requires SearchFrom(start, at, |at|) <= scan < |interp| && interp[scan].pc == jit[first + |at|].pc
    ensures Embeds(interp, jit, first, start, at + [scan])
  {
    assert forall i | 0 <= i < |at| :: at[i] <= at[|at| - 1];
  }

  /** The inner loop all three walks share. */
  method FindPc(interp: Trace, from: nat, pc: nat) returns (scan: nat)
    ensures from <= scan && Absent(interp, from, scan, pc)
    ensures from <= |interp| ==> scan <= |interp|
    ensures scan < |interp| ==> interp[scan].pc == pc
  {
    scan := from;
    while scan < |interp| && interp[scan].pc != pc
      invariant from <= scan && Absent(interp, from, scan, pc)
      invariant from <= |interp| ==> scan <= |interp|
    {
      scan := scan + 1;
    }
  }

  datatype AlignResult = AlignResult(found: bool, controlFlow: bool, jitIdx: nat, interpIdx: nat, pc: nat, prevPc: nat)

  function EntryBefore(jit: Trace, startK: nat, k: nat, startPrevPc: nat): nat
    requires startK <= k <= |jit|
  {
    if k == startK then startPrevPc else jit[k - 1].pc
  }

  /** What each verdict of the strict walk says. `at` is the leftmost embedding of the entries
      it got through. */
  ghost predicate Verdict(interp: Trace, jit: Trace, startK: nat, startIi: nat, startPrevPc: nat,
                          r: AlignResult, at: seq<nat>) {
    && Leftmost(interp, jit, startK, startIi, at)
    && if !r.found then
         && startK + |at| == (if startK <= |jit| then |jit| else startK)
         && SameStates(interp, jit, startK, at, |at|)
         && r == AlignResult(false, false, 0, 0, 0, 0)
       else
         && startK <= r.jitIdx < |jit|
         && r.pc == jit[r.jitIdx].pc && r.prevPc == EntryBefore(jit, startK, r.jitIdx, startPrevPc)
         && SameStates(interp, jit, startK, at, r.jitIdx - startK)
         && if r.controlFlow then
              && startK + |at| == r.jitIdx && r.interpIdx == SearchFrom(startIi, at, |at|)
              && !exists other :: |other| > |at| && Embeds(interp, jit, startK, startIi, other)
            else
              && startK + |at| == r.jitIdx + 1 && r.interpIdx == at[|at| - 1]
              && interp[r.interpIdx].fp != jit[r.jitIdx].fp
  }

  method AlignFrom(interp: Trace, jit: Trace, startK: nat, startIi: nat, startPrevPc: nat)
    returns (r: AlignResult, ghost at: seq<nat>)
    ensures Verdict(interp, jit, startK, startIi, startPrevPc, r, at)
    ensures exists a :: Verdict(interp, jit, startK, startIi, startPrevPc, r, a)
  {
    var ii, prevPc := startIi, startPrevPc;
    var k := startK;
    at := [];
    while k < |jit|
      invariant startK <= k && k == startK + |at|
      invariant (startK <= |jit| ==> k <= |jit|) && (startK > |jit| ==> k == startK)
      invariant Leftmost(interp, jit, startK, startIi, at) && SameStates(interp, jit, startK, at, |at|)
      invariant ii == SearchFrom(startIi, at, |at|)
      invariant k <= |jit| ==> prevPc == EntryBefore(jit, startK, k, startPrevPc)
    {
      var scan := FindPc(interp, ii, jit[k].pc);
      if scan >= |interp| {
        StuckMeansNone(interp, jit, startK, startIi, at);
        r := AlignResult(true, true, k, ii, jit[k].pc, prevPc);
        assert Verdict(interp, jit, startK, startIi, startPrevPc, r, at);
        return;
      }
      LeftmostGrows(interp, jit, startK, startIi, at, scan);
      at := at + [scan];
      if interp[scan].fp != jit[k].fp {
        r := AlignResult(true, false, k, scan, jit[k].pc, prevPc);
        assert Verdict(interp, jit, startK, startIi, startPrevPc, r, at);
        return;
      }
      ii := scan + 1;
      prevPc := jit[k].pc;
      k := k + 1;
    }
    r := AlignResult(false, false, 0, 0, 0, 0);
    assert Verdict(interp, jit, startK, startIi, startPrevPc, r, at);
  }

  /** The verdict does not leave anything open: no other one fits the same traces. */
  lemma VerdictIsUnique(interp: Trace, jit: Trace, startK: nat, startIi: nat, startPrevPc: nat,
                        r: AlignResult, at: seq<nat>, r': AlignResult, at': seq<nat>)
    requires Verdict(interp, jit, startK, startIi, startPrevPc, r, at)
    requires Verdict(interp, jit, startK, startIi, startPrevPc, r', at')
    ensures r == r' && at == at'
  {
    VerdictGoesAsFarAsItCan(interp, jit, startK, startIi, startPrevPc, r, at, at');
    VerdictGoesAsFarAsItCan(interp, jit, startK, startIi, startPrevPc, r', at', at);
    LeftmostIsUnique(interp, jit, startK, startIi, at, at');
    assert at'[..|at|] == at';
  }

  /** A leftmost embedding that agrees up to its last entry is no longer than the verdict's. */
  lemma VerdictGoesAsFarAsItCan(interp: Trace, jit: Trace, startK: nat, startIi: nat, startPrevPc: nat,
                                r: AlignResult, at: seq<nat>, other: seq<nat>)
    requires Verdict(interp, jit, startK, startIi, startPrevPc, r, at)
    requires Leftmost(interp, jit, startK, startIi, other) && SameStates(interp, jit, startK, other, |other| - 1)
    ensures |other| <= |at|
  {
    if |at| < |other| {
      PrefixAgrees(interp, jit, startK, startIi, at, other);
    }
  }

  lemma PrefixAgrees(interp: Trace, jit: Trace, first: nat, start: nat, at: seq<nat>, other: seq<nat>)
    requires Leftmost(interp, jit, first, start, at) && Leftmost(interp, jit, first, start, other) && |at| < |other|
    requires SameStates(interp, jit, first, other, |other| - 1)
    ensures SameStates(interp, jit, first, at, |at|) && first + |at| < |jit|
  {
    LeftmostIsUnique(interp, jit, first, start, at, other);
    assert forall i | 0 <= i < |at| :: at[i] == other[i];
    var last := other[|at|];
  }

  /** The strict walk can report a data divergence on traces that do have an exact alignment:
      it looks only at the first sample with the right pc. This is what the resyncs are for. */
  lemma StrictWalkMissesLaterMatch(a: Sample, b: Sample, c: Sample, r: AlignResult, at: seq<nat>)
    requires a.pc == b.pc && a.fp != b.fp
    requires Verdict([a, b], [c, b], 1, 0, c.pc, r, at)
    ensures r.found && !r.controlFlow && r.jitIdx == 1
    ensures Embeds([a, b], [c, b], 1, 0, [1]) && SameStates([a, b], [c, b], 1, [1], 1)
  {
    var interp, jit := [a, b], [c, b];
    assert Embeds(interp, jit, 1, 0, [1]);
    assert at != [];
    assert Absent(interp, SearchFrom(0, at, 0), at[0], jit[1].pc);
    assert interp[0].pc == jit[1].pc;
  }

  datatype ResyncResult = ResyncResult(reconverged: bool, k: nat, ii: nat, prevPc: nat, blind: nat, ranOff: bool)

  /** Where a resync that worked leaves the walk: behind an entry that agrees exactly. */
  ghost predicate ClosedBy(interp: Trace, jit: Trace, r: ResyncResult) {
    && 1 <= r.k <= |jit| && 1 <= r.ii <= |interp|
    && interp[r.ii - 1] == jit[r.k - 1]
    && r.prevPc == jit[r.k - 1].pc
  }

  /** None of the entries agrees in its fingerprint. */
  ghost predicate AllDiffer(interp: Trace, jit: Trace, first: nat, at: seq<nat>, n: int) {
    forall i | 0 <= i < n && i < |at| :: first + i < |jit| && at[i] < |interp| && interp[at[i]].fp != jit[first + i].fp
  }

  lemma DifferGrows(interp: Trace, jit: Trace, first: nat, at: seq<nat>, scan: nat)
    requires AllDiffer(interp, jit, first, at, |at|) && first + |at| < |jit| && scan < |interp|
    ensures AllDiffer(interp, jit, first, at + [scan], |at|)
    ensures interp[scan].fp != jit[first + |at|].fp ==> AllDiffer(interp, jit, first, at + [scan], |at| + 1)
  {}

  /** `ResyncAfter` stops at the first entry behind the divergence whose leftmost sample has
      the same state again; the skipped ones are exactly those before it. */
  ghost predicate ResyncVerdict(interp: Trace, jit: Trace, first: nat, start: nat, r: ResyncResult, at: seq<nat>) {
    && Leftmost(interp, jit, first, start, at)
    && if r.reconverged then
         && !r.ranOff && ClosedBy(interp, jit, r)
         && r.blind + 1 == |at| && r.k == first + |at| && r.ii == at[|at| - 1] + 1
         && AllDiffer(interp, jit, first, at, |at| - 1)
       else
         && r.blind == |at| && AllDiffer(interp, jit, first, at, |at|)
         && (r.ranOff ==> first + |at| < |jit|
                          && !exists other :: |other| > |at| && Embeds(interp, jit, first, start, other))
         && (!r.ranOff ==> first + |at| >= |jit|)
  }

  lemma DifferPrefix(interp: Trace, jit: Trace, first: nat, start: nat, at: seq<nat>, other: seq<nat>, n: int)
    requires Leftmost(interp, jit, first, start, at) && Leftmost(interp, jit, first, start, other) && |at| <= |other|
    requires AllDiffer(interp, jit, first, other, n)
    ensures AllDiffer(interp, jit, first, at, n)
  {
    LeftmostIsUnique(interp, jit, first, start, at, other);
    forall i | 0 <= i < n && i < |at|
      ensures interp[at[i]].fp != jit[first + i].fp
    {
      assert at[i] == other[..|at|][i] == other[i];
    }
  }

  lemma VerdictDiffers(interp: Trace, jit: Trace, first: nat, start: nat, r: ResyncResult, at: seq<nat>)
    requires ResyncVerdict(interp, jit, first, start, r, at)
    ensures AllDiffer(interp, jit, first, at, |at| - 1)
  {
    if r.reconverged {
      assert AllDiffer(interp, jit, first, at, |at| - 1);
    } else {
      DifferFewer(interp, jit, first, at, |at|);
    }
  }

  lemma DifferFewer(interp: Trace, jit: Trace, first: nat, at: seq<nat>, n: int)
    requires AllDiffer(interp, jit, first, at, n)
    ensures AllDiffer(interp, jit, first, at, n - 1)
  {}

  /** A resync goes as far as any run of differing entries. */
  lemma ResyncGoesAsFarAsItCan(interp: Trace, jit: Trace, first: nat, start: nat, r: ResyncResult, at: seq<nat>,
                               other: seq<nat>)
    requires ResyncVerdict(interp, jit, first, start, r, at)
    requires Leftmost(interp, jit, first, start, other) && AllDiffer(interp, jit, first, other, |other| - 1)
    ensures |other| <= |at|
  {
    if |at| < |other| {
      DifferPrefix(interp, jit, first, start, at, other, |other| - 1);
      LongerIsBehind(interp, jit, first, start, at, other);
    }
  }

  /** The verdict of a resync is determined by the traces. */
  lemma ResyncIsUnique(interp: Trace, jit: Trace, first: nat, start: nat, r: ResyncResult, at: seq<nat>,
                       r': ResyncResult, at': seq<nat>)
    requires ResyncVerdict(interp, jit, first, start, r, at) && ResyncVerdict(interp, jit, first, start, r', at')
    ensures at == at' && r.reconverged == r'.reconverged && r.blind == r'.blind && r.ranOff == r'.ranOff
    ensures r.reconverged ==> r == r'
  {
    VerdictDiffers(interp, jit, first, start, r, at);
    VerdictDiffers(interp, jit, first, start, r', at');
    ResyncGoesAsFarAsItCan(interp, jit, first, start, r, at, at');
    ResyncGoesAsFarAsItCan(interp, jit, first, start, r', at', at);
    LeftmostIsUnique(interp, jit, first, start, at, at');
    assert at'[..|at|] == at';
    if at != [] {
      assert r.reconverged ==> interp[at[|at| - 1]].fp == jit[first + |at| - 1].fp;
      assert r'.reconverged ==> interp[at[|at| - 1]].fp == jit[first + |at| - 1].fp;
    }
  }

  method ResyncAfter(interp: Trace, jit: Trace, divK: nat, divIi: nat)
    returns (r: ResyncResult, ghost at: seq<nat>)
    ensures ResyncVerdict(interp, jit, divK + 1, divIi + 1, r, at)
    ensures var first, start := divK + 1, divIi + 1; exists a :: ResyncVerdict(interp, jit, first, start, r, a)
  {
    var ii: nat, blind: nat := divIi + 1, 0;
    var k: nat := divK + 1;
    ghost var first: nat, start: nat := k, ii;
    at := [];
    while k < |jit|
      invariant k == first + |at| && blind == |at|
      invariant Leftmost(interp, jit, first, start, at) && AllDiffer(interp, jit, first, at, |at|)
      invariant ii == SearchFrom(start, at, |at|)
    {
      var scan := FindPc(interp, ii, jit[k].pc);
      if scan >= |interp| {
        StuckMeansNone(interp, jit, first, start, at);
        return ResyncResult(false, 0, 0, 0, blind, true), at;
      }
      LeftmostGrows(interp, jit, first, start, at, scan);
      DifferGrows(interp, jit, first, at, scan);
      at := at + [scan];
      if interp[scan].fp == jit[k].fp {
        return ResyncResult(true, k + 1, scan + 1, jit[k].pc, blind, false), at;
      }
      ii := scan + 1;
      blind := blind + 1;
      k := k + 1;
    }
    r := ResyncResult(false, 0, 0, 0, blind, false);
  }

  predicate InLoop(pc: nat, lo: nat, hi: nat) {
    lo <= pc <= hi
  }

  /** `ResyncPastSelfLoop` skips the whole run of entries inside the loop and resumes behind
      the first sample that is exactly the exit. */
  ghost predicate ExitVerdict(interp: Trace, jit: Trace, divK: nat, divIi: nat, lo: nat, hi: nat, r: ResyncResult) {
    var exit := divK + r.blind;
    && !r.ranOff && (divK <= |jit| ==> exit <= |jit|)
    && (forall k | divK <= k < exit :: k < |jit| && InLoop(jit[k].pc, lo, hi))
    && (exit < |jit| ==> !InLoop(jit[exit].pc, lo, hi))
    && (r.reconverged <==> exit < |jit| && exists i :: divIi <= i < |interp| && interp[i] == jit[exit])
    && (r.reconverged ==> ClosedBy(interp, jit, r) && r.k == exit + 1 && divIi < r.ii
                          && forall i | divIi <= i < r.ii - 1 :: interp[i] != jit[exit])
  }

  method ResyncPastSelfLoop(interp: Trace, jit: Trace, divK: nat, divIi: nat, lo: nat, hi: nat)
    returns (r: ResyncResult)
    ensures ExitVerdict(interp, jit, divK, divIi, lo, hi, r)
  {
    var blind, k := 0, divK;
    while k < |jit| && InLoop(jit[k].pc, lo, hi)
      invariant k == divK + blind && (divK <= |jit| ==> k <= |jit|)
      invariant forall j | divK <= j < k :: j < |jit| && InLoop(jit[j].pc, lo, hi)
    {
      k := k + 1;
      blind := blind + 1;
    }
    if k >= |jit| {
      return ResyncResult(false, 0, 0, 0, blind, false);
    }
    var exitPc, exitFp := jit[k].pc, jit[k].fp;
    var ii := divIi;
    while ii < |interp| && !(interp[ii].pc == exitPc && interp[ii].fp == exitFp)
      invariant divIi <= ii && forall i | divIi <= i < ii && i < |interp| :: interp[i] != jit[k]
    {
      ii := ii + 1;
    }
    if ii >= |interp| {
      return ResyncResult(false, 0, 0, 0, blind, false);
    }
    assert interp[ii] == jit[k];
    r := ResyncResult(true, k + 1, ii + 1, exitPc, blind, false);
  }

  lemma ExitIsFirst(interp: Trace, jit: Trace, divK: nat, divIi: nat, lo: nat, hi: nat, r: ResyncResult,
                    r': ResyncResult)
    requires divK <= |jit|
    requires ExitVerdict(interp, jit, divK, divIi, lo, hi, r) && ExitVerdict(interp, jit, divK, divIi, lo, hi, r')
    ensures r'.blind <= r.blind
  {
    var e := divK + r.blind;
    assert e < |jit| ==> !InLoop(jit[e].pc, lo, hi);
  }

  /** The verdict on a self-loop is determined by the traces as well. */
  lemma ExitIsUnique(interp: Trace, jit: Trace, divK: nat, divIi: nat, lo: nat, hi: nat, r: ResyncResult,
                     r': ResyncResult)
    requires divK <= |jit|
    requires ExitVerdict(interp, jit, divK, divIi, lo, hi, r) && ExitVerdict(interp, jit, divK, divIi, lo, hi, r')
    ensures r.blind == r'.blind && r.reconverged == r'.reconverged && (r.reconverged ==> r == r')
  {
    var e, e' := divK + r.blind, divK + r'.blind;
    ExitIsFirst(interp, jit, divK, divIi, lo, hi, r, r');
    ExitIsFirst(interp, jit, divK, divIi, lo, hi, r', r);
    if r.reconverged {
      assert interp[r.ii - 1] == jit[e] && interp[r'.ii - 1] == jit[e];
    }
  }
}

/** The walk loop of `ZoomFromCheckpoint` over two recorded traces: strict walk, classify,
    resync, go on. What the virtual machine would be asked at a divergence is a parameter. */
module Zoom {
  import opened TraceAlign
  import opened Wrappers

  /** Answers from the machine, for the n-th divergence of the walk. `loopOf` gives the target
      of a block's backward branch (0 for none) and the branch's address; `reloads` says that
      the checkpoint loads; `benign` that the snapshots differ in cycle-derived registers only,
      for the block that was left and the entry at which the divergence was observed. */
  datatype Probes = Probes(loopOf: (nat, nat) -> (nat, nat), reloads: nat -> bool, benign: (nat, nat, nat) -> bool)

  const TIMER_CAP := 32
  const SELF_LOOP_CAP := 4096
  const INTERRUPT_CAP := 4096
  const CENSUS_CAP := 64
  const KSEG0 := 0x8000_0000

  datatype Outcome =
    | Agreed(skipped: nat)
    | PhaseOffset(k: nat)
    | WrongTarget(k: nat, at: nat)
    | TimerLost(k: nat)
    | DataDivergence(k: nat, at: nat)
    | ReloadFailed(k: nat)
  {
    /** What the function returns: whether there is something worth stopping for. */
    predicate Stops() {
      match this
      case Agreed(skipped) => skipped == 0
      case PhaseOffset(_) => false
      case _ => true
    }
  }

  /** Why an entry was skipped. */
  datatype Why =
    | SelfLoop(site: nat, pc: nat)
    | Handler(entered: nat)
    | Timer(site: nat, left: nat, entered: nat)
    | Census

  /** What became of one JIT entry: found in the interpreter trace, or skipped. */
  datatype Fate = Matched(at: nat) | Skipped(why: Why)

  function LoopEnd(branch: nat): nat {
    (branch + 4) % 0x1_0000_0000
  }

  predicate Justified(jit: Trace, probes: Probes, census: bool, k: nat, why: Why)
    requires k < |jit|
  {
    match why
    case SelfLoop(site, pc) =>
      var (target, branch) := probes.loopOf(site, pc);
      target != 0 && InLoop(jit[k].pc, target, LoopEnd(branch))
    case Handler(entered) =>
      1 <= entered <= k && (jit[entered].pc >= KSEG0 || jit[entered - 1].pc >= KSEG0)
    case Timer(site, left, entered) => probes.benign(site, left, entered)
    case Census => census
  }

  /** `fates[i]` is what became of entry `i + 1`: entry 0 is the shared checkpoint. Matched
      entries sit, in order, on samples before `ii` that equal them. */
  ghost predicate Accounted(interp: Trace, jit: Trace, probes: Probes, census: bool, fates: seq<Fate>, ii: nat) {
    && (fates != [] ==> |fates| < |jit|)
    && Exact(interp, jit, fates, ii) && InOrder(fates)
    && (forall i | 0 <= i < |fates| && fates[i].Skipped? ::
          i + 1 < |jit| && Justified(jit, probes, census, i + 1, fates[i].why))
  }

  ghost predicate Exact(interp: Trace, jit: Trace, fates: seq<Fate>, ii: nat) {
    forall i | 0 <= i < |fates| && fates[i].Matched? ::
      fates[i].at < ii && fates[i].at < |interp| && i + 1 < |jit| && interp[fates[i].at] == jit[i + 1]
  }

  ghost predicate InOrder(fates: seq<Fate>) {
    forall i, j | 0 <= i < j < |fates| && fates[i].Matched? && fates[j].Matched? :: fates[i].at < fates[j].at
  }

  /** Skipped windows are closed: nothing is skipped at the end. */
  predicate Closed(fates: seq<Fate>) {
    fates != [] ==> fates[|fates| - 1].Matched?
  }

  function Matches(at: seq<nat>): (fates: seq<Fate>) {
    seq(|at|, i requires 0 <= i < |at| => Matched(at[i]))
  }

  lemma MatchedAt(fates: seq<Fate>, at: seq<nat>, i: nat)
    requires i < |fates| + |at|
    ensures (fates + Matches(at))[i] == if i < |fates| then fates[i] else Matched(at[i - |fates|])
  {}

  lemma MatchesExact(interp: Trace, jit: Trace, fates: seq<Fate>, ii: nat, k: nat, at: seq<nat>, end: nat)
    requires Exact(interp, jit, fates, ii) && k == |fates| + 1
    requires Embeds(interp, jit, k, ii, at) && SameStates(interp, jit, k, at, |at|)
    requires ii <= end && forall i | 0 <= i < |at| :: at[i] < end
    ensures Exact(interp, jit, fates + Matches(at), end)
  {
    var all := fates + Matches(at);
    forall i | 0 <= i < |all| && all[i].Matched?
      ensures all[i].at < end && all[i].at < |interp| && i + 1 < |jit| && interp[all[i].at] == jit[i + 1]
    {
      MatchedAt(fates, at, i);
      if i >= |fates| {
        var e := i - |fates|;
        assert k + e == i + 1 && interp[at[e]].pc == jit[k + e].pc;
      }
    }
  }

  lemma MatchesInOrder(fates: seq<Fate>, ii: nat, at: seq<nat>)
    requires InOrder(fates) && forall i | 0 <= i < |fates| && fates[i].Matched? :: fates[i].at < ii
    requires (forall i | 0 <= i < |at| :: ii <= at[i]) && forall i, j | 0 <= i < j < |at| :: at[i] < at[j]
    ensures InOrder(fates + Matches(at))
  {
    var all := fates + Matches(at);
    forall i, j | 0 <= i < j < |all| && all[i].Matched? && all[j].Matched?
      ensures all[i].at < all[j].at
    {
      MatchedAt(fates, at, i);
      MatchedAt(fates, at, j);
    }
  }

  /** The strict walk adds matched entries. */
  lemma MatchesAccounted(interp: Trace, jit: Trace, probes: Probes, census: bool, fates: seq<Fate>, ii: nat,
                         k: nat, at: seq<nat>, end: nat)
    requires Accounted(interp, jit, probes, census, fates, ii) && k == |fates| + 1
    requires Embeds(interp, jit, k, ii, at) && SameStates(interp, jit, k, at, |at|)
    requires ii <= end && forall i | 0 <= i < |at| :: at[i] < end
    ensures Accounted(interp, jit, probes, census, fates + Matches(at), end)
  {
    MatchesExact(interp, jit, fates, ii, k, at, end);
    MatchesInOrder(fates, ii, at);
    var all := fates + Matches(at);
    forall i | 0 <= i < |all| && all[i].Skipped?
      ensures i < |fates| && all[i] == fates[i]
    {
      MatchedAt(fates, at, i);
    }
    if at != [] {
      assert k + (|at| - 1) < |jit| && at[|at| - 1] < |interp|;
    }
  }

  /** A window that was closed adds skipped entries and one matched one. */
  lemma WindowAccounted(interp: Trace, jit: Trace, probes: Probes, census: bool, fates: seq<Fate>, ii: nat,
                        why: Why, count: nat, close: nat)
    requires Accounted(interp, jit, probes, census, fates, ii) && ii <= close < |interp|
    requires |fates| + count + 1 < |jit| && interp[close] == jit[|fates| + count + 1]
    requires forall k | |fates| < k <= |fates| + count :: Justified(jit, probes, census, k, why)
    ensures Accounted(interp, jit, probes, census, fates + Skips(why, count) + [Matched(close)], close + 1)
  {
    var all := fates + Skips(why, count) + [Matched(close)];
    forall i | 0 <= i < |all| && all[i].Skipped?
      ensures i + 1 < |jit| && Justified(jit, probes, census, i + 1, all[i].why)
    {
      if i >= |fates| {
        assert all[i] == Skipped(why);
      }
    }
  }

  function Skips(why: Why, count: nat): seq<Fate> {
    seq(count, _ => Skipped(why))
  }

  /** A resync brings the walk forward on both traces and leaves it behind an exact match. */
  ghost predicate Resumes(interp: Trace, jit: Trace, ar: AlignResult, r: ResyncResult) {
    ClosedBy(interp, jit, r) && ar.jitIdx < r.k && ar.interpIdx < r.ii
  }

  /** The entries the strict walk got past before its divergence. */
  function Passed(ar: AlignResult, k: nat, at: seq<nat>): seq<nat>
    requires ar.found && k <= ar.jitIdx <= k + |at|
  {
    at[..ar.jitIdx - k]
  }

  lemma PassedAccounted(interp: Trace, jit: Trace, probes: Probes, census: bool, fates: seq<Fate>, ii: nat,
                        k: nat, prevPc: nat, ar: AlignResult, at: seq<nat>)
    requires Accounted(interp, jit, probes, census, fates, ii) && k == |fates| + 1
    requires Verdict(interp, jit, k, ii, prevPc, ar, at) && ar.found
    ensures k <= ar.jitIdx <= k + |at| && ii <= ar.interpIdx
    ensures Accounted(interp, jit, probes, census, fates + Matches(Passed(ar, k, at)), ar.interpIdx)
    ensures |fates + Matches(Passed(ar, k, at))| + 1 == ar.jitIdx
  {
    var passed := Passed(ar, k, at);
    assert Embeds(interp, jit, k, ii, passed);
    assert SameStates(interp, jit, k, passed, |passed|);
    MatchesAccounted(interp, jit, probes, census, fates, ii, k, passed, ar.interpIdx);
  }

  lemma {:induction false} AgreedAccounted(interp: Trace, jit: Trace, probes: Probes, census: bool, fates: seq<Fate>,
                                           ii: nat,
                        k: nat, prevPc: nat, ar: AlignResult, at: seq<nat>)
    requires Accounted(interp, jit, probes, census, fates, ii) && Closed(fates) && k == |fates| + 1
    requires Verdict(interp, jit, k, ii, prevPc, ar, at) && !ar.found && ii <= |interp|
    ensures Accounted(interp, jit, probes, census, fates + Matches(at), |interp|)
    ensures Closed(fates + Matches(at))
    ensures jit != [] ==> |fates + Matches(at)| + 1 == |jit|
  {
    MatchesAccounted(interp, jit, probes, census, fates, ii, k, at, |interp|);
  }

  method Reached(interp: Trace, pc: nat) returns (reached: bool)
    ensures reached <==> exists i :: 0 <= i < |interp| && interp[i].pc == pc
  {
    for i := 0 to |interp|
      invariant forall j | 0 <= j < i :: interp[j].pc != pc
    {
      if interp[i].pc == pc {
        return true;
      }
    }
    return false;
  }

  /** The divergence never washes out: `ResyncAfter` does not get through. */
  ghost predicate Persists(interp: Trace, jit: Trace, k: nat, ii: nat) {
    var first, start := k + 1, ii + 1;
    exists r, at :: ResyncVerdict(interp, jit, first, start, r, at) && !r.reconverged
  }

  /** `r` is what `ResyncAfter` gives at the divergence. */
  ghost predicate Resynced(interp: Trace, jit: Trace, k: nat, ii: nat, r: ResyncResult) {
    var first, start := k + 1, ii + 1;
    exists at :: ResyncVerdict(interp, jit, first, start, r, at)
  }

  /** The backward branch looked at for a divergence: of the block entered, or else of the
      one before it. */
  function LoopBranch(probes: Probes, site: nat, pc: nat, prevPc: nat): (nat, nat) {
    if probes.loopOf(site, pc).0 == 0 && prevPc != 0 then probes.loopOf(site, prevPc) else probes.loopOf(site, pc)
  }

  /** No self-loop explains the divergence: there is none, or its exit is not found again. */
  ghost predicate NoLoopSkip(interp: Trace, jit: Trace, probes: Probes, site: nat, ar: AlignResult) {
    var (target, branch) := LoopBranch(probes, site, ar.pc, ar.prevPc);
    target == 0
    || exists r :: ExitVerdict(interp, jit, ar.jitIdx, ar.interpIdx, target, LoopEnd(branch), r) && !r.reconverged
  }

  /** `r` is what passing the self-loop gives, and it gets through. */
  ghost predicate LoopSkip(interp: Trace, jit: Trace, probes: Probes, site: nat, ar: AlignResult, r: ResyncResult) {
    var (target, branch) := LoopBranch(probes, site, ar.pc, ar.prevPc);
    target != 0 && ExitVerdict(interp, jit, ar.jitIdx, ar.interpIdx, target, LoopEnd(branch), r) && r.reconverged
  }

  /** `ResyncAfter` seen from the walk. */
  method Resync(interp: Trace, jit: Trace, ar: AlignResult) returns (r: ResyncResult)
    ensures Resynced(interp, jit, ar.jitIdx, ar.interpIdx, r)
    ensures r.reconverged ==> Resumes(interp, jit, ar, r)
    ensures !r.reconverged ==> Persists(interp, jit, ar.jitIdx, ar.interpIdx)
  {
    ghost var at;
    r, at := ResyncAfter(interp, jit, ar.jitIdx, ar.interpIdx);
    ghost var first, start := ar.jitIdx + 1, ar.interpIdx + 1;
    assert ResyncVerdict(interp, jit, first, start, r, at);
    if r.reconverged {
      assert at[|at| - 1] >= ar.interpIdx + 1;
    }
  }

  /** The self-loop check: the block entered first, then the block before it. */
  method SkipSelfLoop(interp: Trace, jit: Trace, ar: AlignResult, probes: Probes, census: bool, site: nat,
                      maySkip: bool)
    returns (skipped: bool, r: ResyncResult, ghost pc: nat)
    ensures skipped ==> maySkip && Resumes(interp, jit, ar, r) && LoopSkip(interp, jit, probes, site, ar, r)
    ensures skipped ==> forall k | ar.jitIdx <= k < r.k - 1 :: Justified(jit, probes, census, k, SelfLoop(site, pc))
    ensures !skipped && maySkip ==> NoLoopSkip(interp, jit, probes, site, ar)
  {
    skipped, r, pc := false, ResyncResult(false, 0, 0, 0, 0, false), ar.pc;
    var (target, branch) := probes.loopOf(site, ar.pc);
    if target == 0 && ar.prevPc != 0 {
      var (t, b) := probes.loopOf(site, ar.prevPc);
      target, branch, pc := t, b, ar.prevPc;
    }
    if target != 0 && maySkip {
      r := ResyncPastSelfLoop(interp, jit, ar.jitIdx, ar.interpIdx, target, LoopEnd(branch));
      skipped := r.reconverged;
    }
  }

  /** What a finished walk has established. Every outcome accounts for all entries before the
      one it names, in order; agreement accounts for the whole trace. */
  ghost predicate Explains(interp: Trace, jit: Trace, probes: Probes, census: bool, outcome: Outcome, counts: Counts,
                           fates: seq<Fate>) {
    exists ii: nat, ar: AlignResult :: ExplainsAt(interp, jit, probes, census, outcome, counts, fates, ii, ar)
  }

  ghost predicate ExplainsAt(interp: Trace, jit: Trace, probes: Probes, census: bool, outcome: Outcome, counts: Counts,
                             fates: seq<Fate>, ii: nat, ar: AlignResult) {
    && Accounted(interp, jit, probes, census, fates, ii)
    && if outcome.Agreed? then Closed(fates) && (jit != [] ==> |fates| + 1 == |jit|)
       else AtEntry(jit, fates, ar.jitIdx) && ii == ar.interpIdx && Divergence(interp, jit, ar)
            && Final(interp, jit, probes, census, ar, counts, outcome)
  }

  /** Every entry skipped by a walk was skipped for a reason that holds of it. */
  lemma SkipIsJustified(interp: Trace, jit: Trace, probes: Probes, census: bool, outcome: Outcome, counts: Counts,
                        fates: seq<Fate>, i: nat)
    requires Explains(interp, jit, probes, census, outcome, counts, fates)
    requires i < |fates| && fates[i].Skipped?
    ensures i + 1 < |jit| && Justified(jit, probes, census, i + 1, fates[i].why)
  {
    var ii: nat, ar: AlignResult :| ExplainsAt(interp, jit, probes, census, outcome, counts, fates, ii, ar);
  }

  predicate AtEntry(jit: Trace, fates: seq<Fate>, k: nat) {
    |fates| + 1 == k < |jit|
  }

  lemma WindowCloses(interp: Trace, jit: Trace, probes: Probes, census: bool, fates: seq<Fate>, ar: AlignResult,
                     why: Why, r: ResyncResult)
    requires Accounted(interp, jit, probes, census, fates, ar.interpIdx) && AtEntry(jit, fates, ar.jitIdx)
    requires Resumes(interp, jit, ar, r)
    requires forall k | ar.jitIdx <= k < r.k - 1 :: Justified(jit, probes, census, k, why)
    ensures Accounted(interp, jit, probes, census, Resumed(fates, ar, why, r), r.ii)
    ensures |Resumed(fates, ar, why, r)| + 1 == r.k && Closed(Resumed(fates, ar, why, r))
  {
    WindowAccounted(interp, jit, probes, census, fates, ar.interpIdx, why, r.k - 1 - ar.jitIdx, r.ii - 1);
  }

  function Resumed(fates: seq<Fate>, ar: AlignResult, why: Why, r: ResyncResult): seq<Fate>
    requires ar.jitIdx < r.k && 1 <= r.ii
  {
    fates + Skips(why, r.k - 1 - ar.jitIdx) + [Matched(r.ii - 1)]
  }

  /** How often the walk has resumed, by reason. */
  datatype Counts = Counts(timer: nat, selfLoop: nat, interrupt: nat, census: nat) {
    predicate Within() {
      timer <= TIMER_CAP && selfLoop <= SELF_LOOP_CAP && interrupt <= INTERRUPT_CAP && census <= CENSUS_CAP
    }
    function Total(): nat {
      timer + selfLoop + interrupt + census
    }
  }

  datatype Decision = Finish(outcome: Outcome) | Resume(r: ResyncResult, counts: Counts)

  /** A divergence the strict walk reported, entered from the entry before it. */
  ghost predicate Divergence(interp: Trace, jit: Trace, ar: AlignResult) {
    && 1 <= ar.jitIdx < |jit| && ar.pc == jit[ar.jitIdx].pc && ar.prevPc == jit[ar.jitIdx - 1].pc
    && (!ar.controlFlow ==> ar.interpIdx < |interp| && interp[ar.interpIdx].pc == ar.pc
                            && interp[ar.interpIdx].fp != jit[ar.jitIdx].fp)
  }

  /** The reports that end a walk, each with why nothing excused the divergence: no skip
      applies, its cap is reached, or its resync does not get through. */
  ghost predicate Final(interp: Trace, jit: Trace, probes: Probes, census: bool, ar: AlignResult, counts: Counts,
                        outcome: Outcome) {
    var site := counts.Total();
    match outcome
    case Agreed(_) => false
    case PhaseOffset(k) => ar.controlFlow && k == ar.jitIdx && exists i :: 0 <= i < |interp| && interp[i].pc == ar.pc
    case WrongTarget(k, at) =>
      ar.controlFlow && k == ar.jitIdx && at == ar.interpIdx && Absent(interp, 0, |interp|, ar.pc)
      && CensusExhausted(interp, jit, census, ar, counts)
    case TimerLost(k) =>
      !ar.controlFlow && k == ar.jitIdx && LoopAndHandlerExhausted(interp, jit, probes, ar, counts)
      && probes.reloads(site) && probes.benign(site, ar.prevPc, ar.pc) && counts.timer < TIMER_CAP
      && Persists(interp, jit, ar.jitIdx, ar.interpIdx)
    case ReloadFailed(k) =>
      !ar.controlFlow && k == ar.jitIdx && LoopAndHandlerExhausted(interp, jit, probes, ar, counts)
        && !probes.reloads(site)
    case DataDivergence(k, at) =>
      !ar.controlFlow && k == ar.jitIdx && at == ar.interpIdx
      && LoopAndHandlerExhausted(interp, jit, probes, ar, counts)
      && probes.reloads(site) && (!probes.benign(site, ar.prevPc, ar.pc) || counts.timer == TIMER_CAP)
      && CensusExhausted(interp, jit, census, ar, counts)
  }

  ghost predicate CensusExhausted(interp: Trace, jit: Trace, census: bool, ar: AlignResult, counts: Counts) {
    !census || counts.census == CENSUS_CAP || Persists(interp, jit, ar.jitIdx, ar.interpIdx)
  }

  ghost predicate LoopExhausted(interp: Trace, jit: Trace, probes: Probes, ar: AlignResult, counts: Counts) {
    counts.selfLoop == SELF_LOOP_CAP || NoLoopSkip(interp, jit, probes, counts.Total(), ar)
  }

  ghost predicate LoopAndHandlerExhausted(interp: Trace, jit: Trace, probes: Probes, ar: AlignResult, counts: Counts) {
    && LoopExhausted(interp, jit, probes, ar, counts)
    && ((ar.pc < KSEG0 && ar.prevPc < KSEG0) || counts.interrupt == INTERRUPT_CAP
        || Persists(interp, jit, ar.jitIdx, ar.interpIdx))
  }

  /** A resumption is counted under its reason. */
  predicate CountedAs(counts: Counts, after: Counts, why: Why) {
    match why
    case SelfLoop(_, _) => after == counts.(selfLoop := counts.selfLoop + 1)
    case Handler(_) => after == counts.(interrupt := counts.interrupt + 1)
    case Timer(_, _, _) => after == counts.(timer := counts.timer + 1)
    case Census => after == counts.(census := counts.census + 1)
  }

  /** The reason applies, is below its cap, and every reason tried before it has failed. */
  ghost predicate Due(interp: Trace, jit: Trace, probes: Probes, census: bool, ar: AlignResult, counts: Counts,
                      why: Why) {
    var site := counts.Total();
    match why
    case SelfLoop(s, _) => !ar.controlFlow && s == site && counts.selfLoop < SELF_LOOP_CAP
    case Handler(entered) =>
      !ar.controlFlow && entered == ar.jitIdx && (ar.pc >= KSEG0 || ar.prevPc >= KSEG0)
      && counts.interrupt < INTERRUPT_CAP && LoopExhausted(interp, jit, probes, ar, counts)
    case Timer(s, left, entered) =>
      !ar.controlFlow && s == site && left == ar.prevPc && entered == ar.pc
      && LoopAndHandlerExhausted(interp, jit, probes, ar, counts)
      && probes.reloads(site) && probes.benign(site, ar.prevPc, ar.pc) && counts.timer < TIMER_CAP
    case Census =>
      census && counts.census < CENSUS_CAP
      && if ar.controlFlow then Absent(interp, 0, |interp|, ar.pc)
         else LoopAndHandlerExhausted(interp, jit, probes, ar, counts) && probes.reloads(site)
              && (!probes.benign(site, ar.prevPc, ar.pc) || counts.timer == TIMER_CAP)
  }

  /** Which resync a reason uses. */
  ghost predicate FoundBy(interp: Trace, jit: Trace, probes: Probes, ar: AlignResult, counts: Counts, why: Why,
                          r: ResyncResult) {
    if why.SelfLoop? then LoopSkip(interp, jit, probes, counts.Total(), ar, r)
    else Resynced(interp, jit, ar.jitIdx, ar.interpIdx, r) && r.reconverged
  }

  ghost predicate DecisionOk(interp: Trace, jit: Trace, probes: Probes, census: bool, ar: AlignResult,
                             counts: Counts, d: Decision, why: Why) {
    match d
    case Finish(outcome) => Final(interp, jit, probes, census, ar, counts, outcome)
    case Resume(r, after) =>
      && Resumes(interp, jit, ar, r) && after.Within() && CountedAs(counts, after, why)
      && Due(interp, jit, probes, census, ar, counts, why) && FoundBy(interp, jit, probes, ar, counts, why, r)
      && forall k | ar.jitIdx <= k < r.k - 1 :: Justified(jit, probes, census, k, why)
  }

  method OnControlFlow(interp: Trace, jit: Trace, probes: Probes, census: bool, ar: AlignResult, counts: Counts)
    returns (d: Decision, ghost why: Why)
    requires Divergence(interp, jit, ar) && ar.controlFlow && counts.Within()
    ensures DecisionOk(interp, jit, probes, census, ar, counts, d, why)
    ensures d == Finish(PhaseOffset(ar.jitIdx)) <==> exists i :: 0 <= i < |interp| && interp[i].pc == ar.pc
  {
    why := Census;
    var reached := Reached(interp, ar.pc);
    if reached {
      return Finish(PhaseOffset(ar.jitIdx)), why;
    }
    if census && counts.census < CENSUS_CAP {
      var r := Resync(interp, jit, ar);
      if r.reconverged {
        return Resume(r, counts.(census := counts.census + 1)), why;
      }
    }
    d := Finish(WrongTarget(ar.jitIdx, ar.interpIdx));
  }

  /** The two cheap checks, on the traces alone: self-loop, then exception handler. */
  method OnStreams(interp: Trace, jit: Trace, probes: Probes, census: bool, ar: AlignResult, counts: Counts, site: nat)
    returns (skipped: bool, r: ResyncResult, after: Counts, ghost why: Why)
    requires Divergence(interp, jit, ar) && !ar.controlFlow && counts.Within() && site == counts.Total()
    ensures skipped ==> DecisionOk(interp, jit, probes, census, ar, counts, Resume(r, after), why)
    ensures !skipped ==> LoopAndHandlerExhausted(interp, jit, probes, ar, counts)
  {
    ghost var pc;
    skipped, r, pc := SkipSelfLoop(interp, jit, ar, probes, census, site, counts.selfLoop < SELF_LOOP_CAP);
    why, after := SelfLoop(site, pc), counts.(selfLoop := counts.selfLoop + 1);
    if skipped {
      return;
    }
    if (ar.pc >= KSEG0 || ar.prevPc >= KSEG0) && counts.interrupt < INTERRUPT_CAP {
      why, after := Handler(ar.jitIdx), counts.(interrupt := counts.interrupt + 1);
      r := Resync(interp, jit, ar);
      skipped := r.reconverged;
    }
  }

  /** The rest, which needs snapshots of both machines. */
  method OnSnapshots(interp: Trace, jit: Trace, probes: Probes, census: bool, ar: AlignResult, counts: Counts,
                     site: nat)
    returns (d: Decision, ghost why: Why)
    requires Divergence(interp, jit, ar) && !ar.controlFlow && counts.Within() && site == counts.Total()
    requires LoopAndHandlerExhausted(interp, jit, probes, ar, counts)
    ensures DecisionOk(interp, jit, probes, census, ar, counts, d, why)
  {
    why := Timer(site, ar.prevPc, ar.pc);
    if !probes.reloads(site) {
      return Finish(ReloadFailed(ar.jitIdx)), why;
    }
    var r;
    if probes.benign(site, ar.prevPc, ar.pc) && counts.timer < TIMER_CAP {
      r := Resync(interp, jit, ar);
      if !r.reconverged {
        return Finish(TimerLost(ar.jitIdx)), why;
      }
      return Resume(r, counts.(timer := counts.timer + 1)), why;
    }
    if census && counts.census < CENSUS_CAP {
      why := Census;
      r := Resync(interp, jit, ar);
      if r.reconverged {
        return Resume(r, counts.(census := counts.census + 1)), why;
      }
    }
    d := Finish(DataDivergence(ar.jitIdx, ar.interpIdx));
  }

  method OnData(interp: Trace, jit: Trace, probes: Probes, census: bool, ar: AlignResult, counts: Counts)
    returns (d: Decision, ghost why: Why)
    requires Divergence(interp, jit, ar) && !ar.controlFlow && counts.Within()
    ensures DecisionOk(interp, jit, probes, census, ar, counts, d, why)
    ensures d.Finish? ==> Final(interp, jit, probes, census, ar, counts, d.outcome)
    ensures d.Resume? ==> Resumes(interp, jit, ar, d.r) && d.counts.Within() && d.counts.Total() == counts.Total() + 1
  {
    var skipped, r, after;
    skipped, r, after, why := OnStreams(interp, jit, probes, census, ar, counts, counts.Total());
    if skipped {
      return Resume(r, after), why;
    }
    d, why := OnSnapshots(interp, jit, probes, census, ar, counts, counts.Total());
  }

  // ---- the decision is determined ----

  lemma ResyncedOnce(interp: Trace, jit: Trace, k: nat, ii: nat, r: ResyncResult, r': ResyncResult)
    requires Resynced(interp, jit, k, ii, r) && Resynced(interp, jit, k, ii, r')
    ensures r.reconverged == r'.reconverged && (r.reconverged ==> r == r')
  {
    var first, start := k + 1, ii + 1;
    var at :| ResyncVerdict(interp, jit, first, start, r, at);
    var at' :| ResyncVerdict(interp, jit, first, start, r', at');
    ResyncIsUnique(interp, jit, first, start, r, at, r', at');
  }

  lemma ReconvergedIsNotPersistent(interp: Trace, jit: Trace, k: nat, ii: nat, r: ResyncResult)
    requires Resynced(interp, jit, k, ii, r) && r.reconverged
    ensures !Persists(interp, jit, k, ii)
  {
    var first, start := k + 1, ii + 1;
    if r', at :| ResyncVerdict(interp, jit, first, start, r', at) && !r'.reconverged {
      ResyncedOnce(interp, jit, k, ii, r, r');
    }
  }

  lemma LoopSkipOnce(interp: Trace, jit: Trace, probes: Probes, site: nat, ar: AlignResult, r: ResyncResult,
                     r': ResyncResult)
    requires ar.jitIdx <= |jit| && LoopSkip(interp, jit, probes, site, ar, r)
    ensures LoopSkip(interp, jit, probes, site, ar, r') ==> r == r'
    ensures !NoLoopSkip(interp, jit, probes, site, ar)
  {
    var (target, branch) := LoopBranch(probes, site, ar.pc, ar.prevPc);
    var lo, hi := target, LoopEnd(branch);
    forall q | ExitVerdict(interp, jit, ar.jitIdx, ar.interpIdx, lo, hi, q)
      ensures q == r
    {
      ExitIsUnique(interp, jit, ar.jitIdx, ar.interpIdx, lo, hi, r, q);
    }
  }

  /** What a resumption rules out: its reason's failure. */
  lemma ResumptionExcludes(interp: Trace, jit: Trace, probes: Probes, ar: AlignResult, counts: Counts, why: Why,
                           r: ResyncResult)
    requires ar.jitIdx <= |jit| && FoundBy(interp, jit, probes, ar, counts, why, r)
    ensures if why.SelfLoop? then !NoLoopSkip(interp, jit, probes, counts.Total(), ar)
            else !Persists(interp, jit, ar.jitIdx, ar.interpIdx)
  {
    if why.SelfLoop? {
      LoopSkipOnce(interp, jit, probes, counts.Total(), ar, r, r);
    } else {
      ReconvergedIsNotPersistent(interp, jit, ar.jitIdx, ar.interpIdx, r);
    }
  }

  /** Two reasons that are both due, and whose resyncs get through, are of one kind. */
  lemma OneReason(interp: Trace, jit: Trace, probes: Probes, census: bool, ar: AlignResult, counts: Counts,
                  why: Why, r: ResyncResult, why': Why, r': ResyncResult)
    requires ar.jitIdx <= |jit|
    requires Due(interp, jit, probes, census, ar, counts, why) && FoundBy(interp, jit, probes, ar, counts, why, r)
    requires Due(interp, jit, probes, census, ar, counts, why') && FoundBy(interp, jit, probes, ar, counts, why', r')
    ensures why.SelfLoop? == why'.SelfLoop? && why.Handler? == why'.Handler? && why.Timer? == why'.Timer?
    ensures r == r'
  {
    ResumptionExcludes(interp, jit, probes, ar, counts, why, r);
    ResumptionExcludes(interp, jit, probes, ar, counts, why', r');
    if why.SelfLoop? && why'.SelfLoop? {
      LoopSkipOnce(interp, jit, probes, counts.Total(), ar, r, r');
    } else if !why.SelfLoop? && !why'.SelfLoop? {
      ResyncedOnce(interp, jit, ar.jitIdx, ar.interpIdx, r, r');
    }
  }

  /** No divergence is both excused and reported. */
  lemma ExcusedOrReported(interp: Trace, jit: Trace, probes: Probes, census: bool, ar: AlignResult, counts: Counts,
                          why: Why, r: ResyncResult, outcome: Outcome)
    requires ar.jitIdx <= |jit|
    requires Due(interp, jit, probes, census, ar, counts, why) && FoundBy(interp, jit, probes, ar, counts, why, r)
    ensures !Final(interp, jit, probes, census, ar, counts, outcome)
  {
    ResumptionExcludes(interp, jit, probes, ar, counts, why, r);
  }

  lemma OneReport(interp: Trace, jit: Trace, probes: Probes, census: bool, ar: AlignResult, counts: Counts,
                  outcome: Outcome, outcome': Outcome)
    requires Final(interp, jit, probes, census, ar, counts, outcome)
    requires Final(interp, jit, probes, census, ar, counts, outcome')
    ensures outcome == outcome'
  {}

  /** What becomes of a divergence is determined by the traces, the machine's answers and the
      counts so far. */
  lemma DecisionIsUnique(interp: Trace, jit: Trace, probes: Probes, census: bool, ar: AlignResult, counts: Counts,
                         d: Decision, why: Why, d': Decision, why': Why)
    requires Divergence(interp, jit, ar)
    requires DecisionOk(interp, jit, probes, census, ar, counts, d, why)
    requires DecisionOk(interp, jit, probes, census, ar, counts, d', why')
    ensures d == d'
  {
    match (d, d')
    case (Finish(o), Finish(o')) => OneReport(interp, jit, probes, census, ar, counts, o, o');
    case (Resume(r, _), Finish(o)) => ExcusedOrReported(interp, jit, probes, census, ar, counts, why, r, o);
    case (Finish(o), Resume(r, _)) => ExcusedOrReported(interp, jit, probes, census, ar, counts, why', r, o);
    case (Resume(r, _), Resume(r', _)) => OneReason(interp, jit, probes, census, ar, counts, why, r, why', r');
  }

  lemma VerdictIsDivergence(interp: Trace, jit: Trace, k: nat, ii: nat, prevPc: nat, ar: AlignResult, at: seq<nat>)
    requires Verdict(interp, jit, k, ii, prevPc, ar, at) && ar.found
    requires 1 <= k <= |jit| ==> prevPc == jit[k - 1].pc
    requires 1 <= k
    ensures Divergence(interp, jit, ar)
  {
    if !ar.controlFlow {
      assert interp[at[|at| - 1]].pc == jit[k + |at| - 1].pc;
    }
  }

  lemma FinalExplains(interp: Trace, jit: Trace, probes: Probes, census: bool, ar: AlignResult, counts: Counts,
                      fates: seq<Fate>, outcome: Outcome)
    requires Divergence(interp, jit, ar) && Final(interp, jit, probes, census, ar, counts, outcome)
    requires Accounted(interp, jit, probes, census, fates, ar.interpIdx) && AtEntry(jit, fates, ar.jitIdx)
    ensures Explains(interp, jit, probes, census, outcome, counts, fates)
  {
    assert ExplainsAt(interp, jit, probes, census, outcome, counts, fates, ar.interpIdx, ar);
  }

  lemma AgreementExplains(interp: Trace, jit: Trace, probes: Probes, census: bool, counts: Counts, fates: seq<Fate>,
                          skipped: nat)
    requires Accounted(interp, jit, probes, census, fates, |interp|) && Closed(fates)
    requires jit != [] ==> |fates| + 1 == |jit|
    ensures Explains(interp, jit, probes, census, Agreed(skipped), counts, fates)
  {
    var ar := AlignResult(false, false, 0, 0, 0, 0);
    assert ExplainsAt(interp, jit, probes, census, Agreed(skipped), counts, fates, |interp|, ar);
  }

  /** Where the walk goes on. */
  datatype Position = Position(k: nat, ii: nat, prevPc: nat, counts: Counts)

  ghost predicate AdvancesBy(interp: Trace, jit: Trace, probes: Probes, census: bool, p: Position, next: Position,
                             ar: AlignResult, at: seq<nat>, d: Decision, why: Why) {
    && Verdict(interp, jit, p.k, p.ii, p.prevPc, ar, at) && ar.found
    && d.Resume? && DecisionOk(interp, jit, probes, census, ar, p.counts, d, why)
    && next == Position(d.r.k, d.r.ii, d.r.prevPc, d.counts)
  }

  /** A turn of the loop from `p` that goes on at `next`. */
  ghost predicate Advances(interp: Trace, jit: Trace, probes: Probes, census: bool, p: Position, next: Position) {
    exists ar, at, d, why :: AdvancesBy(interp, jit, probes, census, p, next, ar, at, d, why)
  }

  ghost predicate EndsBy(interp: Trace, jit: Trace, probes: Probes, census: bool, p: Position, outcome: Outcome,
                         ar: AlignResult, at: seq<nat>) {
    && Verdict(interp, jit, p.k, p.ii, p.prevPc, ar, at)
    && if ar.found then Final(interp, jit, probes, census, ar, p.counts, outcome)
       else outcome == Agreed(p.counts.timer + p.counts.selfLoop + p.counts.interrupt)
  }

  /** A turn of the loop from `p` that ends it. */
  ghost predicate Ends(interp: Trace, jit: Trace, probes: Probes, census: bool, p: Position, outcome: Outcome) {
    exists ar, at :: EndsBy(interp, jit, probes, census, p, outcome, ar, at)
  }

  /** The entry before `p.k` is the one the walk came from. */
  predicate WellPlaced(jit: Trace, p: Position) {
    1 <= p.k && (p.k <= |jit| ==> p.prevPc == jit[p.k - 1].pc)
  }

  function FirstPosition(jit: Trace): Position {
    Position(1, 0, if jit == [] then 0 else jit[0].pc, Counts(0, 0, 0, 0))
  }

  /** The first turns of a walk. */
  ghost predicate AreTurns(interp: Trace, jit: Trace, probes: Probes, census: bool, ps: seq<Position>) {
    && ps != [] && ps[0] == FirstPosition(jit)
    && forall i | 0 <= i < |ps| - 1 :: Advances(interp, jit, probes, census, ps[i], ps[i + 1])
  }

  /** The turns of a walk, up to its outcome. */
  ghost predicate IsWalk(interp: Trace, jit: Trace, probes: Probes, census: bool, ps: seq<Position>, outcome: Outcome) {
    AreTurns(interp, jit, probes, census, ps) && Ends(interp, jit, probes, census, ps[|ps| - 1], outcome)
  }

  lemma OneMoreTurn(interp: Trace, jit: Trace, probes: Probes, census: bool, ps: seq<Position>, next: Position)
    requires AreTurns(interp, jit, probes, census, ps)
    requires Advances(interp, jit, probes, census, ps[|ps| - 1], next)
    ensures AreTurns(interp, jit, probes, census, ps + [next])
  {}

  lemma NoTurnYet(interp: Trace, jit: Trace, probes: Probes, census: bool)
    ensures AreTurns(interp, jit, probes, census, [FirstPosition(jit)])
    ensures Between(interp, jit, probes, census, FirstPosition(jit), [])
  {}

  lemma OneAdvance(interp: Trace, jit: Trace, probes: Probes, census: bool, p: Position,
                   next: Position, ar: AlignResult, at: seq<nat>, d: Decision, why: Why,
                   next': Position, ar': AlignResult, at': seq<nat>, d': Decision, why': Why)
    requires WellPlaced(jit, p) && AdvancesBy(interp, jit, probes, census, p, next, ar, at, d, why)
    requires AdvancesBy(interp, jit, probes, census, p, next', ar', at', d', why')
    ensures next == next'
  {
    VerdictIsUnique(interp, jit, p.k, p.ii, p.prevPc, ar, at, ar', at');
    VerdictIsDivergence(interp, jit, p.k, p.ii, p.prevPc, ar, at);
    DecisionIsUnique(interp, jit, probes, census, ar, p.counts, d, why, d', why');
  }

  lemma AdvanceOrEnd(interp: Trace, jit: Trace, probes: Probes, census: bool, p: Position,
                     next: Position, ar: AlignResult, at: seq<nat>, d: Decision, why: Why,
                     outcome: Outcome, ar': AlignResult, at': seq<nat>)
    requires WellPlaced(jit, p) && AdvancesBy(interp, jit, probes, census, p, next, ar, at, d, why)
    ensures !EndsBy(interp, jit, probes, census, p, outcome, ar', at')
  {
    if Verdict(interp, jit, p.k, p.ii, p.prevPc, ar', at') {
      VerdictIsUnique(interp, jit, p.k, p.ii, p.prevPc, ar, at, ar', at');
      VerdictIsDivergence(interp, jit, p.k, p.ii, p.prevPc, ar, at);
      ExcusedOrReported(interp, jit, probes, census, ar, p.counts, why, d.r, outcome);
    }
  }

  lemma AdvancesOnce(interp: Trace, jit: Trace, probes: Probes, census: bool, p: Position, next: Position)
    requires WellPlaced(jit, p) && Advances(interp, jit, probes, census, p, next)
    ensures WellPlaced(jit, next)
    ensures forall other :: Advances(interp, jit, probes, census, p, other) ==> other == next
    ensures forall outcome :: !Ends(interp, jit, probes, census, p, outcome)
  {
    var ar, at, d, why :| AdvancesBy(interp, jit, probes, census, p, next, ar, at, d, why);
    forall other, ar', at', d', why' | AdvancesBy(interp, jit, probes, census, p, other, ar', at', d', why')
      ensures other == next
    {
      OneAdvance(interp, jit, probes, census, p, next, ar, at, d, why, other, ar', at', d', why');
    }
    forall outcome, ar', at'
      ensures !EndsBy(interp, jit, probes, census, p, outcome, ar', at')
    {
      AdvanceOrEnd(interp, jit, probes, census, p, next, ar, at, d, why, outcome, ar', at');
    }
  }

  lemma EndsOnce(interp: Trace, jit: Trace, probes: Probes, census: bool, p: Position, outcome: Outcome,
                 outcome': Outcome)
    requires Ends(interp, jit, probes, census, p, outcome) && Ends(interp, jit, probes, census, p, outcome')
    ensures outcome == outcome'
  {
    var ar, at :| EndsBy(interp, jit, probes, census, p, outcome, ar, at);
    var ar', at' :| EndsBy(interp, jit, probes, census, p, outcome', ar', at');
    VerdictIsUnique(interp, jit, p.k, p.ii, p.prevPc, ar, at, ar', at');
    if ar.found {
      OneReport(interp, jit, probes, census, ar, p.counts, outcome, outcome');
    }
  }

  lemma {:induction false} WalksAgree(interp: Trace, jit: Trace, probes: Probes, census: bool,
                                      ps: seq<Position>, o: Outcome, ps': seq<Position>, o': Outcome, i: nat)
    requires IsWalk(interp, jit, probes, census, ps, o) && IsWalk(interp, jit, probes, census, ps', o')
    requires i < |ps| && i < |ps'|
    ensures WellPlaced(jit, ps[i]) && ps[i] == ps'[i]
    decreases i
  {
    if i > 0 {
      WalksAgree(interp, jit, probes, census, ps, o, ps', o', i - 1);
      assert Advances(interp, jit, probes, census, ps[i - 1], ps[i - 1 + 1]);
      assert Advances(interp, jit, probes, census, ps'[i - 1], ps'[i - 1 + 1]);
      AdvancesOnce(interp, jit, probes, census, ps[i - 1], ps[i]);
    }
  }

  /** The traces and the machine's answers determine the walk, turn by turn, and its outcome. */
  lemma WalkIsUnique(interp: Trace, jit: Trace, probes: Probes, census: bool,
                     ps: seq<Position>, o: Outcome, ps': seq<Position>, o': Outcome)
    requires IsWalk(interp, jit, probes, census, ps, o) && IsWalk(interp, jit, probes, census, ps', o')
    ensures ps == ps' && o == o'
  {
    NotLonger(interp, jit, probes, census, ps, o, ps', o');
    NotLonger(interp, jit, probes, census, ps', o', ps, o);
    forall i | 0 <= i < |ps|
      ensures ps[i] == ps'[i]
    {
      WalksAgree(interp, jit, probes, census, ps, o, ps', o', i);
    }
    EndsOnce(interp, jit, probes, census, ps[|ps| - 1], o, o');
  }

  lemma NotLonger(interp: Trace, jit: Trace, probes: Probes, census: bool,
                  ps: seq<Position>, o: Outcome, ps': seq<Position>, o': Outcome)
    requires IsWalk(interp, jit, probes, census, ps, o) && IsWalk(interp, jit, probes, census, ps', o')
    ensures |ps'| <= |ps|
  {
    var last := |ps| - 1;
    if last + 1 < |ps'| {
      WalksAgree(interp, jit, probes, census, ps, o, ps', o', last);
      assert Advances(interp, jit, probes, census, ps'[last], ps'[last + 1]);
      AdvancesOnce(interp, jit, probes, census, ps'[last], ps'[last + 1]);
    }
  }

  /** What holds between two divergences. */
  ghost predicate Between(interp: Trace, jit: Trace, probes: Probes, census: bool, p: Position, fates: seq<Fate>) {
    && Accounted(interp, jit, probes, census, fates, p.ii) && Closed(fates) && p.ii <= |interp|
    && p.k == |fates| + 1 && (p.k <= |jit| ==> p.prevPc == jit[p.k - 1].pc)
    && p.counts.Within() && p.counts.Total() <= |fates|
  }

  lemma ResumptionIsBetween(interp: Trace, jit: Trace, probes: Probes, census: bool, counts: Counts, ar: AlignResult,
                            fates: seq<Fate>, d: Decision, why: Why)
    requires d.Resume? && DecisionOk(interp, jit, probes, census, ar, counts, d, why)
    requires Accounted(interp, jit, probes, census, fates, ar.interpIdx) && AtEntry(jit, fates, ar.jitIdx)
    requires counts.Total() <= |fates|
    ensures ar.jitIdx < d.r.k && 1 <= d.r.ii
    ensures var next := Position(d.r.k, d.r.ii, d.r.prevPc, d.counts);
            Between(interp, jit, probes, census, next, Resumed(fates, ar, why, d.r))
  {
    WindowCloses(interp, jit, probes, census, fates, ar, why, d.r);
  }

  /** Classifies one divergence. */
  method Decide(interp: Trace, jit: Trace, probes: Probes, census: bool, ar: AlignResult, counts: Counts)
    returns (d: Decision, ghost why: Why)
    requires Divergence(interp, jit, ar) && counts.Within()
    ensures DecisionOk(interp, jit, probes, census, ar, counts, d, why)
  {
    if ar.controlFlow {
      d, why := OnControlFlow(interp, jit, probes, census, ar, counts);
    } else {
      d, why := OnData(interp, jit, probes, census, ar, counts);
    }
  }

  lemma EndsHere(interp: Trace, jit: Trace, probes: Probes, census: bool, p: Position, outcome: Outcome,
                 ar: AlignResult, at: seq<nat>)
    requires EndsBy(interp, jit, probes, census, p, outcome, ar, at)
    ensures Ends(interp, jit, probes, census, p, outcome)
  {}

  lemma AgreesHere(interp: Trace, jit: Trace, probes: Probes, census: bool, p: Position, fates: seq<Fate>,
                   ar: AlignResult, at: seq<nat>, skipped: nat)
    requires Between(interp, jit, probes, census, p, fates)
    requires Verdict(interp, jit, p.k, p.ii, p.prevPc, ar, at) && !ar.found
    requires skipped == p.counts.timer + p.counts.selfLoop + p.counts.interrupt
    ensures Explains(interp, jit, probes, census, Agreed(skipped), p.counts, fates + Matches(at))
    ensures Ends(interp, jit, probes, census, p, Agreed(skipped))
  {
    AgreedAccounted(interp, jit, probes, census, fates, p.ii, p.k, p.prevPc, ar, at);
    AgreementExplains(interp, jit, probes, census, p.counts, fates + Matches(at), skipped);
    EndsHere(interp, jit, probes, census, p, Agreed(skipped), ar, at);
  }

  lemma GoesOn(interp: Trace, jit: Trace, probes: Probes, census: bool, p: Position, next: Position,
               ar: AlignResult, at: seq<nat>, d: Decision, why: Why)
    requires AdvancesBy(interp, jit, probes, census, p, next, ar, at, d, why)
    ensures Advances(interp, jit, probes, census, p, next)
  {}

  /** What becomes of the divergence a strict walk from `p` has met. */
  method Settle(interp: Trace, jit: Trace, probes: Probes, census: bool, p: Position, ar: AlignResult,
                ghost at: seq<nat>, ghost fates: seq<Fate>)
    returns (outcome: Option<Outcome>, next: Position, ghost grown: seq<Fate>)
    requires p.counts.Within() && p.counts.Total() <= |fates|
    requires Verdict(interp, jit, p.k, p.ii, p.prevPc, ar, at) && ar.found && Divergence(interp, jit, ar)
    requires Accounted(interp, jit, probes, census, fates, ar.interpIdx) && AtEntry(jit, fates, ar.jitIdx)
    ensures outcome.Some? ==> !outcome.value.Agreed? && next == p && grown == fates
    ensures outcome.Some? ==> Explains(interp, jit, probes, census, outcome.value, p.counts, grown)
    ensures outcome.Some? ==> Ends(interp, jit, probes, census, p, outcome.value)
    ensures outcome.None? ==> ar.jitIdx < next.k && ar.interpIdx < next.ii && |fates| <= |grown|
    ensures outcome.None? ==> Between(interp, jit, probes, census, next, grown)
    ensures outcome.None? ==> Advances(interp, jit, probes, census, p, next)
  {
    var d;
    ghost var why;
    d, why := Decide(interp, jit, probes, census, ar, p.counts);
    if d.Finish? {
      FinalExplains(interp, jit, probes, census, ar, p.counts, fates, d.outcome);
      EndsHere(interp, jit, probes, census, p, d.outcome, ar, at);
      return Some(d.outcome), p, fates;
    }
    outcome, next, grown := None, Position(d.r.k, d.r.ii, d.r.prevPc, d.counts), Resumed(fates, ar, why, d.r);
    ResumptionIsBetween(interp, jit, probes, census, p.counts, ar, fates, d, why);
    GoesOn(interp, jit, probes, census, p, next, ar, at, d, why);
  }

  /** One turn of the loop: walk strictly, then end or go on behind a resync. */
  method Turn(interp: Trace, jit: Trace, probes: Probes, census: bool, p: Position, ghost fates: seq<Fate>)
    returns (outcome: Option<Outcome>, next: Position, ghost grown: seq<Fate>)
    requires Between(interp, jit, probes, census, p, fates)
    ensures outcome.Some? ==> next == p && Explains(interp, jit, probes, census, outcome.value, p.counts, grown)
    ensures outcome.Some? && outcome.value.Agreed? ==>
              outcome.value.skipped == p.counts.timer + p.counts.selfLoop + p.counts.interrupt
    ensures outcome.None? ==> p.k <= |jit| && p.k < next.k && p.ii < next.ii
    ensures outcome.None? ==> Between(interp, jit, probes, census, next, grown)
    ensures |fates| <= |grown|
    ensures outcome.Some? ==> Ends(interp, jit, probes, census, p, outcome.value)
    ensures outcome.None? ==> Advances(interp, jit, probes, census, p, next)
  {
    var ar: AlignResult;
    ghost var at;
    ar, at := AlignFrom(interp, jit, p.k, p.ii, p.prevPc);
    if ar.found {
      PassedAccounted(interp, jit, probes, census, fates, p.ii, p.k, p.prevPc, ar, at);
      VerdictIsDivergence(interp, jit, p.k, p.ii, p.prevPc, ar, at);
      outcome, next, grown := Settle(interp, jit, probes, census, p, ar, at, fates + Matches(Passed(ar, p.k, at)));
    } else {
      var skipped := p.counts.timer + p.counts.selfLoop + p.counts.interrupt;
      AgreesHere(interp, jit, probes, census, p, fates, ar, at, skipped);
      outcome, next, grown := Some(Agreed(skipped)), p, fates + Matches(at);
    }
  }

  /** The loop. It ends because every resync moves on in the JIT trace; the caps are not needed. */
  method Walk(interp: Trace, jit: Trace, probes: Probes, census: bool)
    returns (stop: bool, outcome: Outcome, counts: Counts, ghost fates: seq<Fate>, ghost ps: seq<Position>)
    ensures stop == outcome.Stops()
    ensures IsWalk(interp, jit, probes, census, ps, outcome) && counts == ps[|ps| - 1].counts
    ensures Explains(interp, jit, probes, census, outcome, counts, fates)
    ensures counts.Within() && counts.Total() <= |fates|
    ensures outcome.Agreed? ==> outcome.skipped == counts.timer + counts.selfLoop + counts.interrupt
  {
    var p := FirstPosition(jit);
    fates, ps := [], [p];
    NoTurnYet(interp, jit, probes, census);
    while true
      invariant Between(interp, jit, probes, census, p, fates)
      invariant AreTurns(interp, jit, probes, census, ps) && ps[|ps| - 1] == p
      decreases |jit| - p.k
    {
      var o, next;
      ghost var grown;
      o, next, grown := Turn(interp, jit, probes, census, p, fates);
      if o.Some? {
        return o.value.Stops(), o.value, p.counts, grown, ps;
      }
      OneMoreTurn(interp, jit, probes, census, ps, next);
      p, fates, ps := next, grown, ps + [next];
    }
  }
}

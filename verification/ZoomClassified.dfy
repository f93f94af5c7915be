/** The zoom walk with the classifier in it: what the walk is told about a divergence is what
    `ClassifyCycleDerivedLoads` says about the snapshots taken there. */
module ZoomClassified {
  import opened Bits
  import opened Ee
  import opened EePath
  import opened CycleTaint
  import opened CycleTaintLimits
  import opened TraceAlign
  import opened Zoom
  import opened Wrappers

  const MAX_INSNS := 48

  /** The block that was left: its code, where it begins, where the divergence was seen, and the
      interpreter's registers at its entry, if that entry was found. */
  datatype Left = Left(mem: u32 -> u32, block: u32, end: u32, entry: Option<Gprs>)

  function LowerHalves(entry: Option<Gprs>): Option<Registers> {
    if entry.Some? then Some(entry.value.low) else None
  }

  /** What the classifier holds when it has gone through the block. */
  function TrackOf(l: Left): (t: Track)
    ensures t.Valid()
  {
    ObserveAll(Start(LowerHalves(l.entry)), Walked(l.mem, l.block, l.end, MAX_INSNS, 0, false), l.block, 0)
  }

  // ---- the registers that differ ----

  predicate Differs(isnap: Gprs, jsnap: Gprs, q: Reg) {
    jsnap.low[q] != isnap.low[q] || jsnap.high[q] != isnap.high[q]
  }

  function DifferingTo(isnap: Gprs, jsnap: Gprs, n: nat): seq<Reg>
    requires n <= 32
  {
    if n == 0 then []
    else DifferingTo(isnap, jsnap, n - 1) + if Differs(isnap, jsnap, n - 1) then [n - 1] else []
  }

  function Differing(isnap: Gprs, jsnap: Gprs): seq<Reg> {
    DifferingTo(isnap, jsnap, |isnap.low|)
  }

  lemma {:induction false} DifferingContents(isnap: Gprs, jsnap: Gprs, n: nat, q: Reg)
    requires n <= 32
    ensures q in DifferingTo(isnap, jsnap, n) <==> q < n && Differs(isnap, jsnap, q)
  {
    if n > 0 {
      DifferingContents(isnap, jsnap, n - 1, q);
    }
  }

  method DivergentGprs(isnap: Gprs, jsnap: Gprs) returns (divergent_gprs: seq<Reg>)
    ensures divergent_gprs == Differing(isnap, jsnap)
  {
    divergent_gprs := [];
    for i := 0 to 32
      invariant divergent_gprs == DifferingTo(isnap, jsnap, i)
    {
      if jsnap.low[i] != isnap.low[i] || jsnap.high[i] != isnap.high[i] {
        divergent_gprs := divergent_gprs + [i];
      }
    }
  }

  // ---- the verdict ----

  /** There is a note for each differing register and nothing else differs. */
  predicate IsBenign(l: Left, isnap: Gprs, jsnap: Gprs, othersDiffer: bool) {
    var gprs := Differing(isnap, jsnap);
    gprs != [] && |Report(TrackOf(l), gprs)| == |gprs| && !othersDiffer
  }

  /** A register with a note. */
  ghost predicate IsClassified(l: Left, gprs: seq<Reg>, q: Reg) {
    exists o :: (q, o) in Report(TrackOf(l), gprs)
  }

  /** As many notes as registers means a note for each of them. */
  lemma {:induction false} OneNoteEach(t: Track, gprs: seq<Reg>)
    requires t.Valid()
    ensures |Report(t, gprs)| <= |gprs|
    ensures |Report(t, gprs)| == |gprs| <==> forall q | q in gprs :: t.taint[q].Some?
    decreases |gprs|
  {
    if gprs != [] {
      var front, last := gprs[..|gprs| - 1], gprs[|gprs| - 1];
      OneNoteEach(t, front);
      assert last in gprs && forall q | q in front :: q in gprs;
      assert gprs == front + [last];
    }
  }

  lemma NoteForTainted(t: Track, gprs: seq<Reg>, q: Reg)
    requires t.Valid() && q in gprs
    ensures (exists o :: (q, o) in Report(t, gprs)) <==> t.taint[q].Some?
  {
    if t.taint[q].Some? {
      ReportContents(t, gprs, q, t.taint[q].value);
    }
    forall o | (q, o) in Report(t, gprs)
      ensures t.taint[q].Some?
    {
      ReportContents(t, gprs, q, o);
    }
  }

  /** Some register differs, nothing else does, and each of those that do has a note. */
  ghost predicate AllClassified(l: Left, isnap: Gprs, jsnap: Gprs, othersDiffer: bool) {
    && !othersDiffer
    && (exists q: Reg :: Differs(isnap, jsnap, q))
    && forall q: Reg :: Differs(isnap, jsnap, q) ==> IsClassified(l, Differing(isnap, jsnap), q)
  }

  lemma BenignIsClassified(l: Left, isnap: Gprs, jsnap: Gprs, othersDiffer: bool)
    ensures IsBenign(l, isnap, jsnap, othersDiffer) <==> AllClassified(l, isnap, jsnap, othersDiffer)
    ensures IsBenign(l, isnap, jsnap, othersDiffer)
            <==> !othersDiffer && Differing(isnap, jsnap) != []
                 && forall q: Reg :: Differs(isnap, jsnap, q) ==> TrackOf(l).taint[q].Some?
  {
    var t, gprs := TrackOf(l), Differing(isnap, jsnap);
    OneNoteEach(t, gprs);
    forall q: Reg
      ensures q in gprs <==> Differs(isnap, jsnap, q)
      ensures q in gprs ==> (IsClassified(l, gprs, q) <==> t.taint[q].Some?)
    {
      DifferingContents(isnap, jsnap, |isnap.low|, q);
      if q in gprs {
        NoteForTainted(t, gprs, q);
      }
    }
    if gprs != [] {
      assert gprs[0] in gprs;
    }
  }

  // ---- the walk ----

  /** What the machine is asked for at the n-th divergence: the general registers of the two
      streams there, whether anything else differs, and those at the entry of the block left. */
  datatype Snapshots = Snapshots(mem: u32 -> u32, interp: nat -> Gprs, jit: nat -> Gprs, othersDiffer: nat -> bool,
                                 entry: nat -> Option<Gprs>)

  function LeftAt(snaps: Snapshots, site: nat, left: nat, entered: nat): Left {
    Left(snaps.mem, Word(left), Word(entered), snaps.entry(site))
  }

  predicate FullyBenign(snaps: Snapshots, site: nat, left: nat, entered: nat) {
    IsBenign(LeftAt(snaps, site, left, entered), snaps.interp(site), snaps.jit(site), snaps.othersDiffer(site))
  }

  function Machine(loopOf: (nat, nat) -> (nat, nat), reloads: nat -> bool, snaps: Snapshots): Probes {
    Probes(loopOf, reloads, (site: nat, left: nat, entered: nat) => FullyBenign(snaps, site, left, entered))
  }

  /** The answer as the source computes it. */
  method Classify(snaps: Snapshots, site: nat, left: nat, entered: nat) returns (benign: bool)
    ensures benign == FullyBenign(snaps, site, left, entered)
  {
    var divergent_gprs := DivergentGprs(snaps.interp(site), snaps.jit(site));
    var notes := ClassifyCycleDerivedLoads(snaps.mem, Word(left), divergent_gprs, Word(entered),
                                           LowerHalves(snaps.entry(site)), MAX_INSNS);
    return divergent_gprs != [] && |notes| == |divergent_gprs| && !snaps.othersDiffer(site);
  }

  /** The walk asks nothing but the machine and the classifier, and an entry skipped for a timer
      comes from a divergence in which every differing register was classified and nothing
      else differed. */
  method WalkClassified(interp: Trace, jit: Trace, loopOf: (nat, nat) -> (nat, nat), reloads: nat -> bool,
                        snaps: Snapshots, census: bool)
    returns (stop: bool, outcome: Outcome, counts: Counts, ghost fates: seq<Fate>)
    ensures stop == outcome.Stops()
    ensures Explains(interp, jit, Machine(loopOf, reloads, snaps), census, outcome, counts, fates)
    ensures TimerSkipsClassified(snaps, fates)
  {
    ghost var ps;
    stop, outcome, counts, fates, ps := Walk(interp, jit, Machine(loopOf, reloads, snaps), census);
    TimerSkipsAreClassified(interp, jit, loopOf, reloads, snaps, census, outcome, counts, fates);
  }

  ghost predicate SkipClassified(snaps: Snapshots, site: nat, left: nat, entered: nat) {
    AllClassified(LeftAt(snaps, site, left, entered), snaps.interp(site), snaps.jit(site), snaps.othersDiffer(site))
  }

  ghost predicate TimerSkipsClassified(snaps: Snapshots, fates: seq<Fate>) {
    forall i | 0 <= i < |fates| && fates[i].Skipped? && fates[i].why.Timer? ::
      SkipClassified(snaps, fates[i].why.site, fates[i].why.left, fates[i].why.entered)
  }

  lemma TimerSkipsAreClassified(interp: Trace, jit: Trace, loopOf: (nat, nat) -> (nat, nat), reloads: nat -> bool,
                                snaps: Snapshots, census: bool, outcome: Outcome, counts: Counts, fates: seq<Fate>)
    requires Explains(interp, jit, Machine(loopOf, reloads, snaps), census, outcome, counts, fates)
    ensures TimerSkipsClassified(snaps, fates)
  {
    forall i | 0 <= i < |fates| && fates[i].Skipped? && fates[i].why.Timer?
      ensures SkipClassified(snaps, fates[i].why.site, fates[i].why.left, fates[i].why.entered)
    {
      var why := fates[i].why;
      SkipIsJustified(interp, jit, Machine(loopOf, reloads, snaps), census, outcome, counts, fates, i);
      BenignIsClassified(LeftAt(snaps, why.site, why.left, why.entered), snaps.interp(why.site), snaps.jit(why.site),
                         snaps.othersDiffer(why.site));
    }
  }
}

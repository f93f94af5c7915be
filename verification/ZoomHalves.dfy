/** When a benign verdict is right: every half of a register that differs between the two streams
    has a way back to a read of cycle-phase state. */
module ZoomHalves {
  import opened Bits
  import opened Ee
  import opened EePath
  import opened CycleTaint
  import opened CycleTaintSound
  import opened CycleTaintExact
  import opened CycleTaintLimits
  import opened CycleTaintHalves
  import opened ZoomClassified
  import opened Wrappers

  /** The interpreter ran from the entry of the block to where the divergence was seen, through
      the code the classifier walks, all of it clean. */
  ghost predicate IsRun(l: Left, path: seq<Where>, exec: seq<Gprs>) {
    && IsWidePath(l.mem, l.block, l.end, path, exec) && (l.entry.Some? ==> l.entry.value == exec[0])
    && IsBlock(l.mem, l.block, l.end, MAX_INSNS, 0, false, Codes(l.mem, path))
    && forall c | c in Codes(l.mem, path) :: IsClean(c)
  }

  /** That half of the register, at the end of the run, comes from a read. */
  ghost predicate IsExplained(l: Left, path: seq<Where>, exec: seq<Gprs>, q: Reg, high: bool)
    requires |path| == |exec| > 0
  {
    FlowsAtAll(l.block, Codes(l.mem, path), exec, |exec| - 1, q, high)
  }

  predicate DiffersIn(isnap: Gprs, jsnap: Gprs, q: Reg, high: bool) {
    if high then jsnap.high[q] != isnap.high[q] else jsnap.low[q] != isnap.low[q]
  }

  ghost predicate AllExplained(l: Left, path: seq<Where>, exec: seq<Gprs>, jsnap: Gprs)
    requires |path| == |exec| > 0
  {
    forall q: Reg, high: bool :: DiffersIn(exec[|exec| - 1], jsnap, q, high) ==> IsExplained(l, path, exec, q, high)
  }

  /** The last instruction to write the upper half of `q` is an LQ from cycle-phase state, or a
      parallel instruction that puts half of an operand there which comes from such a read. */
  ghost predicate UpperIsRead(l: Left, path: seq<Where>, exec: seq<Gprs>, q: Reg)
    requires |path| == |exec| > 0
  {
    var codes := Codes(l.mem, path);
    var k := LastUpper(codes, |codes|, q);
    q != 0 && k > 0 && TakesInAtAll(l.block, codes, exec, k - 1, true)
  }

  lemma UpperReadExactly(l: Left, path: seq<Where>, exec: seq<Gprs>, q: Reg)
    requires |path| == |exec| > 0
    ensures IsExplained(l, path, exec, q, true) <==> UpperIsRead(l, path, exec, q)
  {
    if q != 0 {
      UpperAtAll(l.block, Codes(l.mem, path), exec, |exec| - 1, q);
    }
  }

  /** The lower half of every register the classifier has tainted is explained. */
  lemma BenignDescends(l: Left, path: seq<Where>, exec: seq<Gprs>, q: Reg)
    requires IsRun(l, path, exec) && TrackOf(l).taint[q].Some?
    ensures var codes := Codes(l.mem, path);
            var n := |codes|;
            exists o :: Descends(l.block, codes, Lows(exec), n, q, o)
    ensures IsExplained(l, path, exec, q, false)
  {
    var codes, o, t := Codes(l.mem, path), TrackOf(l).taint[q].value, TrackOf(l);
    ReportContents(t, [q], q, o);
    ReportIsSoundOnPath(l.mem, l.block, l.end, MAX_INSNS, LowerHalves(l.entry), path, Lows(exec), [q], q, o);
    DescendsFlows(l.block, codes, exec, |codes|, q, o);
  }

  /** A benign verdict is right if and only if, for each register whose upper halves differ, the
      upper half comes from a read as well: the lower half always does. */
  lemma BenignExactly(l: Left, path: seq<Where>, exec: seq<Gprs>, jsnap: Gprs)
    requires IsRun(l, path, exec) && IsBenign(l, exec[|exec| - 1], jsnap, false)
    ensures AllExplained(l, path, exec, jsnap)
            <==> forall q: Reg :: DiffersIn(exec[|exec| - 1], jsnap, q, true) ==> UpperIsRead(l, path, exec, q)
  {
    var isnap := exec[|exec| - 1];
    BenignIsClassified(l, isnap, jsnap, false);
    forall q: Reg
      ensures IsExplained(l, path, exec, q, true) <==> UpperIsRead(l, path, exec, q)
      ensures DiffersIn(isnap, jsnap, q, false) ==> IsExplained(l, path, exec, q, false)
    {
      UpperReadExactly(l, path, exec, q);
      if DiffersIn(isnap, jsnap, q, false) {
        assert Differs(isnap, jsnap, q);
        BenignDescends(l, path, exec, q);
      }
    }
  }

  /** On a run through clean code the classifier never over-taints, whatever the recompiler has
      done, if and only if the upper half of each register it taints comes from a read. */
  lemma NeverOverTaintsExactly(l: Left, path: seq<Where>, exec: seq<Gprs>)
    requires IsRun(l, path, exec)
    ensures (forall jsnap: Gprs :: IsBenign(l, exec[|exec| - 1], jsnap, false) ==> AllExplained(l, path, exec, jsnap))
            <==> forall q: Reg :: TrackOf(l).taint[q].Some? ==> UpperIsRead(l, path, exec, q)
  {
    var isnap, t := exec[|exec| - 1], TrackOf(l);
    forall q: Reg | t.taint[q].Some? && !UpperIsRead(l, path, exec, q)
      ensures exists jsnap :: IsBenign(l, isnap, jsnap, false) && !AllExplained(l, path, exec, jsnap)
    {
      var jsnap := WrongUpper(l, path, exec, q);
      assert IsBenign(l, isnap, jsnap, false) && !AllExplained(l, path, exec, jsnap);
    }
    if forall q: Reg :: t.taint[q].Some? ==> UpperIsRead(l, path, exec, q) {
      forall jsnap: Gprs | IsBenign(l, isnap, jsnap, false)
        ensures AllExplained(l, path, exec, jsnap)
      {
        BenignExactly(l, path, exec, jsnap);
        BenignIsClassified(l, isnap, jsnap, false);
        assert forall q: Reg :: DiffersIn(isnap, jsnap, q, true) ==> Differs(isnap, jsnap, q);
      }
    }
  }

  /** A recompiler that gets one upper half wrong. */
  lemma WrongUpper(l: Left, path: seq<Where>, exec: seq<Gprs>, q: Reg) returns (jsnap: Gprs)
    requires IsRun(l, path, exec) && TrackOf(l).taint[q].Some? && !UpperIsRead(l, path, exec, q)
    ensures jsnap.low == exec[|exec| - 1].low
    ensures forall r: Reg :: r != q ==> jsnap.high[r] == exec[|exec| - 1].high[r]
    ensures IsBenign(l, exec[|exec| - 1], jsnap, false) && !IsExplained(l, path, exec, q, true)
    ensures !AllExplained(l, path, exec, jsnap)
  {
    var isnap := exec[|exec| - 1];
    jsnap := isnap.(high := isnap.high[q := if isnap.high[q] == 0 then 1 else 0]);
    assert DiffersIn(isnap, jsnap, q, true) && Differs(isnap, jsnap, q);
    DifferingContents(isnap, jsnap, |isnap.low|, q);
    assert q in Differing(isnap, jsnap);
    BenignIsClassified(l, isnap, jsnap, false);
    UpperReadExactly(l, path, exec, q);
  }

  /** A test on the entry snapshot and the code: where it tells, it tells what is so, and it does
      tell if the address of every load is a constant. */
  lemma UpperTestIsRight(l: Left, path: seq<Where>, exec: seq<Gprs>, q: Reg)
    requires IsRun(l, path, exec)
    ensures var codes := Codes(l.mem, path);
            var test := HalfTest(LowerHalves(l.entry), codes, |codes|, q, true);
            && (test.Some? ==> (UpperIsRead(l, path, exec, q) <==> test.value))
            && (AddressesKnown(LowerHalves(l.entry), codes) ==> test.Some?)
  {
    var codes := Codes(l.mem, path);
    PathExecutes(l.mem, l.block, l.end, path, Lows(exec));
    TestIsRight(LowerHalves(l.entry), l.block, codes, exec, |codes|, q, true);
    if AddressesKnown(LowerHalves(l.entry), codes) {
      TestTells(LowerHalves(l.entry), codes, |codes|, q, true);
    }
    UpperReadExactly(l, path, exec, q);
  }

  /** On code that moves no taint a benign verdict is always right. */
  lemma WholeCodeNeverOverTaints(l: Left, path: seq<Where>, exec: seq<Gprs>, jsnap: Gprs)
    requires IsRun(l, path, exec) && forall c | c in Codes(l.mem, path) :: MovesNoTaint(c)
    requires IsBenign(l, exec[|exec| - 1], jsnap, false)
    ensures AllExplained(l, path, exec, jsnap)
  {
    var codes, isnap := Codes(l.mem, path), exec[|exec| - 1];
    BenignExactly(l, path, exec, jsnap);
    BenignIsClassified(l, isnap, jsnap, false);
    PathExecutes(l.mem, l.block, l.end, path, Lows(exec));
    WalkedExactly(l.mem, l.block, l.end, MAX_INSNS, codes);
    assert codes[..|codes|] == codes;
    forall q: Reg | DiffersIn(isnap, jsnap, q, true)
      ensures UpperIsRead(l, path, exec, q)
    {
      assert Differs(isnap, jsnap, q);
      WholeWalk(LowerHalves(l.entry), l.block, codes, exec, |codes|, q);
      UpperReadExactly(l, path, exec, q);
    }
  }

  // ---- an upper half that is overlooked ----

  const PCPYLD_R2: u32 := 0x7064_1389      // pcpyld $2, $3, $4

  /** A parallel copy writes both halves of register 2, and a timer is then loaded into the lower
      one. A recompiler that copies the upper half wrongly is told that this is the timer. */
  lemma UpperHalfOverTaints() returns (l: Left, path: seq<Where>, exec: seq<Gprs>, jsnap: Gprs)
    ensures IsRun(l, path, exec) && Codes(l.mem, path) == [PCPYLD_R2, LW_R2_R1]
    ensures jsnap.low == exec[|exec| - 1].low
    ensures forall q: Reg :: q != 2 ==> jsnap.high[q] == exec[|exec| - 1].high[q]
    ensures IsBenign(l, exec[|exec| - 1], jsnap, false) && !IsExplained(l, path, exec, 2, true)
  {
    var codes, r := [PCPYLD_R2, LW_R2_R1], AtTimer(1);
    var g := Gprs(r, Zeros32());
    l := Left(Program(codes), 0, 8, Some(g));
    path, exec := [Where(0, None), Where(4, None), Where(8, None)], [g, g, g];
    CopyThenLoadRuns(codes, path, exec, r);
    CopyThenLoadTaints(codes, Start(Some(r)));
    WalkedProgram(codes, 8, 2);
    assert codes[..2] == codes;
    WalkedExactly(l.mem, 0, 8, MAX_INSNS, codes);
    CopyIsClean(codes);
    CopyIsNoRead(codes, exec);
    jsnap := WrongUpper(l, path, exec, 2);
  }

  lemma CopyThenLoadRuns(codes: seq<u32>, path: seq<Where>, exec: seq<Gprs>, r: Registers)
    requires codes == [PCPYLD_R2, LW_R2_R1] && r == AtTimer(1)
    requires path == [Where(0, None), Where(4, None), Where(8, None)]
    requires |exec| == 3 && forall i | 0 <= i < 3 :: exec[i] == Gprs(r, Zeros32())
    ensures IsWidePath(Program(codes), 0, 8, path, exec) && Codes(Program(codes), path) == codes
  {
    CopyRuns(codes[0], r);
    LoadRuns(codes[1], 4, r);
    AlongPath(codes, path, Lows(exec), 8);
  }

  lemma CopyRuns(code: u32, r: Registers)
    requires code == PCPYLD_R2 && r[0] == 0
    ensures Executes(code, r, r) && Goes(code, Where(0, None), r, Where(4, None))
  {
    GoesOn(code, 0, r);
  }

  lemma CopyThenLoadTaints(codes: seq<u32>, t: Track)
    requires codes == [PCPYLD_R2, LW_R2_R1] && t.Valid() && t.known[1] && t.regval[1] == 0x1000_0000
    ensures ObserveAll(t, codes, 0, 0).taint[2].Some? && EndsAt(codes, 8, 2)
  {
    Observed2(t, codes[0], codes[1]);
    CopyKeepsBase(t, codes[0]);
    CycleTaintLimits.LoadTaints(Observe(t, codes[0], 0), codes[1], 4);
  }

  lemma CopyKeepsBase(t: Track, code: u32)
    requires code == PCPYLD_R2 && t.Valid()
    ensures var u := Observe(t, code, 0);
            u.known[1] == t.known[1] && u.regval[1] == t.regval[1] && !IsEeBranchOpcode(code)
  {}

  lemma CopyIsClean(codes: seq<u32>)
    requires codes == [PCPYLD_R2, LW_R2_R1]
    ensures forall c | c in codes :: IsClean(c)
  {}

  lemma CopyIsNoRead(codes: seq<u32>, exec: seq<Gprs>)
    requires codes == [PCPYLD_R2, LW_R2_R1] && |exec| == 3
    ensures LastUpper(codes, |codes|, 2) == 1 && forall o :: !TakesIn(0, codes, exec, 0, true, o)
  {
    assert UpperTarget(codes[1]) == 0 && UpperTarget(codes[0]) == 2;
    assert !IsWideLoad(Op(codes[0])) && !IsMfc0Count(codes[0]);
  }
}

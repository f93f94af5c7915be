/** Registers have 128 bits, and the classifier has one taint for all of them: what a report says
    about the upper half of a register. */
module CycleTaintHalves {
  import opened Bits
  import opened Ee
  import opened EePath
  import opened CycleTaint
  import opened CycleTaintSound
  import opened CycleTaintExact
  import opened CycleTaintLimits
  import opened Wrappers

  // ---- where the halves of a register come from ----

  function HalfTarget(code: u32, high: bool): Reg {
    if high then UpperTarget(code) else LowerTarget(code)
  }

  /** A read of cycle-phase state, also by the narrow loads that the classifier passes over. */
  predicate IsPhaseRead(code: u32, r: Registers, pc: u32, o: Origin) {
    || IsSeed(code, r, pc, o)
    || (IsNarrowLoad(Op(code)) && IsCyclePhaseMmio(Address(code, r)) && o == OriginOfLoad(Address(code, r), pc))
  }

  /** That half of register `r` has a way, from half of one general register into half of another,
      back to a read of cycle-phase state. */
  ghost predicate Flows(block: u32, codes: seq<u32>, exec: seq<Gprs>, n: nat, r: Reg, high: bool, o: Origin)
    requires n <= |codes| <= |exec|
    decreases n, 0
  {
    n > 0 && r != 0 &&
    if HalfTarget(codes[n - 1], high) != r then Flows(block, codes, exec, n - 1, r, high, o)
    else TakesIn(block, codes, exec, n - 1, high, o)
  }

  /** Instruction `k` is such a read, or a half of an operand that comes from one goes into half
      `to` of its result. */
  ghost predicate TakesIn(block: u32, codes: seq<u32>, exec: seq<Gprs>, k: nat, to: bool, o: Origin)
    requires k < |codes| <= |exec|
    decreases k, 1
  {
    || IsPhaseRead(codes[k], exec[k].low, Pc(block, k), o)
    || exists s :: s in Operands(codes[k])
                   && ((GoesInto(codes[k], s, false, to) && Flows(block, codes, exec, k, s, false, o))
                       || (GoesInto(codes[k], s, true, to) && Flows(block, codes, exec, k, s, true, o)))
  }

  ghost predicate FlowsAtAll(block: u32, codes: seq<u32>, exec: seq<Gprs>, n: nat, q: Reg, high: bool)
    requires n <= |codes| <= |exec|
  {
    exists o :: Flows(block, codes, exec, n, q, high, o)
  }

  ghost predicate TakesInAtAll(block: u32, codes: seq<u32>, exec: seq<Gprs>, k: nat, to: bool)
    requires k < |codes| <= |exec|
  {
    exists o :: TakesIn(block, codes, exec, k, to, o)
  }

  /** A def-use chain of the lower halves is such a way. */
  lemma {:induction false} DescendsFlows(block: u32, codes: seq<u32>, exec: seq<Gprs>, n: nat, r: Reg, o: Origin)
    requires n <= |codes| <= |exec| && Descends(block, codes, Lows(exec), n, r, o)
    ensures Flows(block, codes, exec, n, r, false, o)
    decreases n
  {
    var code, m := codes[n - 1], n - 1;
    if Target(code) != r {
      DescendsFlows(block, codes, exec, m, r, o);
    } else if IsSeed(code, exec[m].low, Pc(block, m), o) {
      assert LowerTarget(code) == Target(code);
    } else {
      var s :| s in Sources(code) && Descends(block, codes, Lows(exec), m, s, o);
      DescendsFlows(block, codes, exec, m, s, o);
      SourcesAreOperands(code, s);
    }
  }

  lemma SourcesAreOperands(code: u32, s: Reg)
    requires s in Sources(code)
    ensures s in Operands(code) && GoesInto(code, s, false, false) && LowerTarget(code) == Target(code)
  {}

  /** One more than the place of the last instruction that writes the upper half of `r`; 0 when
      it is still that of the entry. */
  function LastUpper(codes: seq<u32>, n: nat, r: Reg): (k: nat)
    requires n <= |codes|
    ensures k <= n
  {
    if n == 0 then 0 else if UpperTarget(codes[n - 1]) == r then n else LastUpper(codes, n - 1, r)
  }

  /** The upper half depends on that instruction alone, whatever has been loaded into the register
      since. */
  lemma {:induction false} UpperExactly(block: u32, codes: seq<u32>, exec: seq<Gprs>, n: nat, r: Reg, o: Origin)
    requires n <= |codes| <= |exec| && r != 0
    ensures var k := LastUpper(codes, n, r);
            Flows(block, codes, exec, n, r, true, o) <==> k > 0 && TakesIn(block, codes, exec, k - 1, true, o)
    decreases n
  {
    if n > 0 && UpperTarget(codes[n - 1]) != r {
      UpperExactly(block, codes, exec, n - 1, r, o);
    }
  }

  lemma {:induction false} UpperAtAll(block: u32, codes: seq<u32>, exec: seq<Gprs>, n: nat, r: Reg)
    requires n <= |codes| <= |exec| && r != 0
    ensures var k := LastUpper(codes, n, r);
            FlowsAtAll(block, codes, exec, n, r, true) <==> k > 0 && TakesInAtAll(block, codes, exec, k - 1, true)
  {
    var k := LastUpper(codes, n, r);
    if FlowsAtAll(block, codes, exec, n, r, true) {
      var o :| Flows(block, codes, exec, n, r, true, o);
      UpperExactly(block, codes, exec, n, r, o);
    }
    if k > 0 && TakesInAtAll(block, codes, exec, k - 1, true) {
      var o :| TakesIn(block, codes, exec, k - 1, true, o);
      UpperExactly(block, codes, exec, n, r, o);
    }
  }

  // ---- which instructions keep a taint to what it covers ----

  /** A taint after the instruction covers the upper half as well: that of a register in
      `covered`, which has not been written, or one the instruction itself has read. */
  ghost predicate CoversUppers(u: Track, code: u32, pc: u32, r: Registers, covered: set<Reg>)
    requires u.Valid()
  {
    forall q: Reg :: u.taint[q].Some? ==> IsCovered(code, pc, r, covered, q)
  }

  ghost predicate IsCovered(code: u32, pc: u32, r: Registers, covered: set<Reg>, q: Reg) {
    if UpperTarget(code) == q then exists o :: IsSeed(code, r, pc, o) else q in covered
  }

  ghost predicate TaintedAreIn(t: Track, covered: set<Reg>)
    requires t.Valid()
  {
    forall q: Reg :: t.taint[q].Some? ==> q in covered
  }

  ghost predicate WholeStaysRight(t: Track, code: u32, pc: u32, r: Registers, after: Registers, covered: set<Reg>)
    requires t.Valid()
  {
    StaysRight(t, code, pc, r, after) && CoversUppers(Observe(t, code, pc), code, pc, r, covered)
  }

  /** From every right state in which the tainted registers are covered, and in every execution,
      the classifier stays right and what it taints is covered. */
  ghost predicate WholeStepIsRight(code: u32) {
    forall t: Track, pc: u32, r: Registers, after: Registers, covered: set<Reg> ::
      t.Valid() && KnowsValues(t, r) && Executes(code, r, after) && TaintedAreIn(t, covered)
      ==> WholeStaysRight(t, code, pc, r, after, covered)
  }

  /** The instruction moves no taint into another register and starts none, unless it is LQ. */
  predicate MovesNoTaint(code: u32) {
    var op, rs, rt, rd, fn := Op(code), Rs(code), Rt(code), Rd(code), Fn(code);
    if op == 0x1e then true
    else if IsWideLoad(op) then rt == 0 || rs == 0
    else if IsMfc0Count(code) then false
    else if IsImmediateOp(op) then rs == 0 || rs == rt
    else if op == 0x00 && IsAlu(fn) then
      if IsShiftImmediate(fn) then rt == 0 || rt == rd else (rs == 0 || rs == rd) && (rt == 0 || rt == rd)
    else true
  }

  /** On whole registers the classifier is right about fewer instructions, and exactly these: no
      load of 32 or 64 bits from a timer is among them. */
  lemma WholeExactly(code: u32)
    ensures WholeStepIsRight(code) <==> IsClean(code) && MovesNoTaint(code)
  {
    if !IsClean(code) {
      CleanExactly(code);
      NotRightNotWhole(code);
    } else if MovesNoTaint(code) {
      forall t: Track, pc: u32, r: Registers, after: Registers, covered: set<Reg>
        | t.Valid() && KnowsValues(t, r) && Executes(code, r, after) && TaintedAreIn(t, covered)
        ensures WholeStaysRight(t, code, pc, r, after, covered)
      {
        CleanStaysRight(t, code, pc, r, after);
        TaintStaysInPlace(t, code, pc, r, covered);
      }
    } else {
      var t, r, covered := TaintEscapes(code);
      var after := SomeResult(code, r);
      assert !WholeStaysRight(t, code, 0, r, after, covered);
    }
  }

  /** Every instruction has a result. */
  lemma SomeResult(code: u32, r: Registers) returns (after: Registers)
    requires r[0] == 0
    ensures Executes(code, r, after)
  {
    var op, s, k := Op(code), r[Rs(code)], SignedImm(code);
    var result: u64 :=
      if op == 0x0f then SignExtended(Imm(code) * 0x1_0000)
      else if op == 0x0d then Or64(s, Imm(code))
      else if op == 0x08 || op == 0x09 then SignExtended(Word(Word(s) + k))
      else if op == 0x18 || op == 0x19 then Double(s + k)
      else if op == 0x00 && Fn(code) == 0x25 then Or64(s, r[Rt(code)])
      else 0;
    after := if Target(code) == 0 then r else r[Target(code) := result];
  }

  lemma NotRightNotWhole(code: u32)
    requires !StepIsRight(code)
    ensures !WholeStepIsRight(code)
  {
    var t: Track, pc: u32, r: Registers, after: Registers :|
      t.Valid() && KnowsValues(t, r) && Executes(code, r, after) && !StaysRight(t, code, pc, r, after);
    var covered := set q: Reg | 0 <= q < 32 && t.taint[q].Some?;
    assert TaintedAreIn(t, covered) && !WholeStaysRight(t, code, pc, r, after, covered);
  }

  lemma TaintStaysInPlace(t: Track, code: u32, pc: u32, r: Registers, covered: set<Reg>)
    requires t.Valid() && KnowsValues(t, r) && IsClean(code) && MovesNoTaint(code)
    requires TaintedAreIn(t, covered)
    ensures CoversUppers(Observe(t, code, pc), code, pc, r, covered)
  {
    var u := Observe(t, code, pc);
    forall q: Reg | u.taint[q].Some?
      ensures IsCovered(code, pc, r, covered, q)
    {
      var o := u.taint[q].value;
      ObserveTaints(t, code, pc, r, q, o);
      if UpperTarget(code) == q {
        UpperTargetIsTarget(code);
        UpperHasNoSources(code);
        assert IsSeed(code, r, pc, o);
      } else {
        TaintWasThere(t, code, pc, r, q);
      }
    }
  }

  lemma UpperHasNoSources(code: u32)
    requires UpperTarget(code) != 0
    ensures Sources(code) == {}
  {}

  lemma TaintWasThere(t: Track, code: u32, pc: u32, r: Registers, q: Reg)
    requires t.Valid() && KnowsValues(t, r) && IsClean(code) && MovesNoTaint(code)
    requires UpperTarget(code) != q && Observe(t, code, pc).taint[q].Some?
    ensures t.taint[q].Some?
  {}

  /** A state, reached before the instruction, from which it taints a register whose upper half is
      not covered. */
  lemma TaintEscapes(code: u32) returns (t: Track, r: Registers, covered: set<Reg>)
    requires IsClean(code) && !MovesNoTaint(code)
    ensures t.Valid() && KnowsValues(t, r)
    ensures TaintedAreIn(t, covered)
    ensures !CoversUppers(Observe(t, code, 0), code, 0, r, covered)
  {
    r := Zeros32();
    if IsWideLoad(Op(code)) {
      t, r := LoadEscapes(code);
      covered := {};
    } else if Op(code) == 0x10 {
      t, covered := Untainted(), {};
      CountEscapes(code);
    } else {
      t, covered := MoveEscapes(code);
    }
  }

  lemma LoadEscapes(code: u32) returns (t: Track, r: Registers)
    requires IsClean(code) && !MovesNoTaint(code) && IsWideLoad(Op(code))
    ensures t.Valid() && KnowsValues(t, r) && forall q: Reg :: t.taint[q] == None
    ensures !CoversUppers(Observe(t, code, 0), code, 0, r, {})
  {
    var rs, base := Rs(code), Word(0x1000_0000 - SignedImm(code));
    r := Zeros32()[rs := base];
    t := Untainted().(regval := seq(32, _ => 0)[rs := base]);
    assert t.known[rs] && t.regval[rs] == base && Word(base + SignedImm(code)) == 0x1000_0000;
    assert Observe(t, code, 0).taint[Rt(code)].Some? && UpperTarget(code) == 0;
    assert !IsCovered(code, 0, r, {}, Rt(code));
  }

  lemma CountEscapes(code: u32)
    requires IsClean(code) && !MovesNoTaint(code) && Op(code) == 0x10
    ensures !CoversUppers(Observe(Untainted(), code, 0), code, 0, Zeros32(), {})
  {
    assert Observe(Untainted(), code, 0).taint[Rt(code)].Some? && UpperTarget(code) == 0;
    assert !IsCovered(code, 0, Zeros32(), {}, Rt(code));
  }

  /** A source other than the result is tainted. */
  lemma MoveEscapes(code: u32) returns (t: Track, covered: set<Reg>)
    requires IsClean(code) && !MovesNoTaint(code) && (Op(code) == 0x00 || IsImmediateOp(Op(code)))
    ensures t.Valid() && KnowsValues(t, Zeros32())
    ensures TaintedAreIn(t, covered)
    ensures !CoversUppers(Observe(t, code, 0), code, 0, Zeros32(), covered)
  {
    var rs, rt, rd := Rs(code), Rt(code), Rd(code);
    var d := if Op(code) == 0x00 then rd else rt;
    var s := if rs != 0 && rs != d then rs else rt;
    t, covered := Tainted(s, s), {s};
    assert Observe(t, code, 0).taint[d].Some? && UpperTarget(code) == 0 && d != 0;
    assert !IsCovered(code, 0, Zeros32(), covered, d);
  }

  // ---- what a block leaves in the upper halves ----

  /** Code that moves no taint leaves the upper half of every tainted register accounted for. */
  lemma {:induction false} WholeWalk(entry: Option<Registers>, block: u32, codes: seq<u32>, exec: seq<Gprs>, n: nat,
                                     q: Reg)
    requires n <= |codes| && IsExecution(codes, Lows(exec)) && (entry.Some? ==> entry.value == exec[0].low)
    requires forall c | c in codes :: IsClean(c) && MovesNoTaint(c)
    requires TrackAt(entry, block, codes, n).taint[q].Some?
    ensures FlowsAtAll(block, codes, exec, n, q, true)
    decreases n
  {
    NothingAtStart(entry, block, codes, q);
    if n > 0 {
      var code, m := codes[n - 1], n - 1;
      var t, pc, r := TrackAt(entry, block, codes, m), Pc(block, m), Lows(exec)[m];
      TrackStep(entry, block, codes, m);
      KnownSoFar(entry, block, codes, Lows(exec), m);
      assert code in codes;
      var covered := set s: Reg | 0 <= s < 32 && t.taint[s].Some?;
      TaintStaysInPlace(t, code, pc, r, covered);
      assert IsCovered(code, pc, r, covered, q);
      ObserveTaints(t, code, pc, r, q, TrackAt(entry, block, codes, n).taint[q].value);
      if UpperTarget(code) == q {
        var o :| IsSeed(code, r, pc, o);
        assert Flows(block, codes, exec, n, q, true, o);
      } else {
        WholeWalk(entry, block, codes, exec, m, q);
        var o :| Flows(block, codes, exec, m, q, true, o);
        assert Flows(block, codes, exec, n, q, true, o);
      }
    }
  }

  lemma NothingAtStart(entry: Option<Registers>, block: u32, codes: seq<u32>, q: Reg)
    ensures TrackAt(entry, block, codes, 0).taint[q] == None
  {
    assert codes[..0] == [];
  }

  /** Up to instruction `k` the constants held are those in the machine. */
  lemma KnownSoFar(entry: Option<Registers>, block: u32, codes: seq<u32>, exec: seq<Registers>, k: nat)
    requires k <= |codes| && IsExecution(codes, exec) && (entry.Some? ==> entry.value == exec[0])
    requires forall c | c in codes :: IsClean(c)
    ensures KnowsValues(TrackAt(entry, block, codes, k), exec[k])
  {
    var front, run := codes[..k], exec[..k + 1];
    forall i | 0 <= i < |front|
      ensures Executes(front[i], run[i], run[i + 1])
    {
      assert Executes(codes[i], exec[i], exec[i + 1]);
    }
    assert forall c | c in front :: c in codes;
    StartKnows(entry, exec[0]);
    assert front[0..] == front;
    WalkIsSound(Start(entry), block, front, run, 0);
  }

  // ---- a test on the entry snapshot and the code ----

  function Either(a: Option<bool>, b: Option<bool>): Option<bool> {
    if a == Some(true) || b == Some(true) then Some(true)
    else if a == Some(false) && b == Some(false) then Some(false)
    else None
  }

  /** Whether the instruction is a read, when its address is a constant that can be told. */
  function ReadTest(code: u32, base: Option<u32>): Option<bool> {
    if !IsWideLoad(Op(code)) && !IsNarrowLoad(Op(code)) then Some(IsMfc0Count(code))
    else if base == None then None
    else Some(IsCyclePhaseMmio(Word(base.value + SignedImm(code))))
  }

  /** Whether that half of `q` comes from a read: yes, no, or not to be told because it depends on
      a load from an address that is not a constant. */
  function HalfTest(entry: Option<Registers>, codes: seq<u32>, n: nat, q: Reg, high: bool): Option<bool>
    requires n <= |codes|
    decreases n, 0
  {
    if n == 0 || q == 0 then Some(false)
    else if HalfTarget(codes[n - 1], high) != q then HalfTest(entry, codes, n - 1, q, high)
    else TakesTest(entry, codes, n - 1, high)
  }

  function TakesTest(entry: Option<Registers>, codes: seq<u32>, k: nat, to: bool): Option<bool>
    requires k < |codes|
    decreases k, 2
  {
    var code := codes[k];
    Either(ReadTest(code, ConstantAt(entry, codes, k, Rs(code))),
           Either(OperandTest(entry, codes, k, Rs(code), to),
                  Either(OperandTest(entry, codes, k, Rt(code), to), OperandTest(entry, codes, k, Rd(code), to))))
  }

  function OperandTest(entry: Option<Registers>, codes: seq<u32>, k: nat, s: Reg, to: bool): Option<bool>
    requires k < |codes|
    decreases k, 1
  {
    if s !in Operands(codes[k]) then Some(false)
    else Either(if GoesInto(codes[k], s, false, to) then HalfTest(entry, codes, k, s, false) else Some(false),
                if GoesInto(codes[k], s, true, to) then HalfTest(entry, codes, k, s, true) else Some(false))
  }

  /** The address of every load is a constant of the snapshot and the code. */
  predicate AddressesKnown(entry: Option<Registers>, codes: seq<u32>) {
    forall k | 0 <= k < |codes| :: IsWideLoad(Op(codes[k])) || IsNarrowLoad(Op(codes[k]))
                                   ==> ConstantAt(entry, codes, k, Rs(codes[k])).Some?
  }

  /** Then the test always tells. */
  lemma {:induction false} TestTells(entry: Option<Registers>, codes: seq<u32>, n: nat, q: Reg, high: bool)
    requires n <= |codes| && AddressesKnown(entry, codes)
    ensures HalfTest(entry, codes, n, q, high).Some?
    decreases n
  {
    if n > 0 && q != 0 {
      var m := n - 1;
      forall s: Reg, from: bool
        ensures HalfTest(entry, codes, m, s, from).Some?
      {
        TestTells(entry, codes, m, s, from);
      }
      TakesTestTells(entry, codes, m, high);
    }
  }

  lemma EitherTells(a: Option<bool>, b: Option<bool>)
    requires a.Some? && b.Some?
    ensures Either(a, b) == Some(a.value || b.value)
  {
    assert a == Some(a.value) && b == Some(b.value);
  }

  lemma {:induction false} OperandTestTells(entry: Option<Registers>, codes: seq<u32>, k: nat, s: Reg, to: bool)
    requires k < |codes| && HalfTest(entry, codes, k, s, false).Some? && HalfTest(entry, codes, k, s, true).Some?
    ensures OperandTest(entry, codes, k, s, to).Some?
  {
    EitherTells(if GoesInto(codes[k], s, false, to) then HalfTest(entry, codes, k, s, false) else Some(false),
                if GoesInto(codes[k], s, true, to) then HalfTest(entry, codes, k, s, true) else Some(false));
  }

  lemma {:induction false} TakesTestTells(entry: Option<Registers>, codes: seq<u32>, k: nat, to: bool)
    requires k < |codes| && AddressesKnown(entry, codes)
    requires forall s: Reg, from: bool :: HalfTest(entry, codes, k, s, from).Some?
    ensures TakesTest(entry, codes, k, to).Some?
  {
    var code := codes[k];
    forall s: Reg
      ensures OperandTest(entry, codes, k, s, to).Some?
    {
      OperandTestTells(entry, codes, k, s, to);
    }
    var read := ReadTest(code, ConstantAt(entry, codes, k, Rs(code)));
    var rs, rt, rd := OperandTest(entry, codes, k, Rs(code), to), OperandTest(entry, codes, k, Rt(code), to),
                      OperandTest(entry, codes, k, Rd(code), to);
    EitherTells(rt, rd);
    EitherTells(rs, Either(rt, rd));
    EitherTells(read, Either(rs, Either(rt, rd)));
  }

  /** One of the operands brings it in. */
  ghost predicate OperandFlows(block: u32, codes: seq<u32>, exec: seq<Gprs>, k: nat, s: Reg, to: bool)
    requires k < |codes| <= |exec|
  {
    s in Operands(codes[k])
    && ((GoesInto(codes[k], s, false, to) && FlowsAtAll(block, codes, exec, k, s, false))
        || (GoesInto(codes[k], s, true, to) && FlowsAtAll(block, codes, exec, k, s, true)))
  }

  lemma TakesInParts(block: u32, codes: seq<u32>, exec: seq<Gprs>, k: nat, to: bool)
    requires k < |codes| <= |exec|
    ensures var code := codes[k];
            TakesInAtAll(block, codes, exec, k, to)
            <==> (exists o :: IsPhaseRead(code, exec[k].low, Pc(block, k), o))
                 || OperandFlows(block, codes, exec, k, Rs(code), to)
                 || OperandFlows(block, codes, exec, k, Rt(code), to)
                 || OperandFlows(block, codes, exec, k, Rd(code), to)
  {
    var code := codes[k];
    forall s: Reg | OperandFlows(block, codes, exec, k, s, to)
      ensures TakesInAtAll(block, codes, exec, k, to)
    {
      OperandIsTakenIn(block, codes, exec, k, s, to);
    }
    OperandsAreFields(code);
    if TakesInAtAll(block, codes, exec, k, to) {
      var o :| TakesIn(block, codes, exec, k, to, o);
      if !IsPhaseRead(code, exec[k].low, Pc(block, k), o) {
        var s :| s in Operands(code) && ((GoesInto(code, s, false, to) && Flows(block, codes, exec, k, s, false, o))
                                         || (GoesInto(code, s, true, to) && Flows(block, codes, exec, k, s, true, o)));
        assert OperandFlows(block, codes, exec, k, s, to);
      }
    }
    if o :| IsPhaseRead(code, exec[k].low, Pc(block, k), o) {
      assert TakesIn(block, codes, exec, k, to, o);
    }
  }

  lemma OperandIsTakenIn(block: u32, codes: seq<u32>, exec: seq<Gprs>, k: nat, s: Reg, to: bool)
    requires k < |codes| <= |exec| && OperandFlows(block, codes, exec, k, s, to)
    ensures TakesInAtAll(block, codes, exec, k, to)
  {
    var h := !(GoesInto(codes[k], s, false, to) && FlowsAtAll(block, codes, exec, k, s, false));
    var o :| Flows(block, codes, exec, k, s, h, o);
    assert TakesIn(block, codes, exec, k, to, o);
  }

  lemma OperandsAreFields(code: u32)
    ensures forall s :: s in Operands(code) ==> s == Rs(code) || s == Rt(code) || s == Rd(code)
  {}

  /** What the test tells is so, in every execution. */
  lemma {:induction false} TestIsRight(entry: Option<Registers>, block: u32, codes: seq<u32>, exec: seq<Gprs>, n: nat,
                                       q: Reg, high: bool)
    requires n <= |codes| && IsExecution(codes, Lows(exec)) && (entry.Some? ==> entry.value == exec[0].low)
    requires forall c | c in codes :: IsClean(c)
    ensures HalfTest(entry, codes, n, q, high) == Some(true) ==> FlowsAtAll(block, codes, exec, n, q, high)
    ensures HalfTest(entry, codes, n, q, high) == Some(false) ==> !FlowsAtAll(block, codes, exec, n, q, high)
    decreases n, 0
  {
    if n > 0 && q != 0 {
      var m := n - 1;
      if HalfTarget(codes[m], high) != q {
        TestIsRight(entry, block, codes, exec, m, q, high);
        SameBefore(block, codes, exec, n, q, high);
      } else {
        TakesTestIsRight(entry, block, codes, exec, m, high);
        WrittenHere(block, codes, exec, n, q, high);
      }
    }
  }

  lemma SameBefore(block: u32, codes: seq<u32>, exec: seq<Gprs>, n: nat, q: Reg, high: bool)
    requires 0 < n <= |codes| <= |exec| && q != 0 && HalfTarget(codes[n - 1], high) != q
    ensures FlowsAtAll(block, codes, exec, n, q, high) <==> FlowsAtAll(block, codes, exec, n - 1, q, high)
  {
    var m := n - 1;
    forall o
      ensures Flows(block, codes, exec, n, q, high, o) <==> Flows(block, codes, exec, m, q, high, o)
    {}
  }

  lemma WrittenHere(block: u32, codes: seq<u32>, exec: seq<Gprs>, n: nat, q: Reg, high: bool)
    requires 0 < n <= |codes| <= |exec| && q != 0 && HalfTarget(codes[n - 1], high) == q
    ensures FlowsAtAll(block, codes, exec, n, q, high) <==> TakesInAtAll(block, codes, exec, n - 1, high)
  {
    var m := n - 1;
    forall o
      ensures Flows(block, codes, exec, n, q, high, o) <==> TakesIn(block, codes, exec, m, high, o)
    {}
  }

  lemma {:induction false} TakesTestIsRight(entry: Option<Registers>, block: u32, codes: seq<u32>, exec: seq<Gprs>,
                                            k: nat, to: bool)
    requires k < |codes| && IsExecution(codes, Lows(exec)) && (entry.Some? ==> entry.value == exec[0].low)
    requires forall c | c in codes :: IsClean(c)
    ensures TakesTest(entry, codes, k, to) == Some(true) ==> TakesInAtAll(block, codes, exec, k, to)
    ensures TakesTest(entry, codes, k, to) == Some(false) ==> !TakesInAtAll(block, codes, exec, k, to)
    decreases k, 2
  {
    var code := codes[k];
    KnownSoFar(entry, block, codes, Lows(exec), k);
    KnownExactly(entry, block, codes, k, Rs(code));
    ReadTestIsRight(code, exec[k].low, Pc(block, k), ConstantAt(entry, codes, k, Rs(code)));
    OperandTestIsRight(entry, block, codes, exec, k, Rs(code), to);
    OperandTestIsRight(entry, block, codes, exec, k, Rt(code), to);
    OperandTestIsRight(entry, block, codes, exec, k, Rd(code), to);
    TakesInParts(block, codes, exec, k, to);
  }

  lemma {:induction false} OperandTestIsRight(entry: Option<Registers>, block: u32, codes: seq<u32>, exec: seq<Gprs>,
                                              k: nat, s: Reg, to: bool)
    requires k < |codes| && IsExecution(codes, Lows(exec)) && (entry.Some? ==> entry.value == exec[0].low)
    requires forall c | c in codes :: IsClean(c)
    ensures OperandTest(entry, codes, k, s, to) == Some(true) ==> OperandFlows(block, codes, exec, k, s, to)
    ensures OperandTest(entry, codes, k, s, to) == Some(false) ==> !OperandFlows(block, codes, exec, k, s, to)
    decreases k, 1
  {
    TestIsRight(entry, block, codes, exec, k, s, false);
    TestIsRight(entry, block, codes, exec, k, s, true);
  }

  lemma ReadTestIsRight(code: u32, r: Registers, pc: u32, base: Option<u32>)
    requires base.Some? ==> base.value == Word(r[Rs(code)])
    ensures ReadTest(code, base) == Some(true) ==> exists o :: IsPhaseRead(code, r, pc, o)
    ensures ReadTest(code, base) == Some(false) ==> forall o :: !IsPhaseRead(code, r, pc, o)
  {
    var a := Address(code, r);
    AlignmentKeepsMmio(a);
    if (IsWideLoad(Op(code)) || IsNarrowLoad(Op(code))) && IsCyclePhaseMmio(a) {
      LoadIsRead(code, r, pc, a);
    }
    if IsMfc0Count(code) {
      assert IsPhaseRead(code, r, pc, CopCount(pc));
    }
  }

  lemma LoadIsRead(code: u32, r: Registers, pc: u32, a: u32)
    requires IsWideLoad(Op(code)) || IsNarrowLoad(Op(code))
    requires a == Address(code, r) && IsCyclePhaseMmio(a) && IsCyclePhaseMmio(a - a % 16)
    ensures IsPhaseRead(code, r, pc, OriginOfLoad(a, pc))
  {}
}

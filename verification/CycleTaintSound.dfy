/** Under-tainting is the safe failure mode: the lower 64 bits of a register the classifier reports
    really descend from a cycle-phase read, for every way the block can execute. What that says
    of the upper 64 bits is in `CycleTaintHalves`. */
module CycleTaintSound {
  import opened Bits
  import opened Ee
  import opened CycleTaint
  import opened Wrappers

  /** The instruction reads a value that depends on the cycle phase: a load whose
      actual address is a timer or transfer register, or the COP0 cycle counter. */
  predicate IsSeed(code: u32, r: Registers, pc: u32, o: Origin) {
    || (IsWideLoad(Op(code)) && IsCyclePhaseMmio(Accessed(code, r))
        && IsCyclePhaseMmio(Address(code, r)) && o == OriginOfLoad(Address(code, r), pc))
    || (IsMfc0Count(code) && o == CopCount(pc))
  }

  /** The address that reaches memory: LQ aligns it down to 16 bytes. */
  function Accessed(code: u32, r: Registers): u32 {
    if Op(code) == 0x1e then Address(code, r) - Address(code, r) % 16 else Address(code, r)
  }

  /** The value `r` has before instruction `n` was last written by a cycle-phase read,
      or by data flow from a register that descended from one. `exec[i]` are the
      registers before instruction `i`. */
  ghost predicate Descends(block: u32, codes: seq<u32>, exec: seq<Registers>, n: nat, r: Reg, o: Origin)
    requires n <= |codes| <= |exec|
    decreases n
  {
    n > 0 && r != 0 &&
    var code := codes[n - 1];
    if Target(code) != r then Descends(block, codes, exec, n - 1, r, o)
    else
      || IsSeed(code, exec[n - 1], Pc(block, n - 1), o)
      || exists q :: q in Sources(code) && Descends(block, codes, exec, n - 1, q, o)
  }

  /** `exec` is an execution of `codes`, one instruction after the other. */
  ghost predicate IsExecution(codes: seq<u32>, exec: seq<Registers>) {
    && |exec| == |codes| + 1
    && exec[0][0] == 0
    && forall i | 0 <= i < |codes| :: Executes(codes[i], exec[i], exec[i + 1])
  }

  /** The instructions the classifier is right about, whatever it knows so far. The others are
      the linking REGIMM branches (their write of r31 is overlooked), values computed or
      loaded into $zero (which the classifier keeps), `mtsa` (taken for an operation with a
      result) and encodings that name registers the machine ignores. */
  predicate IsClean(code: u32) {
    var op, rs, rt, rd, fn := Op(code), Rs(code), Rt(code), Rd(code), Fn(code);
    if op == 0x01 then !(0x10 <= rt <= 0x13)
    else if IsWideLoad(op) || op == 0x0a || op == 0x0b || op == 0x0c || op == 0x0e then rt != 0 || rs == 0
    else if op == 0x0f then rt != 0 || Imm(code) == 0
    else if IsImmediateOp(op) then rt != 0 || (rs == 0 && Imm(code) == 0)
    else if IsMfc0Count(code) then rt != 0
    else if op == 0x00 && IsAlu(fn) then
      if IsShiftImmediate(fn) then rt == 0 || (rd != 0 && (rs == 0 || rs == rt))
      else if fn == 0x28 then rs == 0 && rt == 0                                          // MFSA
      else if fn == 0x29 then (rs == 0 || rs == rd) && (rt == 0 || rt == rd)              // MTSA
      else rd != 0 || (rs == 0 && rt == 0)
    else true
  }

  /** Every constant the classifier holds is the low word of the register. */
  ghost predicate KnowsValues(t: Track, r: Registers)
    requires t.Valid()
  {
    && r[0] == 0 && t.taint[0] == None
    && forall q: Reg :: t.known[q] ==> t.regval[q] == Word(r[q])
  }

  /** ADDI, ADDIU, DADDI and DADDIU add alike on low words. */
  lemma AddsAlike(code: u32, r: Registers, after: Registers)
    requires Op(code) == 0x08 || Op(code) == 0x09 || Op(code) == 0x18 || Op(code) == 0x19
    requires Executes(code, r, after) && (Rt(code) != 0 || (Rs(code) == 0 && Imm(code) == 0))
    ensures Word(after[Rt(code)]) == Word(Word(r[Rs(code)]) + SignedImm(code))
  {
    LowWords(r[Rs(code)], 0, Word(Word(r[Rs(code)]) + SignedImm(code)), SignedImm(code));
  }

  lemma LoadsUpperAlike(code: u32, r: Registers, after: Registers)
    requires Op(code) == 0x0f && Executes(code, r, after) && (Rt(code) != 0 || Imm(code) == 0)
    ensures Word(after[Rt(code)]) == Imm(code) * 0x1_0000
  {
    LowWords(0, 0, Imm(code) * 0x1_0000, 0);
  }

  lemma OrsImmediateAlike(code: u32, r: Registers, after: Registers)
    requires Op(code) == 0x0d && Executes(code, r, after) && (Rt(code) != 0 || (Rs(code) == 0 && Imm(code) == 0))
    ensures Word(after[Rt(code)]) == Or32(Word(r[Rs(code)]), Imm(code))
  {
    if Rt(code) != 0 {
      assert after[Rt(code)] == Or64(r[Rs(code)], Imm(code));
      OrLowImmediate(r[Rs(code)], Imm(code));
    }
  }

  lemma OrLowImmediate(a: u64, imm: u32)
    ensures Word(Or64(a, imm)) == Or32(Word(a), imm)
  {
    var b: u64 := imm;
    assert Word(b) == imm;
    LowOr(a, b);
  }

  lemma OrsAlike(code: u32, r: Registers, after: Registers)
    requires Op(code) == 0x00 && Fn(code) == 0x25 && Executes(code, r, after)
    requires Rd(code) == 0 ==> Rs(code) == 0 && Rt(code) == 0
    ensures Word(after[Rd(code)]) == Or32(Word(r[Rs(code)]), Word(r[Rt(code)]))
  {
    if Rd(code) != 0 {
      LowWords(r[Rs(code)], r[Rt(code)], 0, 0);
    }
  }

  lemma ObserveKnows(t: Track, code: u32, pc: u32, r: Registers, after: Registers)
    requires t.Valid() && KnowsValues(t, r) && IsClean(code) && Executes(code, r, after)
    ensures KnowsValues(Observe(t, code, pc), after)
  {
    var u, d := Observe(t, code, pc), Written(code);
    if d.Some? && u.known[d.value] {
      ConstantIsRight(t, code, pc, r, after);
    }
    forall q: Reg | u.known[q]
      ensures u.regval[q] == Word(after[q])
    {
      WrittenCovers(t, code, pc, q);
    }
    WrittenCovers(t, code, pc, 0);
    ZeroStaysClean(t, code, pc);
  }

  lemma ZeroStaysClean(t: Track, code: u32, pc: u32)
    requires t.Valid() && t.taint[0] == None && (t.known[0] ==> t.regval[0] == 0) && IsClean(code)
    ensures Observe(t, code, pc).taint[0] == None
  {}

  /** The register the classifier updates. */
  function Written(code: u32): Option<Reg> {
    var op := Op(code);
    if op == 0x00 || op == 0x1c then Some(Rd(code))
    else if op == 0x03 then Some(31)
    else if IsWideLoad(op) || IsNarrowLoad(op) || IsImmediateOp(op) || op == 0x0f || 0x10 <= op <= 0x12
    then Some(Rt(code))
    else None
  }

  /** Leaves alone what it does not update, and updates what the machine may change. */
  lemma WrittenCovers(t: Track, code: u32, pc: u32, q: Reg)
    requires t.Valid() && IsClean(code)
    ensures Target(code) == q && q != 0 ==> Written(code) == Some(q)
    ensures Written(code) != Some(q) ==>
              var u := Observe(t, code, pc);
              u.known[q] == t.known[q] && u.regval[q] == t.regval[q] && u.taint[q] == t.taint[q]
  {}

  lemma ConstantIsRight(t: Track, code: u32, pc: u32, r: Registers, after: Registers)
    requires t.Valid() && KnowsValues(t, r) && IsClean(code) && Executes(code, r, after)
    requires Written(code).Some? && Observe(t, code, pc).known[Written(code).value]
    ensures Observe(t, code, pc).regval[Written(code).value] == Word(after[Written(code).value])
  {
    var op := Op(code);
    if op == 0x08 || op == 0x09 || op == 0x18 || op == 0x19 {
      AddsAlike(code, r, after);
    } else if op == 0x0f {
      LoadsUpperAlike(code, r, after);
    } else if op == 0x0d {
      OrsImmediateAlike(code, r, after);
    } else if op == 0x00 && Fn(code) == 0x25 {
      OrsAlike(code, r, after);
    }
  }

  /** A taint after the instruction is one that was there and has not been overwritten,
      one that flowed in from a source register, or one that starts here. */
  lemma ObserveTaints(t: Track, code: u32, pc: u32, r: Registers, q: Reg, o: Origin)
    requires t.Valid() && KnowsValues(t, r) && IsClean(code)
    requires Observe(t, code, pc).taint[q] == Some(o)
    ensures q != 0
    ensures if Target(code) != q then t.taint[q] == Some(o)
            else IsSeed(code, r, pc, o) || exists s :: s in Sources(code) && t.taint[s] == Some(o)
  {
    if Op(code) == 0 {
      AluTaints(t, code, pc, q, o);
    } else if IsImmediateOp(Op(code)) {
      ImmediateTaints(t, code, pc, q, o);
    } else if IsWideLoad(Op(code)) {
      LoadTaints(t, code, pc, r, q, o);
    } else {
      OtherTaints(t, code, pc, q, o);
    }
  }

  lemma ImmediateTaints(t: Track, code: u32, pc: u32, q: Reg, o: Origin)
    requires t.Valid() && t.taint[0] == None && IsClean(code) && IsImmediateOp(Op(code))
    requires Observe(t, code, pc).taint[q] == Some(o)
    ensures q != 0
    ensures if Target(code) != q then t.taint[q] == Some(o)
            else exists s :: s in Sources(code) && t.taint[s] == Some(o)
  {
    if Target(code) == q {
      assert Rs(code) in Sources(code);
    }
  }

  lemma LoadTaints(t: Track, code: u32, pc: u32, r: Registers, q: Reg, o: Origin)
    requires t.Valid() && KnowsValues(t, r) && IsClean(code) && IsWideLoad(Op(code))
    requires Observe(t, code, pc).taint[q] == Some(o)
    ensures q != 0
    ensures if Target(code) != q then t.taint[q] == Some(o) else IsSeed(code, r, pc, o)
  {
    if Target(code) == q {
      assert t.known[Rs(code)] && t.regval[Rs(code)] == Word(r[Rs(code)]);
      AlignmentKeepsMmio(Address(code, r));
    }
  }

  lemma AlignmentKeepsMmio(a: u32)
    ensures IsCyclePhaseMmio(a) ==> IsCyclePhaseMmio(a - a % 16)
  {}

  lemma OtherTaints(t: Track, code: u32, pc: u32, q: Reg, o: Origin)
    requires t.Valid() && t.taint[0] == None && IsClean(code)
    requires Op(code) != 0 && !IsImmediateOp(Op(code)) && !IsWideLoad(Op(code))
    requires Observe(t, code, pc).taint[q] == Some(o)
    ensures q != 0
    ensures if Target(code) != q then t.taint[q] == Some(o) else IsMfc0Count(code) && o == CopCount(pc)
  {}

  lemma AluTaints(t: Track, code: u32, pc: u32, q: Reg, o: Origin)
    requires t.Valid() && t.taint[0] == None && IsClean(code) && Op(code) == 0
    requires Observe(t, code, pc).taint[q] == Some(o)
    ensures q != 0
    ensures if Target(code) != q then t.taint[q] == Some(o)
            else exists s :: s in Sources(code) && t.taint[s] == Some(o)
  {
    if Target(code) == q != 0 {
      var s := if t.taint[Rs(code)] == Some(o) then Rs(code) else Rt(code);
      assert t.taint[s] == Some(o) && s != 0;
      assert s in Sources(code);
    }
  }

  /** From a point of the block where the classifier is right, it stays right. */
  lemma {:induction false} WalkIsSound(t: Track, block: u32, codes: seq<u32>, exec: seq<Registers>, i: nat)
    requires IsExecution(codes, exec) && i <= |codes| && forall c | c in codes :: IsClean(c)
    requires t.Valid() && KnowsValues(t, exec[i])
    requires forall q: Reg, o :: t.taint[q] == Some(o) ==> Descends(block, codes, exec, i, q, o)
    ensures var u := ObserveAll(t, codes[i..], block, i);
            && KnowsValues(u, exec[|codes|])
            && forall q: Reg, o :: u.taint[q] == Some(o) ==> Descends(block, codes, exec, |codes|, q, o)
    decreases |codes| - i
  {
    if i < |codes| {
      var code, pc := codes[i], Pc(block, i);
      assert code in codes;
      var u := Observe(t, code, pc);
      ObserveKnows(t, code, pc, exec[i], exec[i + 1]);
      forall q: Reg, o | u.taint[q] == Some(o)
        ensures Descends(block, codes, exec, i + 1, q, o)
      {
        ObserveTaints(t, code, pc, exec[i], q, o);
      }
      assert codes[i..][1..] == codes[i + 1..];
      WalkIsSound(u, block, codes, exec, i + 1);
    }
  }

  /** Soundness. If the instructions executed between the entry of the block and the
      observation are the ones the walk looks at, all of them clean, then in every
      execution from the entry snapshot each register reported descends from the very
      read it is reported with, and each constant the classifier holds is right. */
  lemma ReportIsSound(mem: u32 -> u32, block: u32, end: u32, maxInsns: nat, entry: Option<Registers>,
                      gprs: seq<Reg>, executed: seq<u32>, exec: seq<Registers>, r: Reg, o: Origin)
    requires executed == Walked(mem, block, end, maxInsns, 0, false)
    requires forall c | c in executed :: IsClean(c)
    requires IsExecution(executed, exec) && (entry.Some? ==> entry.value == exec[0])
    requires (r, o) in Report(ObserveAll(Start(entry), executed, block, 0), gprs)
    ensures r in gprs && Descends(block, executed, exec, |executed|, r, o)
    ensures KnowsValues(ObserveAll(Start(entry), executed, block, 0), exec[|executed|])
  {
    var u := ObserveAll(Start(entry), executed, block, 0);
    ReportContents(u, gprs, r, o);
    assert executed[0..] == executed;
    StartKnows(entry, exec[0]);
    WalkIsSound(Start(entry), block, executed, exec, 0);
  }

  lemma StartKnows(entry: Option<Registers>, r: Registers)
    requires r[0] == 0 && (entry.Some? ==> entry.value == r)
    ensures KnowsValues(Start(entry), r)
    ensures forall q: Reg :: Start(entry).taint[q] == None
  {}

  /** A chain has a root: some executed instruction made the read named by the origin. */
  lemma {:induction false} ChainHasRoot(block: u32, codes: seq<u32>, exec: seq<Registers>, n: nat, r: Reg, o: Origin)
    requires n <= |codes| <= |exec| && Descends(block, codes, exec, n, r, o)
    ensures exists i :: 0 <= i < n && IsSeed(codes[i], exec[i], Pc(block, i), o)
    decreases n
  {
    var code := codes[n - 1];
    if Target(code) != r {
      ChainHasRoot(block, codes, exec, n - 1, r, o);
    } else if !IsSeed(code, exec[n - 1], Pc(block, n - 1), o) {
      var q :| q in Sources(code) && Descends(block, codes, exec, n - 1, q, o);
      ChainHasRoot(block, codes, exec, n - 1, q, o);
    }
  }
}

/** Which instructions the classifier is right about, as far as the lower 64 bits of a register
    go, and what exactly it reports: both directions. */
module CycleTaintExact {
  import opened Bits
  import opened Ee
  import opened CycleTaint
  import opened CycleTaintSound
  import opened Wrappers

  // ---- right about one instruction ----

  /** A taint after the instruction belongs there: it was there and the register has not been
      written, it flowed in from a source, or the instruction is the read it names. */
  ghost predicate Justified(t: Track, code: u32, pc: u32, r: Registers, q: Reg, o: Origin)
    requires t.Valid()
  {
    q != 0 && if Target(code) != q then t.taint[q] == Some(o)
              else IsSeed(code, r, pc, o) || exists s :: s in Sources(code) && t.taint[s] == Some(o)
  }

  ghost predicate StaysRight(t: Track, code: u32, pc: u32, r: Registers, after: Registers)
    requires t.Valid()
  {
    KnowsValues(Observe(t, code, pc), after) && AllJustified(t, Observe(t, code, pc), code, pc, r)
  }

  ghost predicate AllJustified(t: Track, u: Track, code: u32, pc: u32, r: Registers)
    requires t.Valid() && u.Valid()
  {
    forall q: Reg, o: Origin :: u.taint[q] == Some(o) ==> Justified(t, code, pc, r, q, o)
  }

  /** Right constants stay right and no taint appears without a reason, from every right state
      and in every execution of the instruction. */
  ghost predicate StepIsRight(code: u32) {
    forall t: Track, pc: u32, r: Registers, after: Registers ::
      t.Valid() && KnowsValues(t, r) && Executes(code, r, after) ==> StaysRight(t, code, pc, r, after)
  }

  /** On lower halves the classifier is right about exactly the clean instructions. */
  lemma CleanExactly(code: u32)
    ensures StepIsRight(code) <==> IsClean(code)
  {
    if IsClean(code) {
      forall t: Track, pc: u32, r: Registers, after: Registers
        | t.Valid() && KnowsValues(t, r) && Executes(code, r, after)
        ensures StaysRight(t, code, pc, r, after)
      {
        CleanStaysRight(t, code, pc, r, after);
      }
    } else {
      var t, pc, r, after := GoesWrong(code);
      assert !StaysRight(t, code, pc, r, after);
    }
  }

  lemma CleanStaysRight(t: Track, code: u32, pc: u32, r: Registers, after: Registers)
    requires t.Valid() && KnowsValues(t, r) && Executes(code, r, after) && IsClean(code)
    ensures StaysRight(t, code, pc, r, after)
  {
    ObserveKnows(t, code, pc, r, after);
    forall q: Reg, o | Observe(t, code, pc).taint[q] == Some(o)
      ensures Justified(t, code, pc, r, q, o)
    {
      ObserveTaints(t, code, pc, r, q, o);
    }
  }

  // ---- a right state and an execution in which an unclean instruction goes wrong ----

  function Zeros32(): (r: Registers) {
    seq(32, _ => 0)
  }

  const FIRST := CopCount(0)
  const SECOND := CopCount(4)

  /** The state that knows all registers to be zero, but for `a` and `b`, which are tainted. */
  function Tainted(a: Reg, b: Reg): (t: Track)
    ensures t.Valid() && (a != 0 && b != 0 ==> KnowsValues(t, Zeros32()))
  {
    Track(seq(32, _ => 0), seq(32, _ => true),
          seq(32, i requires 0 <= i < 32 => if i == a then Some(FIRST) else if i == b then Some(SECOND) else None))
  }

  function Untainted(): (t: Track)
    ensures t.Valid() && KnowsValues(t, Zeros32())
  {
    Track(seq(32, _ => 0), seq(32, _ => true), seq(32, _ => None))
  }

  lemma GoesWrong(code: u32) returns (t: Track, pc: u32, r: Registers, after: Registers)
    requires !IsClean(code)
    ensures t.Valid() && KnowsValues(t, r) && Executes(code, r, after) && !StaysRight(t, code, pc, r, after)
  {
    var op := Op(code);
    pc, r, after := 0, Zeros32(), Zeros32();
    if op == 0x01 {
      t, after := LinkGoesWrong(code);
    } else if IsWideLoad(op) {
      t, r := LoadGoesWrong(code);
      after := r;
    } else if op == 0x0f {
      t := Untainted();
      UpperGoesWrong(code);
    } else if IsImmediateOp(op) {
      t := ImmediateGoesWrong(code);
    } else if op == 0x10 {
      t := Untainted();
      CountGoesWrong(code);
    } else {
      t := AluGoesWrong(code);
    }
  }

  lemma LinkGoesWrong(code: u32) returns (t: Track, after: Registers)
    requires !IsClean(code) && Op(code) == 0x01
    ensures t.Valid() && KnowsValues(t, Zeros32()) && Executes(code, Zeros32(), after)
            && !StaysRight(t, code, 0, Zeros32(), after)
  {
    t, after := Untainted(), Zeros32()[31 := 8];
    assert Observe(t, code, 0) == t;
    assert t.known[31] && t.regval[31] == 0 && Word(after[31]) == 8;
  }

  /** The base is such that the address is that of timer 0. */
  lemma LoadGoesWrong(code: u32) returns (t: Track, r: Registers)
    requires !IsClean(code) && IsWideLoad(Op(code))
    ensures t.Valid() && KnowsValues(t, r) && Executes(code, r, r) && !StaysRight(t, code, 0, r, r)
  {
    var rs, base := Rs(code), Word(0x1000_0000 - SignedImm(code));
    r := Zeros32()[rs := base];
    t := Untainted().(regval := seq(32, _ => 0)[rs := base]);
    assert t.known[rs] && t.regval[rs] == base && Word(base + SignedImm(code)) == 0x1000_0000;
    assert Observe(t, code, 0).taint[0].Some?;
  }

  lemma UpperGoesWrong(code: u32)
    requires !IsClean(code) && Op(code) == 0x0f
    ensures Executes(code, Zeros32(), Zeros32()) && !StaysRight(Untainted(), code, 0, Zeros32(), Zeros32())
  {
    var u := Observe(Untainted(), code, 0);
    assert u.known[0] && u.regval[0] == Imm(code) * 0x1_0000;
  }

  lemma CountGoesWrong(code: u32)
    requires !IsClean(code) && Op(code) == 0x10
    ensures Executes(code, Zeros32(), Zeros32()) && !StaysRight(Untainted(), code, 0, Zeros32(), Zeros32())
  {
    assert Observe(Untainted(), code, 0).taint[0].Some?;
  }

  lemma ImmediateGoesWrong(code: u32) returns (t: Track)
    requires !IsClean(code) && IsImmediateOp(Op(code))
    ensures t.Valid() && KnowsValues(t, Zeros32()) && Executes(code, Zeros32(), Zeros32())
            && !StaysRight(t, code, 0, Zeros32(), Zeros32())
  {
    var rs := Rs(code);
    if rs != 0 {
      t := Tainted(rs, rs);
      assert Observe(t, code, 0).taint[0] == t.taint[rs];
    } else {
      t := Untainted();
      OrWithZero(Imm(code));
      var u := Observe(t, code, 0);
      assert u.known[0] && u.regval[0] != 0;
    }
  }

  lemma OrWithZero(imm: u32)
    ensures Or32(0, imm) == imm
  {
    Pow2Values();
    OrOfZero(imm);
  }

  lemma {:induction false} OrOfZero(n: nat)
    ensures Or(0, n) == n
  {
    if n > 0 {
      OrOfZero(n / 2);
    }
  }

  lemma AluGoesWrong(code: u32) returns (t: Track)
    requires !IsClean(code) && Op(code) == 0x00
    ensures t.Valid() && KnowsValues(t, Zeros32()) && Executes(code, Zeros32(), Zeros32())
            && !StaysRight(t, code, 0, Zeros32(), Zeros32())
  {
    var rs, rt, rd, fn := Rs(code), Rt(code), Rd(code), Fn(code);
    if IsShiftImmediate(fn) {
      t := ShiftGoesWrong(code);
    } else if fn == 0x28 || fn == 0x29 {
      t := SaGoesWrong(code);
    } else {
      var s := if rs != 0 then rs else rt;
      t := Tainted(s, s);
      assert Observe(t, code, 0).taint[0].Some?;
    }
  }

  lemma ShiftGoesWrong(code: u32) returns (t: Track)
    requires !IsClean(code) && Op(code) == 0x00 && IsShiftImmediate(Fn(code))
    ensures t.Valid() && KnowsValues(t, Zeros32()) && Executes(code, Zeros32(), Zeros32())
            && !StaysRight(t, code, 0, Zeros32(), Zeros32())
  {
    var rs, rt, rd := Rs(code), Rt(code), Rd(code);
    if rd == 0 {
      t := Tainted(rt, rt);
      assert Observe(t, code, 0).taint[0].Some?;
    } else {
      t := Tainted(rs, rt);
      assert Observe(t, code, 0).taint[rd] == Some(FIRST) && t.taint[rt] == Some(SECOND);
      assert !Justified(t, code, 0, Zeros32(), rd, FIRST);
    }
  }

  /** MFSA and MTSA: the register that is not a source is tainted. */
  lemma SaGoesWrong(code: u32) returns (t: Track)
    requires !IsClean(code) && Op(code) == 0x00 && (Fn(code) == 0x28 || Fn(code) == 0x29)
    ensures t.Valid() && KnowsValues(t, Zeros32()) && Executes(code, Zeros32(), Zeros32())
            && !StaysRight(t, code, 0, Zeros32(), Zeros32())
  {
    var rs, rt, rd := Rs(code), Rt(code), Rd(code);
    var s := if rs != 0 && (Fn(code) == 0x28 || rs != rd) then rs else rt;
    t := Tainted(s, s);
    assert Observe(t, code, 0).taint[rd] == Some(FIRST);
    assert rd != 0 ==> !Justified(t, code, 0, Zeros32(), rd, FIRST);
  }

  // ---- what is reported, exactly ----

  /** What the snapshot and the code before instruction `n` say about the low word of `r`: a
      constant built by `lui`, `ori`, `or` and the immediate additions from registers of which
      the same can be said. Any other write into its field leaves it open; so does a `nop`
      for $zero, which it names as its result. */
  function ConstantAt(entry: Option<Registers>, codes: seq<u32>, n: nat, r: Reg): Option<u32>
    requires n <= |codes|
    decreases n
  {
    if n == 0 then
      if r == 0 then Some(0) else if entry.Some? then Some(Word(entry.value[r])) else None
    else
      var code, m := codes[n - 1], n - 1;
      if Written(code) != Some(r) then ConstantAt(entry, codes, m, r)
      else Built(code, ConstantAt(entry, codes, m, Rs(code)), ConstantAt(entry, codes, m, Rt(code)))
  }

  /** The constant an instruction builds from those in its source registers. */
  function Built(code: u32, s: Option<u32>, t: Option<u32>): Option<u32> {
    var op := Op(code);
    if op == 0x0f then Some(Imm(code) * 0x1_0000)
    else if op == 0x0d then if s.Some? then Some(Or32(s.value, Imm(code))) else None
    else if op == 0x08 || op == 0x09 || op == 0x18 || op == 0x19 then
      if s.Some? then Some(Word(s.value + SignedImm(code))) else None
    else if op == 0x00 && Fn(code) == 0x25 then
      if s.Some? && t.Some? then Some(Or32(s.value, t.value)) else None
    else None
  }

  /** A read of cycle-phase state at an address that is such a constant. */
  predicate Reads(code: u32, base: Option<u32>) {
    || (IsWideLoad(Op(code)) && base.Some? && IsCyclePhaseMmio(Word(base.value + SignedImm(code))))
    || IsMfc0Count(code)
  }

  /** The registers taken for inputs. MTSA is, although it has no result. */
  function Inputs(code: u32): set<Reg> {
    if Op(code) == 0x00 && Fn(code) == 0x29 then {Rs(code), Rt(code)} else Sources(code)
  }

  /** The last write into `r` before instruction `n` was such a read, or took in a register
      that carried one. */
  ghost predicate Carries(entry: Option<Registers>, codes: seq<u32>, n: nat, r: Reg)
    requires n <= |codes|
    decreases n
  {
    n > 0 && r != 0 &&
    var code, m := codes[n - 1], n - 1;
    if Written(code) != Some(r) then Carries(entry, codes, m, r)
    else Reads(code, ConstantAt(entry, codes, m, Rs(code)))
         || exists q :: q in Inputs(code) && Carries(entry, codes, m, q)
  }

  function TrackAt(entry: Option<Registers>, block: u32, codes: seq<u32>, n: nat): (t: Track)
    requires n <= |codes|
    ensures t.Valid()
  {
    ObserveAll(Start(entry), codes[..n], block, 0)
  }

  lemma {:induction false} ObserveJoin(t: Track, a: seq<u32>, b: seq<u32>, block: u32, i: nat)
    requires t.Valid()
    ensures ObserveAll(t, a + b, block, i) == ObserveAll(ObserveAll(t, a, block, i), b, block, i + |a|)
    decreases |a|
  {
    if a == [] {
      assert a + b == b;
    } else {
      assert (a + b)[0] == a[0] && (a + b)[1..] == a[1..] + b;
      ObserveJoin(Observe(t, a[0], Pc(block, i)), a[1..], b, block, i + 1);
    }
  }

  lemma OneObserved(t: Track, code: u32, block: u32, i: nat)
    requires t.Valid()
    ensures ObserveAll(t, [code], block, i) == Observe(t, code, Pc(block, i))
  {
    assert [code][1..] == [];
  }

  lemma TrackStep(entry: Option<Registers>, block: u32, codes: seq<u32>, n: nat)
    requires n < |codes|
    ensures TrackAt(entry, block, codes, n + 1) == Observe(TrackAt(entry, block, codes, n), codes[n], Pc(block, n))
  {
    assert codes[..n + 1] == codes[..n] + [codes[n]];
    ObserveJoin(Start(entry), codes[..n], [codes[n]], block, 0);
    OneObserved(TrackAt(entry, block, codes, n), codes[n], block, n);
  }

  /** The constants after one instruction, whichever it is. */
  lemma ObserveBuilds(t: Track, code: u32, pc: u32, r: Reg)
    requires t.Valid()
    ensures Constant(Observe(t, code, pc), r)
            == if Written(code) != Some(r) then Constant(t, r)
              else Built(code, Constant(t, Rs(code)), Constant(t, Rt(code)))
  {}

  /** The classifier knows exactly the constants that the snapshot and the code give. */
  lemma {:induction false} KnownExactly(entry: Option<Registers>, block: u32, codes: seq<u32>, n: nat, r: Reg)
    requires n <= |codes|
    ensures Constant(TrackAt(entry, block, codes, n), r) == ConstantAt(entry, codes, n, r)
    decreases n
  {
    if n == 0 {
      assert codes[..0] == [];
    } else {
      var code, m := codes[n - 1], n - 1;
      TrackStep(entry, block, codes, m);
      ObserveBuilds(TrackAt(entry, block, codes, m), code, Pc(block, m), r);
      KnownExactly(entry, block, codes, m, r);
      KnownExactly(entry, block, codes, m, Rs(code));
      KnownExactly(entry, block, codes, m, Rt(code));
    }
  }

  /** Nothing more and nothing less flows in one step. */
  lemma ObserveExactly(t: Track, code: u32, pc: u32, r: Reg)
    requires t.Valid() && t.taint[0] == None && (t.known[0] ==> t.regval[0] == 0) && IsClean(code) && r != 0
    ensures Observe(t, code, pc).taint[r].Some?
            <==> if Written(code) != Some(r) then t.taint[r].Some?
                 else Reads(code, Constant(t, Rs(code))) || exists q :: q in Inputs(code) && t.taint[q].Some?
  {
    WrittenCovers(t, code, pc, r);
    if Written(code) == Some(r) {
      if Op(code) == 0 {
        AluExactly(t, code, pc, r);
      } else if IsImmediateOp(Op(code)) {
        assert Inputs(code) == {Rs(code)};
        assert t.taint[Rs(code)].Some? ==> Rs(code) in Inputs(code);
      } else {
        assert Inputs(code) == {};
      }
    }
  }

  lemma AluExactly(t: Track, code: u32, pc: u32, r: Reg)
    requires t.Valid() && t.taint[0] == None && IsClean(code) && r != 0 && Op(code) == 0 && Rd(code) == r
    ensures Observe(t, code, pc).taint[r].Some? <==> exists q :: q in Inputs(code) && t.taint[q].Some?
  {
    var fn := Fn(code);
    if IsShiftImmediate(fn) {
      assert Inputs(code) == {Rt(code)} && Rt(code) in Inputs(code);
    } else if IsShiftVariable(fn) || IsTwoSource(fn) || fn == 0x29 {
      assert Inputs(code) == {Rs(code), Rt(code)} && Rs(code) in Inputs(code) && Rt(code) in Inputs(code);
    } else {
      assert Inputs(code) == {};
    }
  }

  lemma {:induction false} TaintedExactly(entry: Option<Registers>, block: u32, codes: seq<u32>, n: nat)
    requires n <= |codes| && forall c | c in codes :: IsClean(c)
    ensures var t := TrackAt(entry, block, codes, n);
            && t.taint[0] == None && (t.known[0] ==> t.regval[0] == 0)
            && forall r: Reg :: t.taint[r].Some? <==> Carries(entry, codes, n, r)
    decreases n
  {
    if n == 0 {
      assert codes[..0] == [];
    } else {
      var code, m := codes[n - 1], n - 1;
      assert code in codes;
      TaintedExactly(entry, block, codes, m);
      TrackStep(entry, block, codes, m);
      var t, u := TrackAt(entry, block, codes, m), TrackAt(entry, block, codes, n);
      ZeroStaysClean(t, code, Pc(block, m));
      ZeroStaysZero(t, code, Pc(block, m));
      KnownExactly(entry, block, codes, m, Rs(code));
      forall r: Reg
        ensures u.taint[r].Some? <==> Carries(entry, codes, n, r)
      {
        if r != 0 {
          ObserveExactly(t, code, Pc(block, m), r);
        }
      }
    }
  }

  lemma ZeroStaysZero(t: Track, code: u32, pc: u32)
    requires t.Valid() && (t.known[0] ==> t.regval[0] == 0) && IsClean(code)
    ensures Observe(t, code, pc).known[0] ==> Observe(t, code, pc).regval[0] == 0
  {
    OrWithZero(0);
  }

  /** On clean blocks a register asked about is reported if and only if it carries a read whose
      address the snapshot and the code give. */
  lemma ReportIsExact(entry: Option<Registers>, block: u32, codes: seq<u32>, gprs: seq<Reg>, r: Reg)
    requires forall c | c in codes :: IsClean(c)
    ensures (exists o :: (r, o) in Report(ObserveAll(Start(entry), codes, block, 0), gprs))
            <==> r in gprs && Carries(entry, codes, |codes|, r)
  {
    var u := ObserveAll(Start(entry), codes, block, 0);
    assert codes[..|codes|] == codes;
    TaintedExactly(entry, block, codes, |codes|);
    forall o
      ensures (r, o) in Report(u, gprs) <==> r in gprs && u.taint[r] == Some(o)
    {
      ReportContents(u, gprs, r, o);
    }
    if u.taint[r].Some? {
      assert u.taint[r] == Some(u.taint[r].value);
    }
  }
}

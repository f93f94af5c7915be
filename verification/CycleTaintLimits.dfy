/** Blocks on which the classifier reports a register whose lower half holds no cycle-phase value,
    each with a path the machine takes through it; and when the walk looks at what the machine
    runs. */
module CycleTaintLimits {
  import opened Bits
  import opened Ee
  import opened EePath
  import opened CycleTaint
  import opened CycleTaintSound
  import opened CycleTaintExact
  import opened Wrappers

  /** Code at address 0. */
  function Program(codes: seq<u32>): u32 -> u32 {
    (a: u32) => if a / 4 < |codes| then codes[a / 4] else 0
  }

  /** Entered at 0 with the registers of its snapshot, the machine runs along `path` to `end`,
      and register `q` is reported although on that path it descends from no read at all. */
  ghost predicate WronglyReports(codes: seq<u32>, end: u32, path: seq<Where>, exec: seq<Registers>, q: Reg) {
    && IsPath(Program(codes), 0, end, path, exec)
    && (var t := ObserveAll(Start(Some(exec[0])), Walked(Program(codes), 0, end, 48, 0, false), 0, 0);
        exists o :: (q, o) in Report(t, [q]))
    && NoChain(Codes(Program(codes), path), exec, q)
  }

  ghost predicate NoChain(codes: seq<u32>, exec: seq<Registers>, q: Reg) {
    var n := |codes|;
    n <= |exec| && forall o :: !Descends(0, codes, exec, n, q, o)
  }

  /** All zero but for register `q`, which points at timer 0. */
  function AtTimer(q: Reg): (r: Registers)
    requires q != 0
    ensures r[0] == 0 && r[q] == 0x1000_0000
  {
    Zeros32()[q := 0x1000_0000]
  }

  // ---- the walk over a program ----

  /** The walk ends behind instruction `n`: nothing stops it before, and there it must. */
  predicate EndsAt(codes: seq<u32>, end: u32, n: nat) {
    && n <= |codes| && n <= 48 && 0 < 4 * n <= end
    && (forall k | 0 <= k < n - 2 :: !IsEeBranchOpcode(codes[k]))
    && (4 * n == end || (n >= 2 && IsEeBranchOpcode(codes[n - 2])))
  }

  lemma WalkedProgram(codes: seq<u32>, end: u32, n: nat)
    requires EndsAt(codes, end, n)
    ensures Walked(Program(codes), 0, end, 48, 0, false) == codes[..n]
  {
    var mem, w := Program(codes), codes[..n];
    ProgramIsCode(codes, end, n);
    assert n >= 2 ==> w[n - 2] == codes[n - 2];
    assert IsWhole(0, end, 48, n, false, w);
    WalkedExactly(mem, 0, end, 48, w);
  }

  lemma ProgramIsCode(codes: seq<u32>, end: u32, n: nat)
    requires EndsAt(codes, end, n)
    ensures IsCodeAt(Program(codes), 0, end, 48, 0, codes[..n]) && NoEarlyBranch(codes[..n])
  {
    var mem, w := Program(codes), codes[..n];
    forall p {:trigger Pc(0, p)} | 0 <= p < n
      ensures w[p - 0] == mem(Pc(0, p)) && !WalkEnds(0, end, 48, p)
    {
      ProgramAt(codes, p, Pc(0, p));
    }
  }

  lemma Observed2(t: Track, a: u32, b: u32)
    requires t.Valid()
    ensures ObserveAll(t, [a, b], 0, 0) == Observe(Observe(t, a, 0), b, 4)
  {
    ObserveJoin(t, [a], [b], 0, 0);
    OneObserved(t, a, 0, 0);
    OneObserved(Observe(t, a, 0), b, 0, 1);
    assert [a] + [b] == [a, b];
  }

  lemma Observed3(t: Track, a: u32, b: u32, c: u32)
    requires t.Valid()
    ensures ObserveAll(t, [a, b, c], 0, 0) == Observe(Observe(Observe(t, a, 0), b, 4), c, 8)
  {
    ObserveJoin(t, [a, b], [c], 0, 0);
    Observed2(t, a, b);
    OneObserved(ObserveAll(t, [a, b], 0, 0), c, 0, 2);
    assert [a, b] + [c] == [a, b, c];
  }

  lemma Reported(codes: seq<u32>, end: u32, n: nat, path: seq<Where>, exec: seq<Registers>, q: Reg)
    requires IsPath(Program(codes), 0, end, path, exec) && EndsAt(codes, end, n)
    requires ObserveAll(Start(Some(exec[0])), codes[..n], 0, 0).taint[q].Some?
    requires NoChain(Codes(Program(codes), path), exec, q)
    ensures WronglyReports(codes, end, path, exec, q)
  {
    WalkedProgram(codes, end, n);
    var t := ObserveAll(Start(Some(exec[0])), codes[..n], 0, 0);
    ReportContents(t, [q], q, t.taint[q].value);
  }

  // ---- where the walk and the machine see the same ----

  lemma PathExecutes(mem: u32 -> u32, block: u32, end: u32, path: seq<Where>, exec: seq<Registers>)
    requires IsPath(mem, block, end, path, exec)
    ensures IsExecution(Codes(mem, path), exec)
  {
    var codes := Codes(mem, path);
    forall i | 0 <= i < |codes|
      ensures Executes(codes[i], exec[i], exec[i + 1])
    {
      assert codes[i] == mem(path[i].pc);
    }
  }

  /** Soundness on the paths of the machine, for lower halves. The report is right if the path runs through the
      block in order, the walk ends where it ends, and all it runs is clean: nothing that looks
      like a branch comes before the last two instructions, `end` is not inside, and the path
      has reached `end`, the delay slot of its branch or the limit. */
  lemma ReportIsSoundOnPath(mem: u32 -> u32, block: u32, end: u32, maxInsns: nat, entry: Option<Registers>,
                            path: seq<Where>, exec: seq<Registers>, gprs: seq<Reg>, r: Reg, o: Origin)
    requires IsPath(mem, block, end, path, exec) && (entry.Some? ==> entry.value == exec[0])
    requires IsBlock(mem, block, end, maxInsns, 0, false, Codes(mem, path))
    requires forall c | c in Codes(mem, path) :: IsClean(c)
    requires var t := ObserveAll(Start(entry), Walked(mem, block, end, maxInsns, 0, false), block, 0);
             (r, o) in Report(t, gprs)
    ensures r in gprs && Descends(block, Codes(mem, path), exec, |exec| - 1, r, o)
  {
    var codes := Codes(mem, path);
    WalkedExactly(mem, block, end, maxInsns, codes);
    PathExecutes(mem, block, end, path, exec);
    ReportIsSound(mem, block, end, maxInsns, entry, gprs, codes, exec, r, o);
  }

  const LW_ZERO_R1: u32 := 0x8C20_0000     // lw $0, 0($1)
  const MOVE_R2_R3: u32 := 0x0003_1021     // addu $2, $0, $3
  const LW_R2_R1: u32 := 0x8C22_0000       // lw $2, 0($1)
  const LW_R2_R31: u32 := 0x8FE2_0000      // lw $2, 0($31)
  const LW_R5_R1: u32 := 0x8C25_0000       // lw $5, 0($1)
  const MTSA_R5: u32 := 0x00A0_0029        // mtsa $5
  const LUI_R2: u32 := 0x3C02_0000         // lui $2, 0
  const BLTZAL_ZERO: u32 := 0x0410_0000    // bltzal $0
  const TGEI_ZERO_1: u32 := 0x0408_0001    // tgei $0, 1
  const BNEL_ZERO: u32 := 0x5400_0001      // bnel $0, $0
  const BEQ_BACK: u32 := 0x1000_FFFE       // beq $0, $0, back to the instruction before it
  const NOP: u32 := 0

  // ---- what single instructions do in the machine ----

  /** An instruction that is no branch and raises nothing goes on with the next. */
  lemma GoesOn(code: u32, pc: u32, r: Registers)
    requires !IsBranch(code) && !IsReturn(code) && !Traps(code, r) && pc < 0x1000
    ensures Goes(code, Where(pc, None), r, Where(pc + 4, None))
  {}

  lemma LoadRuns(code: u32, pc: u32, r: Registers)
    requires code == LW_ZERO_R1 || code == LW_R2_R1 || code == LW_R2_R31 || code == LW_R5_R1
    requires r[0] == 0 && pc < 0x1000
    ensures Executes(code, r, r) && Goes(code, Where(pc, None), r, Where(pc + 4, None))
  {
    GoesOn(code, pc, r);
  }

  lemma PlainRuns(code: u32, pc: u32, r: Registers)
    requires code == MOVE_R2_R3 || code == MTSA_R5 || code == LUI_R2 || code == NOP || code == TGEI_ZERO_1
    requires r[0] == 0 && r[2] == 0 && pc < 0x1000
    ensures Executes(code, r, r) && Goes(code, Where(pc, None), r, Where(pc + 4, None))
  {
    GoesOn(code, pc, r);
  }

  /** The steps of a path that runs through the whole program once. */
  lemma AlongPath(codes: seq<u32>, path: seq<Where>, exec: seq<Registers>, end: u32)
    requires |codes| <= 8 && |path| == |exec| == |codes| + 1 && exec[0][0] == 0
    requires path[0] == Where(0, None) && path[|codes|] == Where(end, None)
    requires forall i | 0 <= i < |codes| :: path[i].pc == 4 * i
    requires forall i | 0 <= i < |codes| ::
               Executes(codes[i], exec[i], exec[i + 1]) && Goes(codes[i], path[i], exec[i], path[i + 1])
    ensures IsPath(Program(codes), 0, end, path, exec) && Codes(Program(codes), path) == codes
  {
    var mem := Program(codes);
    forall i | 0 <= i < |path| - 1
      ensures mem(path[i].pc) == codes[i]
    {
      ProgramAt(codes, i, path[i].pc);
    }
    var found := Codes(mem, path);
    assert forall i | 0 <= i < |codes| :: found[i] == codes[i];
  }

  /** A program of three instructions that change nothing. */
  lemma ThreeInARow(codes: seq<u32>, r: Registers) returns (path: seq<Where>, exec: seq<Registers>)
    requires |codes| == 3 && r[0] == 0
    requires Executes(codes[0], r, r) && Goes(codes[0], Where(0, None), r, Where(4, None))
    requires Executes(codes[1], r, r) && Goes(codes[1], Where(4, None), r, Where(8, None))
    requires Executes(codes[2], r, r) && Goes(codes[2], Where(8, None), r, Where(12, None))
    ensures exec == [r, r, r, r] && |path| == 4
    ensures IsPath(Program(codes), 0, 12, path, exec) && Codes(Program(codes), path) == codes
  {
    path, exec := [Where(0, None), Where(4, None), Where(8, None), Where(12, None)], [r, r, r, r];
    AlongPath(codes, path, exec, 12);
  }

  lemma ProgramAt(codes: seq<u32>, i: nat, pc: u32)
    requires i < |codes| && pc == 4 * i
    ensures Program(codes)(pc) == codes[i]
  {}

  // ---- values loaded into $zero ----

  /** Register 2 is reported although it holds register 3, which nothing has touched. */
  lemma LoadIntoZeroOverTaints() returns (path: seq<Where>, exec: seq<Registers>)
    ensures WronglyReports([LW_ZERO_R1, MOVE_R2_R3], 8, path, exec, 2)
  {
    var codes, r := [LW_ZERO_R1, MOVE_R2_R3], AtTimer(1);
    path, exec := [Where(0, None), Where(4, None), Where(8, None)], [r, r, r];
    LoadRuns(codes[0], 0, r);
    PlainRuns(codes[1], 4, r);
    AlongPath(codes, path, exec, 8);
    MoveOfZeroTainted(codes, Start(Some(r)));
    MoveHasNoChain(codes, exec);
    assert codes[..2] == codes;
    Reported(codes, 8, 2, path, exec, 2);
  }

  lemma MoveOfZeroTainted(codes: seq<u32>, t: Track)
    requires codes == [LW_ZERO_R1, MOVE_R2_R3]
    requires t.Valid() && t.known[1] && t.regval[1] == 0x1000_0000
    ensures ObserveAll(t, codes, 0, 0).taint[2].Some? && EndsAt(codes, 8, 2)
  {
    Observed2(t, codes[0], codes[1]);
    LoadTaints(t, codes[0], 0);
    MoveTaints(Observe(t, codes[0], 0), codes[1], 4);
  }

  lemma LoadTaints(t: Track, code: u32, pc: u32)
    requires code == LW_ZERO_R1 || code == LW_R2_R1 || code == LW_R5_R1
    requires t.Valid() && t.known[1] && t.regval[1] == 0x1000_0000
    ensures Observe(t, code, pc).taint[Rt(code)].Some?
  {}

  lemma MoveTaints(t: Track, code: u32, pc: u32)
    requires code == MOVE_R2_R3 && t.Valid() && t.taint[0].Some?
    ensures Observe(t, code, pc).taint[2].Some?
  {}

  lemma MoveHasNoChain(codes: seq<u32>, exec: seq<Registers>)
    requires codes == [LW_ZERO_R1, MOVE_R2_R3] && |exec| == 3
    ensures NoChain(codes, exec, 2)
  {
    forall o
      ensures !Descends(0, codes, exec, 2, 2, o)
    {
      assert Sources(codes[1]) == {0, 3} && Target(codes[0]) == 0;
      assert !Descends(0, codes, exec, 1, 3, o) && !Descends(0, codes, exec, 1, 0, o);
    }
  }

  // ---- a linking branch ----

  /** The branch is not taken and links all the same: the load reads at the return address. */
  lemma LinkingBranchOverTaints() returns (path: seq<Where>, exec: seq<Registers>)
    ensures WronglyReports([BLTZAL_ZERO, LW_R2_R31], 8, path, exec, 2)
  {
    var codes, r := [BLTZAL_ZERO, LW_R2_R31], AtTimer(31);
    var linked: Registers := r[31 := 8];
    path, exec := [Where(0, None), Where(4, None), Where(8, None)], [r, linked, linked];
    LinkRuns(codes[0], r, linked);
    LoadRuns(codes[1], 4, linked);
    AlongPath(codes, path, exec, 8);
    LinkOverlooked(codes, Start(Some(r)));
    ReturnAddressHasNoChain(codes, exec);
    assert codes[..2] == codes;
    Reported(codes, 8, 2, path, exec, 2);
  }

  lemma LinkRuns(code: u32, r: Registers, linked: Registers)
    requires code == BLTZAL_ZERO && r[0] == 0 && linked == r[31 := 8]
    ensures Executes(code, r, linked) && Goes(code, Where(0, None), r, Where(4, None))
  {}

  lemma LinkOverlooked(codes: seq<u32>, t: Track)
    requires codes == [BLTZAL_ZERO, LW_R2_R31]
    requires t.Valid() && t.known[31] && t.regval[31] == 0x1000_0000
    ensures ObserveAll(t, codes, 0, 0).taint[2].Some? && EndsAt(codes, 8, 2)
  {
    Observed2(t, codes[0], codes[1]);
    LeavesAlone(t, codes[0]);
    assert Observe(t, codes[1], 4).taint[2].Some?;
  }

  lemma ReturnAddressHasNoChain(codes: seq<u32>, exec: seq<Registers>)
    requires codes == [BLTZAL_ZERO, LW_R2_R31] && |exec| == 3 && exec[1][31] == 8
    ensures NoChain(codes, exec, 2)
  {
    assert Address(codes[1], exec[1]) == 8;
    assert Target(codes[1]) == 2 && Sources(codes[1]) == {};
  }

  // ---- MTSA ----

  /** The classifier takes `mtsa` for an operation with a result and moves the taint of its
      source into $zero. */
  lemma MtsaOverTaints() returns (path: seq<Where>, exec: seq<Registers>)
    ensures WronglyReports([LW_R5_R1, MTSA_R5, MOVE_R2_R3], 12, path, exec, 2)
  {
    var codes, r := [LW_R5_R1, MTSA_R5, MOVE_R2_R3], AtTimer(1);
    LoadRuns(codes[0], 0, r);
    PlainRuns(codes[1], 4, r);
    PlainRuns(codes[2], 8, r);
    path, exec := ThreeInARow(codes, r);
    MtsaTainted(codes, Start(Some(r)));
    MtsaHasNoChain(codes, exec);
    assert codes[..3] == codes;
    Reported(codes, 12, 3, path, exec, 2);
  }

  lemma MtsaTainted(codes: seq<u32>, t: Track)
    requires codes == [LW_R5_R1, MTSA_R5, MOVE_R2_R3]
    requires t.Valid() && t.known[1] && t.regval[1] == 0x1000_0000
    ensures ObserveAll(t, codes, 0, 0).taint[2].Some? && EndsAt(codes, 12, 3)
  {
    MtsaThenMove(t, codes[0], codes[1], codes[2]);
    LoadTaints(t, codes[0], 0);
  }

  lemma MtsaThenMove(t: Track, load: u32, mtsa: u32, move: u32)
    requires t.Valid() && Observe(t, load, 0).taint[5].Some? && mtsa == MTSA_R5 && move == MOVE_R2_R3
    ensures ObserveAll(t, [load, mtsa, move], 0, 0).taint[2].Some?
  {
    Observed3(t, load, mtsa, move);
    var u := Observe(t, load, 0);
    MtsaTaints(u, mtsa, 4);
    MoveTaints(Observe(u, mtsa, 4), move, 8);
  }

  lemma MtsaTaints(t: Track, code: u32, pc: u32)
    requires code == MTSA_R5 && t.Valid() && t.taint[5].Some?
    ensures Observe(t, code, pc).taint[0].Some?
  {}

  lemma MtsaHasNoChain(codes: seq<u32>, exec: seq<Registers>)
    requires codes == [LW_R5_R1, MTSA_R5, MOVE_R2_R3] && |exec| == 4
    ensures NoChain(codes, exec, 2)
  {
    forall o
      ensures !Descends(0, codes, exec, 3, 2, o)
    {
      assert Sources(codes[2]) == {0, 3} && Target(codes[1]) == 0 && Target(codes[0]) == 5;
      assert !Descends(0, codes, exec, 1, 3, o);
      assert !Descends(0, codes, exec, 2, 3, o) && !Descends(0, codes, exec, 2, 0, o);
    }
  }

  // ---- blocks of which the walk sees too little or too much ----

  /** The walk takes a trap-immediate instruction, which does not trap here, for the branch
      that ends the block, and never sees the `lui` that overwrites the load. */
  lemma TrapImmediateEndsWalk() returns (path: seq<Where>, exec: seq<Registers>)
    ensures WronglyReports([TGEI_ZERO_1, LW_R2_R1, LUI_R2], 12, path, exec, 2)
  {
    var codes, r := [TGEI_ZERO_1, LW_R2_R1, LUI_R2], AtTimer(1);
    PlainRuns(codes[0], 0, r);
    LoadRuns(codes[1], 4, r);
    PlainRuns(codes[2], 8, r);
    path, exec := ThreeInARow(codes, r);
    LoadBehindTainted(codes[..2], Start(Some(r)));
    OverwriteHasNoChain(codes, exec, 2);
    Reported(codes, 12, 2, path, exec, 2);
  }

  lemma LoadBehindTainted(codes: seq<u32>, t: Track)
    requires codes == [TGEI_ZERO_1, LW_R2_R1] || codes == [BNEL_ZERO, LW_R2_R1]
    requires t.Valid() && t.known[1] && t.regval[1] == 0x1000_0000
    ensures ObserveAll(t, codes, 0, 0).taint[2].Some? && IsEeBranchOpcode(codes[0])
  {
    Observed2(t, codes[0], codes[1]);
    LeavesAlone(t, codes[0]);
    LoadTaints(t, codes[1], 4);
  }

  lemma LeavesAlone(t: Track, code: u32)
    requires t.Valid() && (code == TGEI_ZERO_1 || code == BNEL_ZERO || code == BLTZAL_ZERO)
    ensures Observe(t, code, 0) == t && IsEeBranchOpcode(code)
  {}

  /** The last instruction to write register 2 is the `lui` at `k`. */
  lemma OverwriteHasNoChain(codes: seq<u32>, exec: seq<Registers>, k: nat)
    requires k < |codes| <= |exec| && codes[k] == LUI_R2 && forall j | k < j < |codes| :: Target(codes[j]) != 2
    ensures NoChain(codes, exec, 2)
  {
    var n := |codes|;
    forall o
      ensures !Descends(0, codes, exec, n, 2, o)
    {
      UpperThenNothing(codes, exec, k, n, o);
    }
  }

  lemma {:induction false} UpperThenNothing(codes: seq<u32>, exec: seq<Registers>, k: nat, n: nat, o: Origin)
    requires k < n <= |codes| <= |exec| && codes[k] == LUI_R2 && forall j | k < j < n :: Target(codes[j]) != 2
    ensures !Descends(0, codes, exec, n, 2, o)
    decreases n
  {
    if n == k + 1 {
      UpperIsNoSeed(codes[k]);
    } else {
      UpperThenNothing(codes, exec, k, n - 1, o);
    }
  }

  lemma UpperIsNoSeed(code: u32)
    requires code == LUI_R2
    ensures Target(code) == 2 && Sources(code) == {} && !IsWideLoad(Op(code)) && !IsMfc0Count(code)
  {}

  /** A likely branch that is not taken skips its delay slot, which the walk looks at all the
      same: a load is reported that never ran. */
  lemma LikelyBranchKeepsSlot() returns (path: seq<Where>, exec: seq<Registers>)
    ensures WronglyReports([BNEL_ZERO, LW_R2_R1], 8, path, exec, 2)
  {
    var codes, r := [BNEL_ZERO, LW_R2_R1], AtTimer(1);
    path, exec := [Where(0, None), Where(8, None)], [r, r];
    LikelySkips(codes[0], r);
    var mem := Program(codes);
    assert mem(0) == codes[0];
    assert IsPath(mem, 0, 8, path, exec);
    assert Codes(mem, path) == [codes[0]];
    LoadBehindTainted(codes, Start(Some(r)));
    assert codes[..2] == codes;
    Reported(codes, 8, 2, path, exec, 2);
  }

  lemma LikelySkips(code: u32, r: Registers)
    requires code == BNEL_ZERO && r[0] == 0
    ensures Executes(code, r, r) && Goes(code, Where(0, None), r, Where(8, None)) && Target(code) == 0
  {}

  /** A block entered at 0 that loops back to 4, inside itself: the walk stops at that loop head,
      where the divergence is observed, and does not see the rest of the block, which ran. */
  lemma LoopHeadEndsWalk() returns (path: seq<Where>, exec: seq<Registers>)
    ensures WronglyReports([LW_R2_R1, LUI_R2, BEQ_BACK, NOP], 4, path, exec, 2)
  {
    var codes, r := [LW_R2_R1, LUI_R2, BEQ_BACK, NOP], AtTimer(1);
    path := LoopPath(codes, r);
    exec := [r, r, r, r, r];
    FirstTainted(codes, Start(Some(r)));
    OverwriteHasNoChain(codes, exec, 1);
    Reported(codes, 4, 1, path, exec, 2);
  }

  lemma FirstTainted(codes: seq<u32>, t: Track)
    requires codes != [] && codes[0] == LW_R2_R1
    requires t.Valid() && t.known[1] && t.regval[1] == 0x1000_0000
    ensures ObserveAll(t, codes[..1], 0, 0).taint[2].Some? && EndsAt(codes, 4, 1)
  {
    LoadTaints(t, codes[0], 0);
    OneObserved(t, codes[0], 0, 0);
    assert codes[..1] == [codes[0]];
  }

  lemma LoopPath(codes: seq<u32>, r: Registers) returns (path: seq<Where>)
    requires codes == [LW_R2_R1, LUI_R2, BEQ_BACK, NOP] && r[0] == 0 && r[2] == 0
    ensures IsPath(Program(codes), 0, 4, path, [r, r, r, r, r]) && Codes(Program(codes), path) == codes
    ensures forall j | 1 < j < 4 :: Target(codes[j]) != 2
  {
    path := [Where(0, None), Where(4, None), Where(8, None), Where(12, Some(4)), Where(4, None)];
    LoadRuns(codes[0], 0, r);
    PlainRuns(codes[1], 4, r);
    LoopsBack(codes[2], codes[3], r);
    AlongPath(codes, path, [r, r, r, r, r], 4);
  }

  lemma LoopsBack(branch: u32, slot: u32, r: Registers)
    requires branch == BEQ_BACK && slot == NOP && r[0] == 0
    ensures Executes(branch, r, r) && Goes(branch, Where(8, None), r, Where(12, Some(4)))
    ensures Executes(slot, r, r) && Goes(slot, Where(12, Some(4)), r, Where(4, None))
    ensures Target(branch) == 0 && Target(slot) == 0
  {}
}

/** The paths the R5900 takes through code: traps, branches with their delay slots, and the
    branches called likely, which skip the slot when they are not taken. */
module EePath {
  import opened Bits
  import opened Ee
  import opened Wrappers

  function Signed(x: u64): int {
    if x < 0x8000_0000_0000_0000 then x else x - 0x1_0000_0000_0000_0000
  }

  /** The comparison behind a trap: kinds as in the low bits of TGE, TGEU, TLT, TLTU, TEQ, TNE. */
  predicate TrapHolds(kind: nat, a: u64, b: u64) {
    if kind == 0 then Signed(a) >= Signed(b)
    else if kind == 1 then a >= b
    else if kind == 2 then Signed(a) < Signed(b)
    else if kind == 3 then a < b
    else if kind == 4 then a == b
    else kind == 6 && a != b
  }

  /** The instruction raises a trap, a system call or a breakpoint. */
  predicate Traps(code: u32, r: Registers) {
    var op, fn, kind := Op(code), Fn(code), Rt(code);
    if op == 0x01 && 0x08 <= kind <= 0x0e then TrapHolds(kind - 0x08, r[Rs(code)], Double(SignedImm(code)))
    else if op == 0x00 && 0x30 <= fn <= 0x36 then TrapHolds(fn - 0x30, r[Rs(code)], r[Rt(code)])
    else op == 0x00 && (fn == 0x0c || fn == 0x0d)
  }

  predicate IsCopBranch(code: u32) {
    (Op(code) == 0x10 || Op(code) == 0x11 || Op(code) == 0x12) && Rs(code) == 8
  }

  /** Jumps and branches; of the REGIMM instructions only those that test a sign. */
  predicate IsBranch(code: u32) {
    var op, rt := Op(code), Rt(code);
    || (op == 0x00 && (Fn(code) == 0x08 || Fn(code) == 0x09))
    || (op == 0x01 && (rt < 4 || 0x10 <= rt < 0x14))
    || 0x02 <= op <= 0x07 || 0x14 <= op <= 0x17
    || IsCopBranch(code)
  }

  /** BLTZL .. BGEZALL, BEQL .. BGTZL and the likely coprocessor branches. */
  predicate IsLikely(code: u32) {
    var op, rt := Op(code), Rt(code);
    (op == 0x01 && rt % 4 >= 2) || 0x14 <= op <= 0x17 || (IsCopBranch(code) && rt >= 2)
  }

  /** Whether a branch is taken; a coprocessor condition is not among the registers. */
  function Taken(code: u32, r: Registers): Option<bool> {
    var op, s, t := Op(code), r[Rs(code)], r[Rt(code)];
    if IsCopBranch(code) then None
    else if op == 0x01 then Some(if Rt(code) % 2 == 0 then Signed(s) < 0 else Signed(s) >= 0)
    else if op == 0x04 || op == 0x14 then Some(s == t)
    else if op == 0x05 || op == 0x15 then Some(s != t)
    else if op == 0x06 || op == 0x16 then Some(Signed(s) <= 0)
    else if op == 0x07 || op == 0x17 then Some(Signed(s) > 0)
    else Some(true)
  }

  /** Where a branch at `pc` leads. */
  function Destination(code: u32, pc: u32, r: Registers): u32 {
    var op, slot := Op(code), Word(pc + 4);
    if op == 0x00 then Word(r[Rs(code)])
    else if op == 0x02 || op == 0x03 then slot / 0x1000_0000 * 0x1000_0000 + code % 0x400_0000 * 4
    else Word(slot + SignedImm(code) * 4)
  }

  /** The instruction about to run; in a delay slot, with where the branch goes after it. */
  datatype Where = Where(pc: u32, after: Option<u32>)

  /** ERET goes on wherever the exception said. */
  predicate IsReturn(code: u32) {
    Op(code) == 0x10 && Rs(code) == 0x10 && Fn(code) == 0x18
  }

  /** `next` is where the machine can be after running `code` at `at` with registers `r`. */
  predicate Goes(code: u32, at: Where, r: Registers, next: Where) {
    && !Traps(code, r)
    && if at.after.Some? then next == Where(at.after.value, None)
       else if IsReturn(code) then next.after == None
       else if !IsBranch(code) then next == Where(Word(at.pc + 4), None)
       else
         || (Taken(code, r) != Some(false) && next == Where(Word(at.pc + 4), Some(Destination(code, at.pc, r))))
         || (Taken(code, r) != Some(true) && next == Where(Word(at.pc + if IsLikely(code) then 8 else 4), None))
  }

  function Codes(mem: u32 -> u32, path: seq<Where>): (codes: seq<u32>)
    requires path != []
    ensures |codes| == |path| - 1
  {
    seq<u32>(|path| - 1, i requires 0 <= i < |path| - 1 => mem(path[i].pc))
  }

  function Lows(exec: seq<Gprs>): (lows: seq<Registers>)
    ensures |lows| == |exec|
  {
    seq<Registers>(|exec|, i requires 0 <= i < |exec| => exec[i].low)
  }

  /** The machine, entered at `block`, runs along `path` and arrives at `end`; `exec[i]` are
      its registers at `path[i]`. */
  ghost predicate IsPath(mem: u32 -> u32, block: u32, end: u32, path: seq<Where>, exec: seq<Registers>) {
    && |path| == |exec| > 0
    && path[0] == Where(block, None) && path[|path| - 1] == Where(end, None)
    && exec[0][0] == 0
    && forall i | 0 <= i < |path| - 1 ::
         var code := mem(path[i].pc);
         Executes(code, exec[i], exec[i + 1]) && Goes(code, path[i], exec[i], path[i + 1])
  }

  /** The same with both halves of the registers. */
  ghost predicate IsWidePath(mem: u32 -> u32, block: u32, end: u32, path: seq<Where>, exec: seq<Gprs>) {
    && IsPath(mem, block, end, path, Lows(exec))
    && exec[0].high[0] == 0
    && forall i | 0 <= i < |path| - 1 :: KeepsUppers(mem(path[i].pc), exec[i].high, exec[i + 1].high)
  }
}

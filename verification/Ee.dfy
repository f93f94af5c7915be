/** As much of the R5900 (the EE core) as the trace classifier relies on: which
    general register an instruction can change, what its new value depends on, and
    for the constant-building instructions the value itself. */
module Ee {
  import opened Bits

  type u64 = x: int | 0 <= x < 0x1_0000_0000_0000_0000
  type Reg = x: int | 0 <= x < 32

  // ---- instruction fields ----

  function Op(code: u32): nat { code / 0x400_0000 }
  function Rs(code: u32): Reg { code / 0x20_0000 % 32 }
  function Rt(code: u32): Reg { code / 0x1_0000 % 32 }
  function Rd(code: u32): Reg { code / 0x800 % 32 }
  function Fn(code: u32): nat { code % 64 }
  function Sa(code: u32): nat { code / 64 % 32 }
  function Imm(code: u32): nat { code % 0x1_0000 }
  function SignedImm(code: u32): int { if Imm(code) < 0x8000 then Imm(code) else Imm(code) - 0x1_0000 }

  // ---- words ----

  function Word(x: int): u32 { x % 0x1_0000_0000 }
  function Double(x: int): u64 { x % 0x1_0000_0000_0000_0000 }

  /** The 64-bit sign extension of a 32-bit word. */
  function SignExtended(w: u32): u64 {
    if w < 0x8000_0000 then w else w + 0xFFFF_FFFF_0000_0000
  }

  function Or64(a: u64, b: u64): u64 {
    Pow2Values();
    OrBelow(a, b, 64);
    Or(a, b)
  }

  /** What the classifier computes on 32-bit words is what the machine computes on
      64-bit registers, seen through the low word. */
  lemma LowWords(a: u64, b: u64, w: u32, k: int)
    ensures Word(Or64(a, b)) == Or32(Word(a), Word(b))
    ensures Word(Double(a + k)) == Word(Word(a) + k)
    ensures Word(SignExtended(w)) == w
  {
    LowOr(a, b);
    LowSum(a, k);
  }

  lemma LowOr(a: u64, b: u64)
    ensures Word(Or64(a, b)) == Or32(Word(a), Word(b))
  {
    Pow2Values();
    OrLow(a, b, 32);
  }

  lemma LowSum(a: u64, k: int)
    ensures Word(Double(a + k)) == Word(Word(a) + k)
  {}

  // ---- what an instruction does to the general registers ----

  predicate IsShiftImmediate(fn: nat) {
    fn == 0x00 || fn == 0x02 || fn == 0x03 || fn == 0x38 || fn == 0x3a || fn == 0x3b || fn == 0x3c || fn == 0x3e
      || fn == 0x3f
  }

  predicate IsShiftVariable(fn: nat) {
    fn == 0x04 || fn == 0x06 || fn == 0x07 || fn == 0x14 || fn == 0x16 || fn == 0x17
  }

  /** ADD..NOR, SLT, SLTU, DADD..DSUBU: two source registers, one result. */
  predicate IsTwoSource(fn: nat) {
    0x20 <= fn <= 0x27 || 0x2a <= fn <= 0x2f
  }

  predicate IsImmediateOp(op: nat) {
    0x08 <= op <= 0x0e || op == 0x18 || op == 0x19
  }

  predicate IsWideLoad(op: nat) {   // LW, LWU, LD, LQ
    op == 0x23 || op == 0x27 || op == 0x37 || op == 0x1e
  }

  predicate IsNarrowLoad(op: nat) {  // LB, LH, LWL, LBU, LHU, LWR, LDL, LDR
    op == 0x20 || op == 0x21 || op == 0x22 || op == 0x24 || op == 0x25 || op == 0x26 || op == 0x1a || op == 0x1b
  }

  /** The one general register the instruction may change; register 0 stands for
      none, since writes to it are dropped. */
  function Target(code: u32): Reg {
    var op, fn := Op(code), Fn(code);
    if op == 0x00 then
      if IsShiftImmediate(fn) || IsShiftVariable(fn) || IsTwoSource(fn)
         || fn == 0x09 || fn == 0x0a || fn == 0x0b      // JALR, MOVZ, MOVN
         || fn == 0x10 || fn == 0x12                    // MFHI, MFLO
         || fn == 0x18 || fn == 0x19 || fn == 0x28      // MULT, MULTU, MFSA
      then Rd(code) else 0
    else if op == 0x01 then if 0x10 <= Rt(code) <= 0x13 then 31 else 0   // BLTZAL .. BGEZALL
    else if op == 0x03 then 31                                          // JAL
    else if IsImmediateOp(op) || op == 0x0f || IsWideLoad(op) || IsNarrowLoad(op) then Rt(code)
    else if op == 0x10 then if Rs(code) == 0 then Rt(code) else 0                  // MFC0
    else if op == 0x11 then if Rs(code) == 0 || Rs(code) == 2 then Rt(code) else 0 // MFC1, CFC1
    else if op == 0x12 then if Rs(code) == 1 || Rs(code) == 2 then Rt(code) else 0 // QMFC2, CFC2
    else if op == 0x1c then Rd(code)                                    // MMI
    else 0
  }

  /** The registers a pure data-flow instruction computes its result from. */
  function Sources(code: u32): set<Reg> {
    var op, fn := Op(code), Fn(code);
    if op == 0x00 then
      if IsShiftImmediate(fn) then {Rt(code)}
      else if IsShiftVariable(fn) || IsTwoSource(fn) then {Rs(code), Rt(code)}
      else {}
    else if IsImmediateOp(op) then {Rs(code)}
    else {}
  }

  // ---- the upper halves ----

  /** MMI instructions with a 128-bit result: PMFHL, the parallel shifts, and what is in the
      second tables for MMI0 to MMI3. */
  predicate IsParallel(code: u32) {
    var fn, sa := Fn(code), Sa(code);
    Op(code) == 0x1c &&
    if fn == 0x08 then sa <= 0x0a || 0x10 <= sa <= 0x1b || sa == 0x1e || sa == 0x1f
    else if fn == 0x28 then
      0x01 <= sa <= 0x07 || sa == 0x0a || 0x10 <= sa <= 0x12 || 0x14 <= sa <= 0x16 || 0x18 <= sa <= 0x1b
    else if fn == 0x09 then
      || sa == 0x00 || 0x02 <= sa <= 0x04 || 0x08 <= sa <= 0x0a || sa == 0x0c || sa == 0x0e
      || 0x10 <= sa <= 0x15 || 0x1a <= sa <= 0x1c || sa == 0x1e || sa == 0x1f
    else if fn == 0x29 then
      || sa == 0x00 || sa == 0x03 || sa == 0x0a || sa == 0x0c || sa == 0x0e
      || sa == 0x12 || sa == 0x13 || sa == 0x1a || sa == 0x1b || sa == 0x1e
    else if fn == 0x30 then sa <= 0x04
    else fn == 0x34 || fn == 0x36 || fn == 0x37 || fn == 0x3c || fn == 0x3e || fn == 0x3f
  }

  /** The one general register whose upper half the instruction writes: LQ, QMFC2 and the
      parallel instructions write all 128 bits, everything else the lower 64. */
  function UpperTarget(code: u32): Reg {
    if Op(code) == 0x1e then Rt(code)
    else if Op(code) == 0x12 && Rs(code) == 1 then Rt(code)
    else if IsParallel(code) then Rd(code)
    else 0
  }

  lemma UpperTargetIsTarget(code: u32)
    ensures UpperTarget(code) != 0 ==> UpperTarget(code) == Target(code)
  {}

  /** MMI instructions with a 64-bit result: MADD, PLZCW, MFHI1, MFLO1, MULT1, MADD1 and their
      unsigned forms. */
  predicate IsSingle(code: u32) {
    var fn := Fn(code);
    Op(code) == 0x1c && (fn == 0x00 || fn == 0x01 || fn == 0x04 || fn == 0x10 || fn == 0x12 || 0x18 <= fn <= 0x19
                         || 0x20 <= fn <= 0x21)
  }

  /** The one whose lower half it writes. `Target` allows for a result of every MMI instruction. */
  function LowerTarget(code: u32): Reg {
    if Op(code) == 0x1c && !IsParallel(code) && !IsSingle(code) then 0 else Target(code)
  }

  /** Which halves of its operands an MMI instruction puts where. */
  datatype Mix =
    | NoOperand                       // PMFHL, PMFHI, PMFLO, MFHI1, MFLO1: from HI and LO
    | LowerOfRs | Lower               // PLZCW; the other 64-bit results
    | Lanes | LanesOfRt               // each half from the same half of both operands, or of one
    | AllOfRt                         // PEXEW, PROT3W, PEXCW
    | LowerToBoth | UpperToBoth       // PEXTLW, PEXTUW and their like
    | Pack                            // PPACW and its like
    | Interleave                      // PINTH
    | CopyLower | CopyUpper           // PCPYLD, PCPYUD
    | Funnel                          // QFSRV, whatever the shift amount

  function MixOf(code: u32): Mix {
    var fn, sa := Fn(code), Sa(code);
    if fn == 0x04 then LowerOfRs
    else if fn == 0x10 || fn == 0x12 || fn == 0x30 then NoOperand
    else if IsSingle(code) then Lower
    else if fn == 0x08 then
      if sa == 0x12 || sa == 0x16 || sa == 0x1a then LowerToBoth
      else if sa == 0x13 || sa == 0x17 || sa == 0x1b then Pack
      else if sa == 0x1e || sa == 0x1f then LanesOfRt else Lanes
    else if fn == 0x28 then
      if sa == 0x01 || sa == 0x05 then LanesOfRt
      else if sa == 0x12 || sa == 0x16 || sa == 0x1a then UpperToBoth
      else if sa == 0x1b then Funnel else Lanes
    else if fn == 0x09 then
      if sa == 0x08 || sa == 0x09 then NoOperand
      else if sa == 0x0a then Interleave
      else if sa == 0x0e then CopyLower
      else if sa == 0x1a || sa == 0x1b then LanesOfRt
      else if sa == 0x1e || sa == 0x1f then AllOfRt else Lanes
    else if fn == 0x29 then
      if sa == 0x0e then CopyUpper
      else if sa == 0x1a || sa == 0x1b then LanesOfRt
      else if sa == 0x1e then AllOfRt else Lanes
    else LanesOfRt
  }

  /** Half `high` of `rs` goes into half `to` of the result. */
  predicate RsGoesInto(mix: Mix, high: bool, to: bool) {
    match mix
    case NoOperand | LanesOfRt | AllOfRt => false
    case LowerOfRs | Lower | LowerToBoth => !high
    case Lanes => high == to
    case UpperToBoth | Interleave => high
    case Pack => to
    case CopyLower => !high && to
    case CopyUpper => high && !to
    case Funnel => !high || to
  }

  predicate RtGoesInto(mix: Mix, high: bool, to: bool) {
    match mix
    case NoOperand | LowerOfRs => false
    case Lower | LowerToBoth | Interleave => !high
    case Lanes | LanesOfRt => high == to
    case AllOfRt => true
    case UpperToBoth => high
    case Pack => !to
    case CopyLower => !high && !to
    case CopyUpper => high && to
    case Funnel => high || !to
  }

  /** Half `high` of the operand `s` goes into half `to` of the result. */
  predicate GoesInto(code: u32, s: Reg, high: bool, to: bool) {
    if Op(code) == 0x1c then
      || (s == Rs(code) && RsGoesInto(MixOf(code), high, to))
      || (s == Rt(code) && RtGoesInto(MixOf(code), high, to))
    else !high && !to
  }

  /** All registers a value can come from on its way into the result: more than `Sources`. */
  function Operands(code: u32): set<Reg> {
    var op, fn := Op(code), Fn(code);
    if op == 0x00 && (fn == 0x18 || fn == 0x19) then {Rs(code), Rt(code)}                  // MULT, MULTU
    else if op == 0x00 && (fn == 0x0a || fn == 0x0b) then {Rs(code), Rt(code), Rd(code)}   // MOVZ, MOVN
    else if op == 0x22 || op == 0x26 || op == 0x1a || op == 0x1b then {Rt(code)}           // LWL .. LDR
    else if op == 0x1c then {Rs(code), Rt(code)}                                           // MMI
    else Sources(code)
  }

  /** The general registers, 128 bits each. */
  datatype Gprs = Gprs(low: Registers, high: Registers)

  ghost predicate KeepsUppers(code: u32, before: Registers, after: Registers) {
    && before[0] == after[0] == 0
    && forall q: Reg :: q != UpperTarget(code) ==> after[q] == before[q]
  }

  // ---- execution ----

  type Registers = f: seq<u64> | |f| == 32 witness seq(32, _ => 0)

  /** Effective address of a load. */
  function Address(code: u32, r: Registers): u32 {
    Word(Word(r[Rs(code)]) + SignedImm(code))
  }

  /** `after` can be the low halves of the general registers once the instruction
      has completed. Only results that build constants are specified; every other
      result may be anything. */
  ghost predicate Executes(code: u32, before: Registers, after: Registers) {
    var op, t := Op(code), Target(code);
    && before[0] == after[0] == 0
    && (forall q: Reg :: q != t ==> after[q] == before[q])
    && (t != 0 ==>
          && (op == 0x0f ==> after[t] == SignExtended(Imm(code) * 0x1_0000))
          && (op == 0x0d ==> after[t] == Or64(before[Rs(code)], Imm(code)))
          && (op == 0x08 || op == 0x09 ==>
                after[t] == SignExtended(Word(Word(before[Rs(code)]) + SignedImm(code))))
          && (op == 0x18 || op == 0x19 ==> after[t] == Double(before[Rs(code)] + SignedImm(code)))
          && (op == 0x00 && Fn(code) == 0x25 ==> after[t] == Or64(before[Rs(code)], before[Rt(code)])))
  }
}

/** The classifier that decides whether a divergent register only shows the phase of
    a timer: constant propagation and taint over one basic block. */
module CycleTaint {
  import opened Bits
  import opened Ee
  import opened Wrappers

  /** The description carried with a taint: what was read, and where. */
  datatype Origin =
    | TimerCount(timer: nat, address: u32, pc: u32)
    | CyclePhase(address: u32, pc: u32)
    | CopCount(pc: u32)

  /** The three per-register arrays; a register is tainted when it carries an origin. */
  datatype Track = Track(regval: seq<u32>, known: seq<bool>, taint: seq<Option<Origin>>) {
    ghost predicate Valid() {
      |regval| == |known| == |taint| == 32
    }
  }

  predicate IsTimerCount(a: u32) {
    a == 0x1000_0000 || a == 0x1000_0800 || a == 0x1000_1000 || a == 0x1000_1800
  }

  predicate IsCyclePhaseMmio(a: u32) {
    IsTimerCount(a) || 0x1000_0000 <= a < 0x1001_0000 || 0x1200_0000 <= a < 0x1200_2000
  }

  function OriginOfLoad(address: u32, pc: u32): Origin
    requires IsCyclePhaseMmio(address)
  {
    if IsTimerCount(address) then TimerCount((address - 0x1000_0000) / 0x800, address, pc)
    else CyclePhase(address, pc)
  }

  predicate IsEeBranchOpcode(code: u32) {
    var op := Op(code);
    if op == 0 then Fn(code) == 8 || Fn(code) == 9
    else if op == 0x10 || op == 0x11 || op == 0x12 then Rs(code) == 8
    else op == 1 || op == 2 || op == 3 || 4 <= op <= 7 || 0x14 <= op <= 0x17
  }

  predicate IsMfc0Count(code: u32) {
    Op(code) == 0x10 && Rs(code) == 0 && Rd(code) == 9
  }

  /** The classifier's idea of an ALU operation; it takes MFSA and MTSA along. */
  predicate IsAlu(fn: nat) {
    0x20 <= fn <= 0x2f || IsShiftImmediate(fn) || IsShiftVariable(fn)
  }

  function Write(t: Track, d: Reg, taint: Option<Origin>, constant: Option<u32>): (r: Track)
    requires t.Valid()
    ensures r.Valid()
  {
    Track(if constant.Some? then t.regval[d := constant.value] else t.regval,
          t.known[d := constant.Some?], t.taint[d := taint])
  }

  /** Value of a register, when the classifier knows it. */
  function Constant(t: Track, r: Reg): Option<u32>
    requires t.Valid()
  {
    if t.known[r] then Some(t.regval[r]) else None
  }

  /** One instruction of the classifier's walk. */
  function Observe(t: Track, code: u32, pc: u32): (r: Track)
    requires t.Valid()
    ensures r.Valid()
  {
    var op, rs, rt, rd, fn := Op(code), Rs(code), Rt(code), Rd(code), Fn(code);
    var base := Constant(t, rs);
    if IsWideLoad(op) then
      var ea := Word(t.regval[rs] + SignedImm(code));
      Write(t, rt, if base.Some? && IsCyclePhaseMmio(ea) then Some(OriginOfLoad(ea, pc)) else None, None)
    else if IsMfc0Count(code) then Write(t, rt, Some(CopCount(pc)), None)
    else if op == 0x0f then Write(t, rt, None, Some(Imm(code) * 0x1_0000))
    else if op == 0x0d then Write(t, rt, t.taint[rs], if base.Some? then Some(Or32(base.value, Imm(code))) else None)
    else if op == 0x09 || op == 0x19 || op == 0x08 || op == 0x18 then
      Write(t, rt, t.taint[rs], if base.Some? then Some(Word(base.value + SignedImm(code))) else None)
    else if op == 0x0a || op == 0x0b || op == 0x0c || op == 0x0e then Write(t, rt, t.taint[rs], None)
    else if op == 0x00 then
      if IsAlu(fn) then
        var tainted := t.taint[rt].Some? || (!IsShiftImmediate(fn) && t.taint[rs].Some?);
        var source := if t.taint[rs].Some? then t.taint[rs] else t.taint[rt];
        Write(t, rd, if tainted then source else None,
              if fn == 0x25 && base.Some? && t.known[rt] then Some(Or32(base.value, t.regval[rt])) else None)
      else Write(t, rd, None, None)
    else if IsNarrowLoad(op) then Write(t, rt, None, None)
    else if op == 0x03 then Write(t, 31, None, None)
    else if op == 0x1c then Write(t, rd, None, None)
    else if op == 0x10 || op == 0x11 || op == 0x12 then Write(t, rt, None, None)
    else t
  }

  function Pc(block: u32, i: nat): u32 {
    Word(block + 4 * i)
  }

  /** Whether the walk stops before its `i`-th instruction. */
  predicate WalkEnds(block: u32, end: u32, maxInsns: nat, i: nat) {
    i >= maxInsns || (end != 0 && Pc(block, i) >= end)
  }

  /** The instructions the walk looks at from the `i`-th on. */
  function Walked(mem: u32 -> u32, block: u32, end: u32, maxInsns: nat, i: nat, sawBranch: bool): seq<u32>
    decreases maxInsns - i
  {
    if WalkEnds(block, end, maxInsns, i) then []
    else
      var code := mem(Pc(block, i));
      [code] + if sawBranch then [] else Walked(mem, block, end, maxInsns, i + 1, IsEeBranchOpcode(code))
  }

  /** `w` is the code from the `i`-th instruction on. */
  ghost predicate IsCodeAt(mem: u32 -> u32, block: u32, end: u32, maxInsns: nat, i: nat, w: seq<u32>) {
    forall p {:trigger Pc(block, p)} | i <= p < i + |w| ::
      w[p - i] == mem(Pc(block, p)) && !WalkEnds(block, end, maxInsns, p)
  }

  /** No branch before the last two instructions. */
  ghost predicate NoEarlyBranch(w: seq<u32>) {
    forall k | 0 <= k < |w| - 2 :: !IsEeBranchOpcode(w[k])
  }

  /** Why there is no more code: the walk has to stop, or this was a delay slot. */
  predicate IsWhole(block: u32, end: u32, maxInsns: nat, next: nat, sawBranch: bool, w: seq<u32>) {
    || WalkEnds(block, end, maxInsns, next)
    || (|w| == 1 && sawBranch)
    || (|w| >= 2 && IsEeBranchOpcode(w[|w| - 2]))
  }

  ghost predicate IsBlock(mem: u32 -> u32, block: u32, end: u32, maxInsns: nat, i: nat, sawBranch: bool, w: seq<u32>) {
    && IsCodeAt(mem, block, end, maxInsns, i, w) && NoEarlyBranch(w) && (sawBranch ==> |w| <= 1)
    && IsWhole(block, end, maxInsns, i + |w|, sawBranch, w)
  }

  /** The walk looks at the block and no more: the code in order, up to the delay slot of its
      first branch, the observation point or the limit, whichever comes first. */
  lemma {:induction false} WalkedIsBlock(mem: u32 -> u32, block: u32, end: u32, maxInsns: nat, i: nat, sawBranch: bool)
    ensures IsBlock(mem, block, end, maxInsns, i, sawBranch, Walked(mem, block, end, maxInsns, i, sawBranch))
    decreases maxInsns - i
  {
    if WalkEnds(block, end, maxInsns, i) {
      NoCode(mem, block, end, maxInsns, i, sawBranch);
    } else {
      var code, next := mem(Pc(block, i)), i + 1;
      if sawBranch {
        DelaySlot(mem, block, end, maxInsns, i, code);
      } else {
        var branch := IsEeBranchOpcode(code);
        var rest := Walked(mem, block, end, maxInsns, next, branch);
        WalkedIsBlock(mem, block, end, maxInsns, next, branch);
        BlockGrows(mem, block, end, maxInsns, i, code, rest, branch);
      }
    }
  }

  lemma NoCode(mem: u32 -> u32, block: u32, end: u32, maxInsns: nat, i: nat, sawBranch: bool)
    requires WalkEnds(block, end, maxInsns, i)
    ensures IsBlock(mem, block, end, maxInsns, i, sawBranch, [])
  {}

  lemma DelaySlot(mem: u32 -> u32, block: u32, end: u32, maxInsns: nat, i: nat, code: u32)
    requires code == mem(Pc(block, i)) && !WalkEnds(block, end, maxInsns, i)
    ensures IsBlock(mem, block, end, maxInsns, i, true, [code])
  {}

  lemma BlockGrows(mem: u32 -> u32, block: u32, end: u32, maxInsns: nat, i: nat, code: u32, rest: seq<u32>,
                   branch: bool)
    requires code == mem(Pc(block, i)) && !WalkEnds(block, end, maxInsns, i) && branch == IsEeBranchOpcode(code)
    requires IsBlock(mem, block, end, maxInsns, i + 1, branch, rest)
    ensures IsBlock(mem, block, end, maxInsns, i, false, [code] + rest)
  {
    var w := [code] + rest;
    forall p {:trigger Pc(block, p)} | i <= p < i + |w|
      ensures w[p - i] == mem(Pc(block, p)) && !WalkEnds(block, end, maxInsns, p)
    {
      assert p > i ==> w[p - i] == rest[p - (i + 1)];
    }
    assert forall k | 0 < k < |w| :: w[k] == rest[k - 1];
  }

  /** Being the block decides what the walk looks at. */
  lemma WalkedExactly(mem: u32 -> u32, block: u32, end: u32, maxInsns: nat, w: seq<u32>)
    ensures w == Walked(mem, block, end, maxInsns, 0, false) <==> IsBlock(mem, block, end, maxInsns, 0, false, w)
  {
    var v := Walked(mem, block, end, maxInsns, 0, false);
    WalkedIsBlock(mem, block, end, maxInsns, 0, false);
    if IsBlock(mem, block, end, maxInsns, 0, false, w) {
      NoLongerBlock(mem, block, end, maxInsns, v, w);
      NoLongerBlock(mem, block, end, maxInsns, w, v);
      forall k | 0 <= k < |w|
        ensures w[k] == v[k]
      {
        SameCode(mem, block, end, maxInsns, w, v, k);
      }
    }
  }

  lemma SameCode(mem: u32 -> u32, block: u32, end: u32, maxInsns: nat, v: seq<u32>, w: seq<u32>, k: nat)
    requires IsCodeAt(mem, block, end, maxInsns, 0, v) && IsCodeAt(mem, block, end, maxInsns, 0, w)
    requires k < |v| && k < |w|
    ensures v[k] == w[k] && !WalkEnds(block, end, maxInsns, k)
  {
    var pc := Pc(block, k);
    assert v[k - 0] == mem(pc) && w[k - 0] == mem(pc);
  }

  lemma NoLongerBlock(mem: u32 -> u32, block: u32, end: u32, maxInsns: nat, v: seq<u32>, w: seq<u32>)
    requires IsBlock(mem, block, end, maxInsns, 0, false, v) && IsBlock(mem, block, end, maxInsns, 0, false, w)
    ensures |w| <= |v|
  {
    if |v| < |w| {
      SameCode(mem, block, end, maxInsns, w, w, |v|);
      if |v| >= 2 {
        SameCode(mem, block, end, maxInsns, v, w, |v| - 2);
      }
    }
  }

  function ObserveAll(t: Track, codes: seq<u32>, block: u32, i: nat): (r: Track)
    requires t.Valid()
    ensures r.Valid()
    decreases |codes|
  {
    if codes == [] then t else ObserveAll(Observe(t, codes[0], Pc(block, i)), codes[1..], block, i + 1)
  }

  function Start(entry: Option<Registers>): (t: Track)
    ensures t.Valid()
  {
    Track(seq(32, i requires 0 <= i < 32 => if entry.Some? && i > 0 then Word(entry.value[i]) else 0),
          seq(32, i requires 0 <= i < 32 => i == 0 || entry.Some?),
          seq(32, _ => None))
  }

  /** The divergent registers found tainted, in the order they were given. */
  function Report(t: Track, gprs: seq<Reg>): seq<(Reg, Origin)>
    requires t.Valid()
  {
    if gprs == [] then []
    else
      var last := gprs[|gprs| - 1];
      Report(t, gprs[..|gprs| - 1]) + if t.taint[last].Some? then [(last, t.taint[last].value)] else []
  }

  lemma {:induction false} ReportContents(t: Track, gprs: seq<Reg>, r: Reg, o: Origin)
    requires t.Valid()
    ensures (r, o) in Report(t, gprs) <==> r in gprs && t.taint[r] == Some(o)
  {
    if gprs != [] {
      ReportContents(t, gprs[..|gprs| - 1], r, o);
    }
  }

  /** The walk over the block, with the three arrays updated in place. */
  method ClassifyCycleDerivedLoads(mem: u32 -> u32, block_pc: u32, divergent_gprs: seq<Reg>, end_pc: u32,
                                   entry_snap: Option<Registers>, maxInsns: nat)
    returns (out: seq<(Reg, Origin)>)
    ensures out == Report(ObserveAll(Start(entry_snap), Walked(mem, block_pc, end_pc, maxInsns, 0, false), block_pc, 0),
                          divergent_gprs)
  {
    var start := Start(entry_snap);
    var regval := new u32[32](i requires 0 <= i < 32 => start.regval[i]);
    var known := new bool[32](i requires 0 <= i < 32 => start.known[i]);
    var taint := new Option<Origin>[32](i requires 0 <= i < 32 => start.taint[i]);
    assert Track(regval[..], known[..], taint[..]) == start;
    WalkBlock(mem, block_pc, end_pc, maxInsns, regval, known, taint);
    out := CollectTainted(taint, divergent_gprs, Track(regval[..], known[..], taint[..]));
  }

  method WalkBlock(mem: u32 -> u32, block_pc: u32, end_pc: u32, maxInsns: nat,
                   regval: array<u32>, known: array<bool>, taint: array<Option<Origin>>)
    requires regval.Length == known.Length == taint.Length == 32
    modifies regval, known, taint
    ensures Track(regval[..], known[..], taint[..])
            == ObserveAll(old(Track(regval[..], known[..], taint[..])),
                          Walked(mem, block_pc, end_pc, maxInsns, 0, false), block_pc, 0)
  {
    var saw_branch := false;
    var i := 0;
    ghost var todo := Walked(mem, block_pc, end_pc, maxInsns, 0, false);
    while i < maxInsns
      invariant i <= maxInsns && todo == Walked(mem, block_pc, end_pc, maxInsns, i, saw_branch)
      invariant old(ObserveAll(Track(regval[..], known[..], taint[..]),
                               Walked(mem, block_pc, end_pc, maxInsns, 0, false), block_pc, 0))
                == ObserveAll(Track(regval[..], known[..], taint[..]), todo, block_pc, i)
    {
      var addr := Pc(block_pc, i);
      if end_pc != 0 && addr >= end_pc {
        break;
      }
      var code := mem(addr);
      ObserveInPlace(code, addr, regval, known, taint);
      todo := todo[1..];
      if saw_branch {
        break;
      }
      if IsEeBranchOpcode(code) {
        saw_branch := true;
      }
      i := i + 1;
    }
  }

  method CollectTainted(taint: array<Option<Origin>>, divergent_gprs: seq<Reg>, ghost t: Track)
    returns (out: seq<(Reg, Origin)>)
    requires t.Valid() && taint[..] == t.taint
    ensures out == Report(t, divergent_gprs)
  {
    out := [];
    for k := 0 to |divergent_gprs|
      invariant out == Report(t, divergent_gprs[..k])
    {
      assert divergent_gprs[..k + 1][..k] == divergent_gprs[..k];
      var dr := divergent_gprs[k];
      assert taint[dr] == taint[..][dr];
      if taint[dr].Some? {
        out := out + [(dr, taint[dr].value)];
      }
    }
    assert divergent_gprs[..|divergent_gprs|] == divergent_gprs;
  }

  method ObserveInPlace(code: u32, addr: u32, regval: array<u32>, known: array<bool>, taint: array<Option<Origin>>)
    requires regval.Length == known.Length == taint.Length == 32
    modifies regval, known, taint
    ensures Track(regval[..], known[..], taint[..])
            == Observe(old(Track(regval[..], known[..], taint[..])), code, addr)
  {
    var op, rs, rt, rd, fn := Op(code), Rs(code), Rt(code), Rd(code), Fn(code);
    var d: Reg, constant: Option<u32>, origin: Option<Origin> := rt, None, None;
    if IsWideLoad(op) {
      var ea := Word(regval[rs] + SignedImm(code));
      if known[rs] && IsCyclePhaseMmio(ea) {
        origin := Some(OriginOfLoad(ea, addr));
      }
    } else if IsMfc0Count(code) {
      origin := Some(CopCount(addr));
    } else if op == 0x0f {
      constant := Some(Imm(code) * 0x1_0000);
    } else if op == 0x0d {
      constant, origin := if known[rs] then Some(Or32(regval[rs], Imm(code))) else None, taint[rs];
    } else if op == 0x09 || op == 0x19 || op == 0x08 || op == 0x18 {
      constant, origin := if known[rs] then Some(Word(regval[rs] + SignedImm(code))) else None, taint[rs];
    } else if op == 0x0a || op == 0x0b || op == 0x0c || op == 0x0e {
      origin := taint[rs];
    } else if op == 0x00 {
      d := rd;
      if IsAlu(fn) {
        if (if IsShiftImmediate(fn) then taint[rt].Some? else taint[rs].Some? || taint[rt].Some?) {
          origin := if taint[rs].Some? then taint[rs] else taint[rt];
        }
        if fn == 0x25 && known[rs] && known[rt] {
          constant := Some(Or32(regval[rs], regval[rt]));
        }
      }
    } else if op == 0x03 {
      d := 31;
    } else if op == 0x1c {
      d := rd;
    } else if !IsNarrowLoad(op) && op != 0x10 && op != 0x11 && op != 0x12 {
      return;
    }
    if constant.Some? {
      regval[d] := constant.value;
    }
    known[d], taint[d] := constant.Some?, origin;
  }
}

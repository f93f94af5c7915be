/** How the eight BC7 modes take a 128-bit block apart, against a reader that goes through the
    block once from the lowest bit on (section 20.1 of the Khronos Data Format
    Specification 1.3). */
module Bc7 {
  import opened BitReader

  type Block = b: Bits | |b| == 128 witness ZeroBits(128)

  /** The parameters of a mode: subsets; bits for partition, rotation, index selection; bits
      per colour and alpha endpoint; p-bits in all; bits per primary and secondary index. */
  datatype Mode = Mode(subsets: nat, part: nat, rot: nat, sel: nat, color: nat, alpha: nat, pbits: nat,
                       index: nat, index2: nat)

  function ModeTable(mode: nat): Mode
    requires mode < 8
  {
    if mode == 0 then Mode(3, 4, 0, 0, 4, 0, 6, 3, 0)
    else if mode == 1 then Mode(2, 6, 0, 0, 6, 0, 2, 3, 0)
    else if mode == 2 then Mode(3, 6, 0, 0, 5, 0, 0, 2, 0)
    else if mode == 3 then Mode(2, 6, 0, 0, 7, 0, 4, 2, 0)
    else if mode == 4 then Mode(1, 0, 2, 1, 5, 6, 0, 2, 3)
    else if mode == 5 then Mode(1, 0, 2, 0, 7, 8, 0, 2, 2)
    else if mode == 6 then Mode(1, 0, 0, 0, 7, 7, 2, 4, 0)
    else Mode(2, 6, 0, 0, 5, 5, 4, 2, 0)
  }

  function Pick8<T>(j: nat, v0: T, v1: T, v2: T, v3: T, v4: T, v5: T, v6: T, v7: T): T {
    if j == 0 then v0 else if j == 1 then v1 else if j == 2 then v2 else if j == 3 then v3
    else if j == 4 then v4 else if j == 5 then v5 else if j == 6 then v6 else v7
  }

  /** The anchor of the second of two subsets, by partition. */
  function SecondSubset(i: nat): (a: nat)
    ensures 1 <= a <= 15
  {
    var j := i % 8;
    if i < 8 then Pick8(j, 15, 15, 15, 15, 15, 15, 15, 15) else
    if i < 16 then Pick8(j, 15, 15, 15, 15, 15, 15, 15, 15) else
    if i < 24 then Pick8(j, 15, 2, 8, 2, 2, 8, 8, 15) else
    if i < 32 then Pick8(j, 2, 8, 2, 2, 8, 8, 2, 2) else
    if i < 40 then Pick8(j, 15, 15, 6, 8, 2, 8, 15, 15) else
    if i < 48 then Pick8(j, 2, 8, 2, 2, 2, 15, 15, 6) else
    if i < 56 then Pick8(j, 6, 2, 6, 8, 15, 15, 2, 2) else
    Pick8(j, 15, 15, 15, 15, 15, 2, 2, 15)
  }

  /** The anchors of the second and third of three subsets, by partition. */
  function ThirdSubset(i: nat): (a: (nat, nat))
    ensures 1 <= a.0 <= 15 && 1 <= a.1 <= 15 && a.0 != a.1
  {
    var j := i % 8;
    if i < 8 then Pick8(j, (3, 15), (3, 8), (15, 8), (15, 3), (8, 15), (3, 15), (15, 3), (15, 8)) else
    if i < 16 then Pick8(j, (8, 15), (8, 15), (6, 15), (6, 15), (6, 15), (5, 15), (3, 15), (3, 8)) else
    if i < 24 then Pick8(j, (3, 15), (3, 8), (8, 15), (15, 3), (3, 15), (3, 8), (6, 15), (10, 8)) else
    if i < 32 then Pick8(j, (5, 3), (8, 15), (8, 6), (6, 10), (8, 15), (5, 15), (15, 10), (15, 8)) else
    if i < 40 then Pick8(j, (8, 15), (15, 3), (3, 15), (5, 10), (6, 10), (10, 8), (8, 9), (15, 10)) else
    if i < 48 then Pick8(j, (15, 6), (3, 15), (15, 8), (5, 15), (15, 3), (15, 6), (15, 6), (15, 8)) else
    if i < 56 then Pick8(j, (3, 15), (15, 3), (5, 15), (5, 15), (5, 15), (8, 15), (5, 15), (10, 15)) else
    Pick8(j, (5, 15), (10, 15), (8, 15), (13, 15), (15, 3), (12, 15), (3, 15), (3, 8))
  }

  /** The number a field stands for. */
  function Value(b: Bits): nat {
    if b == [] then 0 else (if b[0] then 1 else 0) + 2 * Value(b[1..])
  }

  // ---- the reference: one pass over the block ----

  /** What a block says, before endpoints are expanded and colours interpolated: partition,
      rotation and index selection (each one field, which may be empty), the endpoints of each
      channel, p-bits and indices. */
  datatype Unpacked = Unpacked(part: seq<Bits>, rotation: seq<Bits>, indexMode: seq<Bits>, endpoints: seq<seq<Bits>>,
                               pbits: seq<Bits>, weights: seq<Bits>, alphaWeights: seq<Bits>)

  /** The widths of all fields, group by group: mode, partition, rotation, index selection,
      red, green, blue and alpha endpoints, p-bits, primary and secondary indices. */
  function Groups(mode: nat, anchors: seq<nat>): (g: seq<seq<nat>>)
    requires mode < 8
    ensures |g| == 11
  {
    var m := ModeTable(mode);
    var n := 2 * m.subsets;
    [[mode + 1], [m.part], [m.rot], [m.sel],
     Repeat(m.color, n), Repeat(m.color, n), Repeat(m.color, n), if m.alpha > 0 then Repeat(m.alpha, n) else [],
     Repeat(1, m.pbits), IndexWidths(m.index, anchors), if m.index2 > 0 then IndexWidths(m.index2, [0]) else []]
  }

  /** The bit where group `k` begins. */
  function Start(groups: seq<seq<nat>>, k: nat): nat
    requires k <= |groups|
  {
    if k == 0 then 0 else Start(groups, k - 1) + Sum(groups[k - 1])
  }

  function ReadGroups(b: Bits, groups: seq<seq<nat>>): (r: seq<seq<Bits>>)
    requires Start(groups, |groups|) <= |b|
    ensures |r| == |groups|
  {
    if groups == [] then []
    else
      var last := |groups| - 1;
      StartPrefix(groups, last, last);
      ReadGroups(b, groups[..last]) + [Read(b[Start(groups, last)..], groups[last])]
  }

  lemma {:induction false} StartPrefix(groups: seq<seq<nat>>, n: nat, k: nat)
    requires k <= n <= |groups|
    ensures Start(groups[..n], k) == Start(groups, k)
    decreases k
  {
    if k > 0 {
      StartPrefix(groups, n, k - 1);
    }
  }

  lemma {:induction false} StartGrows(groups: seq<seq<nat>>, k: nat)
    requires k <= |groups|
    ensures Start(groups, k) <= Start(groups, |groups|)
    decreases |groups| - k
  {
    if k < |groups| {
      StartGrows(groups, k + 1);
    }
  }

  lemma {:induction false} GroupAt(b: Bits, groups: seq<seq<nat>>, k: nat)
    requires Start(groups, |groups|) <= |b| && k < |groups|
    ensures Start(groups, k) + Sum(groups[k]) <= |b|
    ensures ReadGroups(b, groups)[k] == Read(b[Start(groups, k)..], groups[k])
    decreases |groups|
  {
    var last := |groups| - 1;
    StartGrows(groups, k + 1);
    StartPrefix(groups, last, last);
    if k < last {
      StartPrefix(groups, last, k);
      GroupAt(b, groups[..last], k);
    }
  }

  /** The fixed anchor of the first subset and those of the others, in ascending order. */
  function Anchors(mode: nat, part: nat): (a: seq<nat>)
    requires mode < 8
    ensures Ascending(a) && |a| == ModeTable(mode).subsets && forall i | 0 <= i < |a| :: a[i] < 16
  {
    var n := ModeTable(mode).subsets;
    if n == 1 then [0]
    else if n == 2 then [0, SecondSubset(part)]
    else
      var (x, y) := ThirdSubset(part);
      if x < y then [0, x, y] else [0, y, x]
  }

  /** The partition comes right behind the mode. */
  function PartOf(block: Block, mode: nat): Bits
    requires mode < 8
  {
    block[mode + 1..mode + 1 + ModeTable(mode).part]
  }

  lemma {:induction false} CountAll(ps: seq<nat>, j: nat)
    requires forall i | 0 <= i < |ps| :: ps[i] < j
    ensures Count(ps, j) == |ps|
    decreases |ps|
  {
    if ps != [] {
      CountAll(ps[..|ps| - 1], j);
    }
  }

  /** The widths of everything in one list. */
  function Flat<X>(groups: seq<seq<X>>): seq<X> {
    if groups == [] then [] else Flat(groups[..|groups| - 1]) + groups[|groups| - 1]
  }

  /** Reading group by group is one sequential pass over the block. */
  lemma {:induction false} OnePass(b: Bits, groups: seq<seq<nat>>)
    requires Start(groups, |groups|) <= |b|
    ensures Sum(Flat(groups)) == Start(groups, |groups|)
    ensures Read(b, Flat(groups)) == Flat(ReadGroups(b, groups))
    decreases |groups|
  {
    if groups != [] {
      var last := |groups| - 1;
      var front, r := groups[..last], ReadGroups(b, groups);
      StartPrefix(groups, last, last);
      OnePass(b, front);
      ReadJoin(b, Flat(front), groups[last]);
      assert r[..last] == ReadGroups(b, front) && r[last] == Read(b[Start(groups, last)..], groups[last]);
    }
  }

  lemma SumOne(w: nat)
    ensures Sum([w]) == w
  {
    assert [w][1..] == [];
  }

  lemma StartChain(g: seq<seq<nat>>)
    requires |g| == 11
    ensures Start(g, 1) == Sum(g[0]) && Start(g, 2) == Start(g, 1) + Sum(g[1]) && Start(g, 3) == Start(g, 2) + Sum(g[2])
    ensures Start(g, 4) == Start(g, 3) + Sum(g[3]) && Start(g, 5) == Start(g, 4) + Sum(g[4])
    ensures Start(g, 6) == Start(g, 5) + Sum(g[5]) && Start(g, 7) == Start(g, 6) + Sum(g[6])
    ensures Start(g, 8) == Start(g, 7) + Sum(g[7]) && Start(g, 9) == Start(g, 8) + Sum(g[8])
    ensures Start(g, 10) == Start(g, 9) + Sum(g[9]) && Start(g, 11) == Start(g, 10) + Sum(g[10])
  {}

  /** Bits before the endpoints. */
  function Header(mode: nat): nat
    requires mode < 8
  {
    var m := ModeTable(mode);
    mode + 1 + m.part + m.rot + m.sel
  }

  lemma HeaderSums(mode: nat, anchors: seq<nat>)
    requires mode < 8
    ensures var g := Groups(mode, anchors);
            Sum(g[0]) == mode + 1 && Sum(g[0]) + Sum(g[1]) + Sum(g[2]) + Sum(g[3]) == Header(mode)
  {
    var m := ModeTable(mode);
    SumOne(mode + 1);
    SumOne(m.part);
    SumOne(m.rot);
    SumOne(m.sel);
  }

  lemma EndpointSums(mode: nat, anchors: seq<nat>)
    requires mode < 8
    ensures var m, g := ModeTable(mode), Groups(mode, anchors);
            && Sum(g[4]) == Sum(g[5]) == Sum(g[6]) == 2 * m.subsets * m.color
            && Sum(g[7]) == 2 * m.subsets * m.alpha && Sum(g[8]) == m.pbits
  {
    var m := ModeTable(mode);
    SumRepeat(m.color, 2 * m.subsets);
    SumRepeat(m.alpha, 2 * m.subsets);
    SumRepeat(1, m.pbits);
  }

  lemma IndexSums(mode: nat, anchors: seq<nat>)
    requires mode < 8 && Ascending(anchors) && forall i | 0 <= i < |anchors| :: anchors[i] < 16
    ensures var m, g := ModeTable(mode), Groups(mode, anchors);
            && Sum(g[9]) == 16 * m.index - |anchors|
            && Sum(g[10]) == if m.index2 > 0 then 16 * m.index2 - 1 else 0
  {
    var m := ModeTable(mode);
    CountAll(anchors, 16);
    IndicesFit(m.index, anchors);
    if m.index2 > 0 {
      CountAll([0], 16);
      IndicesFit(m.index2, [0]);
    }
  }

  lemma TableSums(mode: nat)
    requires mode < 8
    ensures var m := ModeTable(mode);
            Header(mode) + 3 * (2 * m.subsets * m.color) + 2 * m.subsets * m.alpha + m.pbits
            + 16 * m.index - m.subsets + (if m.index2 > 0 then 16 * m.index2 - 1 else 0) == 128
  {}

  lemma UsedUp(mode: nat, anchors: seq<nat>)
    requires mode < 8 && Ascending(anchors) && forall i | 0 <= i < |anchors| :: anchors[i] < 16
    requires |anchors| == ModeTable(mode).subsets
    ensures Start(Groups(mode, anchors), 11) == 128
  {
    StartChain(Groups(mode, anchors));
    HeaderSums(mode, anchors);
    EndpointSums(mode, anchors);
    IndexSums(mode, anchors);
    TableSums(mode);
  }

  /** Every mode uses up the block exactly. */
  lemma BlockIsUsedUp(mode: nat, part: nat)
    requires mode < 8
    ensures Start(Groups(mode, Anchors(mode, part)), 11) == 128
  {
    UsedUp(mode, Anchors(mode, part));
  }
}

/** The routines that unpack the modes, as far as they take bits out of the block. */
module Bc7Modes {
  import opened BitReader
  import opened Bc7
  import opened Wrappers

  /** Fields of widths `ws` from bit `pos` on. */
  function At(b: Bits, pos: nat, ws: seq<nat>): seq<Bits> {
    if pos + Sum(ws) <= |b| then Read(b[pos..], ws) else []
  }

  function BlockAnchors(block: Block, mode: nat): (a: seq<nat>)
    requires mode < 8
    ensures Ascending(a) && |a| == ModeTable(mode).subsets && forall i | 0 <= i < |a| :: a[i] < 16
  {
    Anchors(mode, Value(PartOf(block, mode)))
  }

  /** What the sequential reader finds, group by group. */
  function ReferenceGroups(block: Block, mode: nat): (r: seq<seq<Bits>>)
    requires mode < 8
    ensures |r| == 11
  {
    BlockIsUsedUp(mode, Value(PartOf(block, mode)));
    ReadGroups(block, Groups(mode, BlockAnchors(block, mode)))
  }

  /** The same as a record. The index selection bit of mode 4 swaps the two sets of indices. */
  function Reference(block: Block, mode: nat): Unpacked
    requires mode < 8
  {
    var r := ReferenceGroups(block, mode);
    Arrange(mode, r[1], r[2], r[3], r[4..8], r[8], r[9], r[10])
  }

  function Arrange(mode: nat, part: seq<Bits>, rot: seq<Bits>, sel: seq<Bits>, endpoints: seq<seq<Bits>>,
                   pbits: seq<Bits>, indices: seq<Bits>, indices2: seq<Bits>): Unpacked
    requires mode < 8
  {
    var m := ModeTable(mode);
    var first, second := PadAll(indices, m.index), PadAll(indices2, m.index2);
    var swap := sel == [[true]];
    Unpacked(part, rot, sel, endpoints, pbits, if swap then second else first, if swap then first else second)
  }

  lemma LowRead(low: Word, high: Word, k: nat, ws: seq<nat>)
    requires k + Sum(ws) <= 64
    ensures Read(Shr(low, k), ws) == At(low + high, k, ws)
  {
    var n := Sum(ws);
    assert Shr(low, k)[..n] == (low + high)[k..][..n];
    ReadPrefix(Shr(low, k), (low + high)[k..], ws);
  }

  lemma HighRead(low: Word, high: Word, k: nat, ws: seq<nat>)
    requires k + Sum(ws) <= 64
    ensures Read(Shr(high, k), ws) == At(low + high, 64 + k, ws)
  {
    var n := Sum(ws);
    assert Shr(high, k)[..n] == (low + high)[64 + k..][..n];
    ReadPrefix(Shr(high, k), (low + high)[64 + k..], ws);
  }

  /** `(low >> k) | (high << (64 - k))` */
  function Across(low: Word, high: Word, k: nat): Word
    requires k <= 64
  {
    OrWords(Shr(low, k), Shl(high, 64 - k))
  }

  lemma AcrossIs(low: Word, high: Word, k: nat)
    requires k <= 64
    ensures Across(low, high, k) == (low + high)[k..k + 64]
  {
    var a := Across(low, high, k);
    forall j | 0 <= j < 64
      ensures a[j] == (low + high)[k + j]
    {
      assert Shr(low, k)[j] == if j < 64 - k then low[k + j] else false;
      assert Shl(high, 64 - k)[j] == if j < 64 - k then false else high[j - (64 - k)];
    }
  }

  lemma AcrossRead(low: Word, high: Word, k: nat, ws: seq<nat>)
    requires k <= 64 && Sum(ws) <= 64
    ensures Read(Across(low, high, k), ws) == At(low + high, k, ws)
  {
    AcrossIs(low, high, k);
    var n := Sum(ws);
    assert (low + high)[k..k + 64][..n] == (low + high)[k..][..n];
    ReadPrefix(Across(low, high, k), (low + high)[k..], ws);
  }

  /** Where group `k` begins, spelled out. */
  function Position(mode: nat, k: nat): nat
    requires mode < 8
  {
    var m := ModeTable(mode);
    var h, c, a := Header(mode), 2 * m.subsets * m.color, 2 * m.subsets * m.alpha;
    if k == 0 then 0
    else if k == 1 then mode + 1
    else if k == 2 then mode + 1 + m.part
    else if k == 3 then mode + 1 + m.part + m.rot
    else if k <= 7 then h + (k - 4) * c
    else if k == 8 then h + 3 * c + a
    else if k == 9 then h + 3 * c + a + m.pbits
    else h + 3 * c + a + m.pbits + 16 * m.index - m.subsets
  }

  lemma PositionIsStart(mode: nat, anchors: seq<nat>, k: nat)
    requires mode < 8 && k < 11 && Ascending(anchors) && forall i | 0 <= i < |anchors| :: anchors[i] < 16
    requires |anchors| == ModeTable(mode).subsets
    ensures Position(mode, k) == Start(Groups(mode, anchors), k)
  {
    StartChain(Groups(mode, anchors));
    HeaderSums(mode, anchors);
    EndpointSums(mode, anchors);
    IndexSums(mode, anchors);
    SumOne(ModeTable(mode).part);
    SumOne(ModeTable(mode).rot);
  }

  /** The reference, group by group, at its position. */
  lemma GroupIs(block: Block, mode: nat, k: nat)
    requires mode < 8 && k < 11
    ensures ReferenceGroups(block, mode)[k] == At(block, Position(mode, k), Groups(mode, BlockAnchors(block, mode))[k])
  {
    var g := Groups(mode, BlockAnchors(block, mode));
    UsedUp(mode, BlockAnchors(block, mode));
    PositionIsStart(mode, BlockAnchors(block, mode), k);
    GroupAt(block, g, k);
  }

  /** `r` is what the reader finds, group by group, each at its position. */
  ghost predicate Follows(r: seq<seq<Bits>>, block: Block, mode: nat, anchors: seq<nat>)
    requires mode < 8
  {
    |r| == 11 && forall k {:trigger Position(mode, k)} | 0 <= k < 11 ::
      r[k] == At(block, Position(mode, k), Groups(mode, anchors)[k])
  }

  lemma ReferenceFollows(block: Block, mode: nat)
    requires mode < 8
    ensures Follows(ReferenceGroups(block, mode), block, mode, BlockAnchors(block, mode))
  {
    forall k {:trigger Position(mode, k)} | 0 <= k < 11
      ensures ReferenceGroups(block, mode)[k]
              == At(block, Position(mode, k), Groups(mode, BlockAnchors(block, mode))[k])
    {
      GroupIs(block, mode, k);
    }
  }

  // ---- putting the zeros in ----

  lemma PlacesSnoc(w: nat, anchors: seq<nat>, a: nat)
    requires w == 2 || w == 3
    ensures Places(w, anchors + [a]) == Places(w, anchors) + [w * (a + 1) - 1]
  {}

  /** One more anchor behind the others. */
  lemma AnchorInserted(z: Word, raw: Word, w: nat, anchors: seq<nat>, a: nat)
    requires (w == 2 || w == 3) && a < 16 && Spread(z, raw, Places(w, anchors))
    requires forall i | 0 <= i < |anchors| :: anchors[i] < a
    ensures Spread(Inserted(z, w * (a + 1) - 1), raw, Places(w, anchors + [a]))
  {
    PlacesSnoc(w, anchors, a);
    SpreadGrows(z, raw, Places(w, anchors), w * (a + 1) - 1);
  }

  /** The index bits of a block with the zeros of its anchors put in, read off as indices. */
  method TakeIndices(raw: Word, w: nat, anchors: seq<nat>) returns (indices: seq<Bits>)
    requires (w == 2 || w == 3) && Ascending(anchors) && forall i | 0 <= i < |anchors| :: anchors[i] < 16
    ensures Sum(IndexWidths(w, anchors)) <= 64
    ensures indices == PadAll(Read(raw, IndexWidths(w, anchors)), w)
  {
    var z := raw;
    SpreadNothing(raw);
    assert Places(w, []) == [];
    for k := 0 to |anchors|
      invariant Spread(z, raw, Places(w, anchors[..k]))
    {
      AnchorInserted(z, raw, w, anchors[..k], anchors[k]);
      assert anchors[..k] + [anchors[k]] == anchors[..k + 1];
      z := InsertWeightZero(z, w, anchors[k]);
    }
    assert anchors[..|anchors|] == anchors;
    AnchorsRead(z, raw, w, anchors);
    var rest;
    indices, rest := TakeFields(z, w, 16);
  }

  // ---- the modes ----

  /** Bits of one channel's endpoints. */
  function ColorBits(mode: nat): nat
    requires mode < 8
  {
    2 * ModeTable(mode).subsets * ModeTable(mode).color
  }

  lemma Channel(r: seq<seq<Bits>>, block: Block, mode: nat, anchors: seq<nat>, channel: nat, at: nat, width: nat,
                n: nat)
    requires mode < 8 && channel < 3 && Follows(r, block, mode, anchors)
    requires width == ModeTable(mode).color && n == 2 * ModeTable(mode).subsets
    requires at == Header(mode) + channel * ColorBits(mode)
    ensures r[4 + channel] == At(block, at, Repeat(width, n)) && Sum(Repeat(width, n)) == n * width
  {
    SumRepeat(width, n);
    assert r[4 + channel] == At(block, Position(mode, 4 + channel), Groups(mode, anchors)[4 + channel]);
  }

  lemma Alpha(r: seq<seq<Bits>>, block: Block, mode: nat, anchors: seq<nat>, at: nat, width: nat, n: nat)
    requires mode < 8 && Follows(r, block, mode, anchors)
    requires width == ModeTable(mode).alpha && n == 2 * ModeTable(mode).subsets
    requires at == Header(mode) + 3 * ColorBits(mode)
    ensures r[7] == if width > 0 then At(block, at, Repeat(width, n)) else []
    ensures Sum(Repeat(width, n)) == n * width
  {
    SumRepeat(width, n);
    assert r[7] == At(block, Position(mode, 7), Groups(mode, anchors)[7]);
  }

  /** The widths of the partition, the rotation and the index selector. */
  function FieldWidth(mode: nat, k: nat): nat
    requires mode < 8
  {
    if k == 1 then ModeTable(mode).part else if k == 2 then ModeTable(mode).rot else ModeTable(mode).sel
  }

  lemma HeaderGroup(r: seq<seq<Bits>>, block: Block, mode: nat, anchors: seq<nat>, k: nat, at: nat, width: nat)
    requires mode < 8 && Follows(r, block, mode, anchors) && 1 <= k <= 3 && at == Position(mode, k)
    requires width == FieldWidth(mode, k)
    ensures at + width <= 128 ==> r[k] == [block[at..at + width]]
  {
    SumOne(width);
    assert r[k] == At(block, Position(mode, k), Groups(mode, anchors)[k]);
    assert [width][1..] == [];
    if at + width <= 128 {
      assert block[at..][..width] == block[at..at + width];
    }
  }

  lemma PBits(r: seq<seq<Bits>>, block: Block, mode: nat, anchors: seq<nat>, at: nat, n: nat)
    requires mode < 8 && Follows(r, block, mode, anchors) && at == Position(mode, 8) && n == ModeTable(mode).pbits
    ensures r[8] == At(block, at, Repeat(1, n)) && Sum(Repeat(1, n)) == n
  {
    SumRepeat(1, n);
    assert r[8] == At(block, Position(mode, 8), Groups(mode, anchors)[8]);
  }

  lemma Indices(r: seq<seq<Bits>>, block: Block, mode: nat, anchors: seq<nat>, at: nat, w: nat)
    requires mode < 8 && Follows(r, block, mode, anchors) && at == Position(mode, 9) && w == ModeTable(mode).index
    requires Ascending(anchors) && forall i | 0 <= i < |anchors| :: anchors[i] < 16
    ensures r[9] == At(block, at, IndexWidths(w, anchors)) && Sum(IndexWidths(w, anchors)) == 16 * w - |anchors|
  {
    IndexSums(mode, anchors);
    assert r[9] == At(block, Position(mode, 9), Groups(mode, anchors)[9]);
  }

  lemma SecondIndices(r: seq<seq<Bits>>, block: Block, mode: nat, anchors: seq<nat>, at: nat, w: nat)
    requires mode < 8 && Follows(r, block, mode, anchors) && at == Position(mode, 10) && w == ModeTable(mode).index2
    ensures w == 0 ==> r[10] == []
    ensures w > 0 ==> r[10] == At(block, at, IndexWidths(w, [0])) && Sum(IndexWidths(w, [0])) == 16 * w - 1
  {
    if w > 0 {
      IndexSums(mode, [0]);
    }
    assert r[10] == At(block, Position(mode, 10), Groups(mode, anchors)[10]);
  }

  // ---- a channel, by where its chunk comes from ----

  lemma ChannelLow(r: seq<seq<Bits>>, low: Word, high: Word, mode: nat, anchors: seq<nat>, channel: nat, k: nat,
                   w: nat, n: nat)
    requires mode < 8 && channel < 3 && Follows(r, low + high, mode, anchors)
    requires w == ModeTable(mode).color && n == 2 * ModeTable(mode).subsets && k + n * w <= 64
    requires k == Header(mode) + channel * ColorBits(mode)
    ensures Sum(Repeat(w, n)) <= 64 && r[4 + channel] == Read(Shr(low, k), Repeat(w, n))
  {
    Channel(r, low + high, mode, anchors, channel, k, w, n);
    LowRead(low, high, k, Repeat(w, n));
  }

  lemma ChannelAcross(r: seq<seq<Bits>>, low: Word, high: Word, mode: nat, anchors: seq<nat>, channel: nat, k: nat,
                      w: nat, n: nat)
    requires mode < 8 && channel < 3 && Follows(r, low + high, mode, anchors)
    requires w == ModeTable(mode).color && n == 2 * ModeTable(mode).subsets && k <= 64 && n * w <= 64
    requires k == Header(mode) + channel * ColorBits(mode)
    ensures Sum(Repeat(w, n)) <= 64 && r[4 + channel] == Read(Across(low, high, k), Repeat(w, n))
  {
    Channel(r, low + high, mode, anchors, channel, k, w, n);
    AcrossRead(low, high, k, Repeat(w, n));
  }

  lemma ChannelHigh(r: seq<seq<Bits>>, low: Word, high: Word, mode: nat, anchors: seq<nat>, channel: nat, k: nat,
                    w: nat, n: nat)
    requires mode < 8 && channel < 3 && Follows(r, low + high, mode, anchors)
    requires w == ModeTable(mode).color && n == 2 * ModeTable(mode).subsets && k + n * w <= 64
    requires 64 + k == Header(mode) + channel * ColorBits(mode)
    ensures Sum(Repeat(w, n)) <= 64 && r[4 + channel] == Read(Shr(high, k), Repeat(w, n))
  {
    Channel(r, low + high, mode, anchors, channel, 64 + k, w, n);
    HighRead(low, high, k, Repeat(w, n));
  }

  /** The indices, when their bits are the top of the high word. */
  lemma IndicesHigh(r: seq<seq<Bits>>, low: Word, high: Word, mode: nat, anchors: seq<nat>, k: nat, w: nat)
    requires mode < 8 && Follows(r, low + high, mode, anchors) && w == ModeTable(mode).index
    requires Ascending(anchors) && forall i | 0 <= i < |anchors| :: anchors[i] < 16
    requires 64 + k == Position(mode, 9) && k + 16 * w - |anchors| <= 64
    ensures Sum(IndexWidths(w, anchors)) <= 64 && r[9] == Read(Shr(high, k), IndexWidths(w, anchors))
  {
    Indices(r, low + high, mode, anchors, 64 + k, w);
    HighRead(low, high, k, IndexWidths(w, anchors));
  }

  lemma PBitsHigh(r: seq<seq<Bits>>, low: Word, high: Word, mode: nat, anchors: seq<nat>, k: nat, n: nat)
    requires mode < 8 && Follows(r, low + high, mode, anchors) && n == ModeTable(mode).pbits
    requires 64 + k == Position(mode, 8) && k + n <= 64
    ensures Sum(Repeat(1, n)) <= 64 && r[8] == Read(Shr(high, k), Repeat(1, n))
  {
    PBits(r, low + high, mode, anchors, 64 + k, n);
    HighRead(low, high, k, Repeat(1, n));
  }

  lemma HeaderLow(r: seq<seq<Bits>>, low: Word, high: Word, mode: nat, anchors: seq<nat>, i: nat, k: nat, width: nat)
    requires mode < 8 && Follows(r, low + high, mode, anchors) && 1 <= i <= 3 && k == Position(mode, i)
             && k + width <= 64
    requires width == FieldWidth(mode, i)
    ensures r[i] == [Shr(low, k)[..width]]
  {
    HeaderGroup(r, low + high, mode, anchors, i, k, width);
    assert (low + high)[k..k + width] == Shr(low, k)[..width];
  }

  lemma AlphaHigh(r: seq<seq<Bits>>, low: Word, high: Word, mode: nat, anchors: seq<nat>, k: nat, w: nat, n: nat)
    requires mode < 8 && Follows(r, low + high, mode, anchors)
    requires 0 < w == ModeTable(mode).alpha && n == 2 * ModeTable(mode).subsets && k + n * w <= 64
    requires 64 + k == Header(mode) + 3 * ColorBits(mode)
    ensures Sum(Repeat(w, n)) <= 64 && r[7] == Read(Shr(high, k), Repeat(w, n))
  {
    Alpha(r, low + high, mode, anchors, 64 + k, w, n);
    HighRead(low, high, k, Repeat(w, n));
  }

  // ---- the loops ----

  /** The endpoints of every channel from its chunk. */
  method TakeChannels(chunks: seq<Word>, w: nat, n: nat) returns (endpoints: seq<seq<Bits>>)
    requires Sum(Repeat(w, n)) <= 64
    ensures |endpoints| == |chunks| && forall c | 0 <= c < |chunks| :: endpoints[c] == Read(chunks[c], Repeat(w, n))
  {
    endpoints := [];
    for c := 0 to |chunks|
      invariant |endpoints| == c && forall i | 0 <= i < c :: endpoints[i] == Read(chunks[i], Repeat(w, n))
    {
      var fields, rest := TakeFields(chunks[c], w, n);
      endpoints := endpoints + [fields];
    }
  }

  /** `(chunk >> p) & 1`, for each p-bit. */
  method TakeBits(chunk: Word, n: nat) returns (bits: seq<Bits>)
    requires n <= 64
    ensures Sum(Repeat(1, n)) == n && bits == Read(chunk, Repeat(1, n))
  {
    SumRepeat(1, n);
    bits := [];
    for p := 0 to n
      invariant Sum(Repeat(1, p)) == p && bits == Read(chunk, Repeat(1, p))
    {
      NextBit(chunk, p);
      bits := bits + [Shr(chunk, p)[..1]];
    }
  }

  lemma NextBit(chunk: Word, p: nat)
    requires p < 64 && Sum(Repeat(1, p)) == p
    ensures Sum(Repeat(1, p + 1)) == p + 1
    ensures Read(chunk, Repeat(1, p + 1)) == Read(chunk, Repeat(1, p)) + [Shr(chunk, p)[..1]]
  {
    SumRepeat(1, p + 1);
    RepeatSnoc(1, p);
    SumOne(1);
    ReadJoin(chunk, Repeat(1, p), [1]);
    assert Read(chunk[p..], [1]) == [chunk[p..][..1]];
    assert chunk[p..][..1] == Shr(chunk, p)[..1];
  }

  lemma MaskedRead(x: Word, m: nat, ws: seq<nat>)
    requires Sum(ws) <= m <= 64
    ensures Read(AndWords(x, LowMask(m)), ws) == Read(x, ws)
  {
    assert AndWords(x, LowMask(m))[..Sum(ws)] == x[..Sum(ws)];
    ReadPrefix(AndWords(x, LowMask(m)), x, ws);
  }

  // ---- modes 0 and 2: three subsets ----

  method Chunks02(mode: nat, low: Word, high: Word, ghost anchors: seq<nat>, ghost r: seq<seq<Bits>>, w: nat, n: nat)
    returns (chunks: seq<Word>)
    requires (mode == 0 || mode == 2) && Follows(r, low + high, mode, anchors)
    requires w == (if mode == 0 then 4 else 5) && n == 6
    ensures Sum(Repeat(w, n)) <= 64 && |chunks| == 3
    ensures forall c | 0 <= c < 3 :: r[4 + c] == Read(chunks[c], Repeat(w, n))
    ensures r[7] == []
  {
    Alpha(r, low + high, mode, anchors, Header(mode) + 3 * ColorBits(mode), 0, n);
    if mode == 0 {
      chunks := [Shr(low, 5), Shr(low, 29), OrWords(Shr(low, 53), Shl(high, 11))];
      ChannelLow(r, low, high, mode, anchors, 0, 5, w, n);
      ChannelLow(r, low, high, mode, anchors, 1, 29, w, n);
      ChannelAcross(r, low, high, mode, anchors, 2, 53, w, n);
    } else {
      chunks := [Shr(low, 9), OrWords(Shr(low, 39), Shl(high, 25)), Shr(high, 5)];
      ChannelLow(r, low, high, mode, anchors, 0, 9, w, n);
      ChannelAcross(r, low, high, mode, anchors, 1, 39, w, n);
      ChannelHigh(r, low, high, mode, anchors, 2, 5, w, n);
    }
  }

  method PBits02(mode: nat, low: Word, high: Word, ghost anchors: seq<nat>, ghost r: seq<seq<Bits>>)
    returns (pbits: seq<Bits>)
    requires (mode == 0 || mode == 2) && Follows(r, low + high, mode, anchors)
    ensures pbits == r[8]
  {
    if mode == 0 {
      var n := 6;
      pbits := TakeBits(AndWords(Shr(high, 13), LowMask(8)), n);
      MaskedRead(Shr(high, 13), 8, Repeat(1, n));
      PBitsHigh(r, low, high, mode, anchors, 13, n);
    } else {
      pbits := [];
      PBits(r, low + high, mode, anchors, Position(mode, 8), 0);
    }
  }

  /** Modes without rotation and index selection have empty fields there. */
  lemma NoRotation(r: seq<seq<Bits>>, low: Word, high: Word, mode: nat, anchors: seq<nat>)
    requires mode < 4 || mode == 6 || mode == 7
    requires Follows(r, low + high, mode, anchors)
    ensures r[2] == [[]] && r[3] == [[]] && r[10] == []
  {
    HeaderLow(r, low, high, mode, anchors, 2, Position(mode, 2), 0);
    HeaderLow(r, low, high, mode, anchors, 3, Position(mode, 3), 0);
    SecondIndices(r, low + high, mode, anchors, Position(mode, 10), 0);
  }

  /** `unpack_bc7_mode0_2`. */
  method UnpackMode02(mode: nat, low: Word, high: Word, anchors: seq<nat>, ghost r: seq<seq<Bits>>)
    returns (u: Unpacked)
    requires (mode == 0 || mode == 2) && Follows(r, low + high, mode, anchors)
    requires Ascending(anchors) && |anchors| == 3 && forall i | 0 <= i < |anchors| :: anchors[i] < 16
    ensures u == Arrange(mode, r[1], r[2], r[3], r[4..8], r[8], r[9], r[10])
  {
    var w, endpointBits, partBits, n := 2, 5, 6, 6;
    if mode == 0 {
      w, endpointBits, partBits := 3, 4, 4;
    }
    var part := Shr(low, mode + 1)[..partBits];
    HeaderLow(r, low, high, mode, anchors, 1, mode + 1, partBits);
    NoRotation(r, low, high, mode, anchors);
    var chunks := Chunks02(mode, low, high, anchors, r, endpointBits, n);
    var endpoints := TakeChannels(chunks, endpointBits, n);
    assert endpoints + [[]] == r[4..8];
    var pbits := PBits02(mode, low, high, anchors, r);
    IndicesHigh(r, low, high, mode, anchors, 67 - 16 * w, w);
    var weights := TakeIndices(Shr(high, 67 - 16 * w), w, anchors);
    u := Unpacked([part], [[]], [[]], endpoints + [[]], pbits, weights, []);
  }

  // ---- modes 1, 3 and 7: two subsets ----

  method Chunks137(mode: nat, low: Word, high: Word, ghost anchors: seq<nat>, ghost r: seq<seq<Bits>>, w: nat, n: nat)
    returns (chunks: seq<Word>)
    requires (mode == 1 || mode == 3 || mode == 7) && Follows(r, low + high, mode, anchors)
    requires w == (if mode == 7 then 5 else if mode == 1 then 6 else 7) && n == 4
    ensures Sum(Repeat(w, n)) <= 64 && |chunks| == (if mode == 7 then 4 else 3)
    ensures forall c | 0 <= c < |chunks| :: r[4 + c] == Read(chunks[c], Repeat(w, n))
    ensures mode != 7 ==> r[7] == []
  {
    if mode == 1 {
      chunks := [Shr(low, 8), Shr(low, 32), OrWords(Shr(low, 56), Shl(high, 8))];
      ChannelLow(r, low, high, mode, anchors, 0, 8, w, n);
      ChannelLow(r, low, high, mode, anchors, 1, 32, w, n);
      ChannelAcross(r, low, high, mode, anchors, 2, 56, w, n);
      Alpha(r, low + high, mode, anchors, 80, 0, n);
    } else if mode == 3 {
      chunks := [Shr(low, 10), OrWords(Shr(low, 38), Shl(high, 26)), Shr(high, 2)];
      ChannelLow(r, low, high, mode, anchors, 0, 10, w, n);
      ChannelAcross(r, low, high, mode, anchors, 1, 38, w, n);
      ChannelHigh(r, low, high, mode, anchors, 2, 2, w, n);
      Alpha(r, low + high, mode, anchors, 94, 0, n);
    } else {
      chunks := [Shr(low, 14), Shr(low, 34), OrWords(Shr(low, 54), Shl(high, 10)), Shr(high, 10)];
      ChannelLow(r, low, high, mode, anchors, 0, 14, w, n);
      ChannelLow(r, low, high, mode, anchors, 1, 34, w, n);
      ChannelAcross(r, low, high, mode, anchors, 2, 54, w, n);
      AlphaHigh(r, low, high, mode, anchors, 10, w, n);
    }
  }

  /** `unpack_bc7_mode1_3_7`. */
  method UnpackMode137(mode: nat, low: Word, high: Word, anchors: seq<nat>, ghost r: seq<seq<Bits>>)
    returns (u: Unpacked)
    requires (mode == 1 || mode == 3 || mode == 7) && Follows(r, low + high, mode, anchors)
    requires Ascending(anchors) && |anchors| == 2 && forall i | 0 <= i < |anchors| :: anchors[i] < 16
    ensures u == Arrange(mode, r[1], r[2], r[3], r[4..8], r[8], r[9], r[10])
  {
    var w, endpointBits, pBits, n := 2, if mode == 7 then 5 else 7, 4, 4;
    var pAt, weightsAt := 30, 34;
    if mode == 1 {
      w, endpointBits, pBits, pAt, weightsAt := 3, 6, 2, 16, 18;
    }
    var part := Shr(low, mode + 1)[..6];
    HeaderLow(r, low, high, mode, anchors, 1, mode + 1, 6);
    NoRotation(r, low, high, mode, anchors);
    var chunks := Chunks137(mode, low, high, anchors, r, endpointBits, n);
    var endpoints := TakeChannels(chunks, endpointBits, n);
    if mode != 7 {
      endpoints := endpoints + [[]];
    }
    assert endpoints == r[4..8];
    PBitsHigh(r, low, high, mode, anchors, pAt, pBits);
    var pbits := TakeBits(Shr(high, pAt), pBits);
    IndicesHigh(r, low, high, mode, anchors, weightsAt, w);
    var weights := TakeIndices(Shr(high, weightsAt), w, anchors);
    u := Unpacked([part], [[]], [[]], endpoints, pbits, weights, []);
  }

  // ---- modes 4 and 5: one subset, two sets of indices ----

  /** A word that begins with the bits of the block from `k` on. */
  lemma WordRead(x: Word, block: Block, k: nat, m: nat, ws: seq<nat>)
    requires m <= 64 && k + m <= 128 && x[..m] == block[k..k + m] && Sum(ws) <= m
    ensures Read(x, ws) == At(block, k, ws)
  {
    var n := Sum(ws);
    assert x[..n] == x[..m][..n] && block[k..][..n] == block[k..k + m][..n];
    ReadPrefix(x, block[k..], ws);
  }

  /** Taking fields off the word moves the place it begins at. */
  lemma RestBegins(x: Word, rest: Word, block: Block, k: nat, m: nat, s: nat)
    requires s <= m <= 64 && k + m <= 128 && x[..m] == block[k..k + m]
    requires rest[..64 - s] == x[s..]
    ensures rest[..m - s] == block[k + s..k + m]
  {
    assert rest[..m - s] == rest[..64 - s][..m - s];
    assert x[s..][..m - s] == x[..m][s..];
  }

  /** The colour loop of modes 4 and 5: one word, shifted on from channel to channel. */
  method Colors45(mode: nat, low: Word, high: Word, ghost anchors: seq<nat>, ghost r: seq<seq<Bits>>, w: nat)
    returns (colors: seq<seq<Bits>>, rest: Word)
    requires (mode == 4 || mode == 5) && Follows(r, low + high, mode, anchors) && w == (if mode == 4 then 5 else 7)
    ensures colors == [r[4], r[5], r[6]]
    ensures rest[..56 - 6 * w] == (low + high)[8 + 6 * w..64]
  {
    ghost var block: Block := low + high;
    var n := 2;
    var chunk := Shr(low, 8);
    assert chunk[..56] == block[8..64];
    Channel(r, block, mode, anchors, 0, 8, w, n);
    Channel(r, block, mode, anchors, 1, 8 + 2 * w, w, n);
    Channel(r, block, mode, anchors, 2, 8 + 4 * w, w, n);
    var red, green, blue;
    WordRead(chunk, block, 8, 56, Repeat(w, n));
    red, rest := TakeFields(chunk, w, n);
    RestBegins(chunk, rest, block, 8, 56, 2 * w);
    chunk := rest;
    WordRead(chunk, block, 8 + 2 * w, 56 - 2 * w, Repeat(w, n));
    green, rest := TakeFields(chunk, w, n);
    RestBegins(chunk, rest, block, 8 + 2 * w, 56 - 2 * w, 2 * w);
    chunk := rest;
    WordRead(chunk, block, 8 + 4 * w, 56 - 4 * w, Repeat(w, n));
    blue, rest := TakeFields(chunk, w, n);
    RestBegins(chunk, rest, block, 8 + 4 * w, 56 - 4 * w, 2 * w);
    colors := [red, green, blue];
  }

  lemma TwoFields(block: Block, p: nat, w: nat, n: nat)
    requires n == 2 && p + n * w <= 128
    ensures Sum(Repeat(w, n)) == 2 * w
    ensures At(block, p, Repeat(w, n)) == [block[p..p + w], block[p + w..p + 2 * w]]
  {
    SumRepeat(w, n);
    var b, ws := block[p..], Repeat(w, n);
    ReadAt(b, ws, 0);
    ReadAt(b, ws, 1);
    SumOne(w);
    assert ws[..0] == [] && ws[..1] == [w];
    Slice(block, p, 0, w);
    Slice(block, p, w, w);
  }

  method Alphas45(mode: nat, low: Word, high: Word, ghost anchors: seq<nat>, ghost r: seq<seq<Bits>>, rest: Word,
                  a: nat, ghost w: nat)
    returns (alphas: seq<Bits>)
    requires (mode == 4 || mode == 5) && Follows(r, low + high, mode, anchors)
    requires a == (if mode == 4 then 6 else 8) && w == (if mode == 4 then 5 else 7)
    requires rest[..56 - 6 * w] == (low + high)[8 + 6 * w..64]
    ensures alphas == r[7]
  {
    ghost var block: Block := low + high;
    ghost var p, n := 8 + 6 * w, 2;
    Alpha(r, block, mode, anchors, p, a, n);
    TwoFields(block, p, a, n);
    ghost var m := 56 - 6 * w;
    assert rest[..m][..a] == rest[..a] && block[p..p + m][..a] == block[p..p + a];
    if mode == 4 {
      alphas := [rest[..a], Shr(rest, a)[..a]];
      assert rest[..m][a..a + a] == Shr(rest, a)[..a] && block[p..p + m][a..a + a] == block[p + a..p + 2 * a];
    } else {
      alphas := [rest[..a], OrWords(Shr(low, 58), Shl(high, 6))[..a]];
      AcrossIs(low, high, 58);
      assert Across(low, high, 58)[..a] == block[p + a..p + 2 * a];
    }
  }

  predicate OnlyFirst(anchors: seq<nat>) {
    |anchors| == 1 && anchors[0] == 0
  }

  lemma IndicesAcross(r: seq<seq<Bits>>, low: Word, high: Word, mode: nat, anchors: seq<nat>, k: nat, w: nat)
    requires mode < 8 && Follows(r, low + high, mode, anchors) && w == ModeTable(mode).index && OnlyFirst(anchors)
    requires k <= 64 && k == Position(mode, 9) && 16 * w - 1 <= 64
    ensures Sum(IndexWidths(w, anchors)) <= 64 && r[9] == Read(Across(low, high, k), IndexWidths(w, anchors))
  {
    Indices(r, low + high, mode, anchors, k, w);
    AcrossRead(low, high, k, IndexWidths(w, anchors));
  }

  lemma SecondHigh(r: seq<seq<Bits>>, low: Word, high: Word, mode: nat, anchors: seq<nat>, k: nat, w: nat)
    requires mode < 8 && Follows(r, low + high, mode, anchors) && 0 < w == ModeTable(mode).index2 && OnlyFirst(anchors)
    requires 64 + k == Position(mode, 10) && k + 16 * w - 1 <= 64
    ensures Sum(IndexWidths(w, anchors)) <= 64 && r[10] == Read(Shr(high, k), IndexWidths(w, anchors))
  {
    assert anchors == [0];
    SecondIndices(r, low + high, mode, anchors, 64 + k, w);
    HighRead(low, high, k, IndexWidths(w, anchors));
  }

  method Indices45(mode: nat, low: Word, high: Word, anchors: seq<nat>, ghost r: seq<seq<Bits>>, w: nat, a: nat)
    returns (first: seq<Bits>, second: seq<Bits>)
    requires (mode == 4 || mode == 5) && Follows(r, low + high, mode, anchors) && OnlyFirst(anchors)
    requires w == 2 && a == (if mode == 4 then 3 else 2)
    ensures first == PadAll(r[9], w) && second == PadAll(r[10], a)
  {
    if mode == 4 {
      IndicesAcross(r, low, high, mode, anchors, 50, w);
      first := TakeIndices(OrWords(Shr(low, 50), Shl(high, 14)), w, anchors);
      SecondHigh(r, low, high, mode, anchors, 17, a);
      second := TakeIndices(Shr(high, 17), a, anchors);
    } else {
      IndicesHigh(r, low, high, mode, anchors, 2, w);
      first := TakeIndices(Shr(high, 2), w, anchors);
      SecondHigh(r, low, high, mode, anchors, 33, a);
      second := TakeIndices(Shr(high, 33), a, anchors);
    }
  }

  method Header45(mode: nat, low: Word, high: Word, ghost anchors: seq<nat>, ghost r: seq<seq<Bits>>)
    returns (rotation: Bits, indexMode: Bits)
    requires (mode == 4 || mode == 5) && Follows(r, low + high, mode, anchors)
    ensures r[1] == [[]] && r[2] == [rotation] && r[3] == [indexMode] && r[8] == []
  {
    rotation := Shr(low, mode + 1)[..2];
    indexMode := if mode == 4 then Shr(low, 7)[..1] else [];
    HeaderLow(r, low, high, mode, anchors, 1, mode + 1, 0);
    HeaderLow(r, low, high, mode, anchors, 2, mode + 1, 2);
    HeaderLow(r, low, high, mode, anchors, 3, mode + 3, if mode == 4 then 1 else 0);
    PBits(r, low + high, mode, anchors, Position(mode, 8), 0);
  }

  /** `unpack_bc7_mode4_5`. */
  method UnpackMode45(mode: nat, low: Word, high: Word, anchors: seq<nat>, ghost r: seq<seq<Bits>>)
    returns (u: Unpacked)
    requires (mode == 4 || mode == 5) && Follows(r, low + high, mode, anchors) && OnlyFirst(anchors)
    ensures u == Arrange(mode, r[1], r[2], r[3], r[4..8], r[8], r[9], r[10])
  {
    var w, a, endpointBits, alphaBits := 2, 2, 7, 8;
    if mode == 4 {
      a, endpointBits, alphaBits := 3, 5, 6;
    }
    var rotation, indexMode := Header45(mode, low, high, anchors, r);
    var colors, rest := Colors45(mode, low, high, anchors, r, endpointBits);
    var alphas := Alphas45(mode, low, high, anchors, r, rest, alphaBits, endpointBits);
    assert colors + [alphas] == r[4..8];
    var rgbWeights, aWeights := Indices45(mode, low, high, anchors, r, w, a);
    if indexMode == [true] {
      rgbWeights, aWeights := aWeights, rgbWeights;
    }
    u := Unpacked([[]], [rotation], [indexMode], colors + [alphas], [], rgbWeights, aWeights);
  }

  // ---- mode 6: bit-fields ----

  /** A member of the bit-field structure laid over a word, from the lowest bit on. */
  function Member(w: Word, at: nat, width: nat): Bits
    requires at + width <= 64
  {
    w[at..at + width]
  }

  lemma Pair6(r: seq<seq<Bits>>, low: Word, high: Word, anchors: seq<nat>, channel: nat, at: nat)
    requires Follows(r, low + high, 6, anchors) && channel < 4 && at == 7 + 14 * channel
    ensures r[4 + channel] == [Member(low, at, 7), Member(low, at + 7, 7)]
  {
    var w, n := 7, 2;
    if channel < 3 {
      Channel(r, low + high, 6, anchors, channel, at, w, n);
    } else {
      Alpha(r, low + high, 6, anchors, at, w, n);
    }
    var block: Block := low + high;
    TwoFields(block, at, w, n);
    assert block[at..at + w] == Member(low, at, 7) && block[at + w..at + 2 * w] == Member(low, at + 7, 7);
  }

  lemma PBits6(r: seq<seq<Bits>>, low: Word, high: Word, anchors: seq<nat>)
    requires Follows(r, low + high, 6, anchors)
    ensures r[8] == [Member(low, 63, 1), Member(high, 0, 1)]
  {
    var w, n := 1, 2;
    PBits(r, low + high, 6, anchors, 63, n);
    TwoFields(low + high, 63, w, n);
    var block: Block := low + high;
    assert block[63..64] == Member(low, 63, 1) && block[64..65] == Member(high, 0, 1);
  }

  lemma Index6(r: seq<seq<Bits>>, low: Word, high: Word, anchors: seq<nat>, i: nat, w: nat)
    requires Follows(r, low + high, 6, anchors) && OnlyFirst(anchors) && i < 16 && w == 4
    ensures |r[9]| == 16
    ensures r[9][i] == if i == 0 then Member(high, 1, 3) else Member(high, 4 * i, 4)
  {
    var block: Block := low + high;
    var ws := IndexWidths(w, anchors);
    Indices(r, block, 6, anchors, 65, w);
    ReadAt(block[65..], ws, i);
    SumOfIndexWidths(w, anchors, i);
    OneBefore(anchors, i);
    Slice(block, 65, Sum(ws[..i]), ws[i]);
  }

  lemma OneBefore(anchors: seq<nat>, i: nat)
    requires OnlyFirst(anchors)
    ensures Count(anchors, i) == (if i == 0 then 0 else 1) && (i in anchors <==> i == 0)
  {
    assert anchors[..0] == [];
  }

  /** `unpack_bc7_mode6`: the indices in the order of the pixels. */
  method UnpackMode6(low: Word, high: Word, ghost anchors: seq<nat>, ghost r: seq<seq<Bits>>) returns (u: Unpacked)
    requires Follows(r, low + high, 6, anchors) && OnlyFirst(anchors)
    ensures u == Arrange(6, r[1], r[2], r[3], r[4..8], r[8], r[9], r[10])
  {
    HeaderLow(r, low, high, 6, anchors, 1, 7, 0);
    NoRotation(r, low, high, 6, anchors);
    PBits6(r, low, high, anchors);
    var endpoints := Endpoints6(low, high, anchors, r);
    var weights := Weights6(low, high, anchors, r);
    u := Unpacked([[]], [[]], [[]], endpoints, [Member(low, 63, 1), Member(high, 0, 1)], weights, []);
  }

  method Endpoints6(low: Word, high: Word, ghost anchors: seq<nat>, ghost r: seq<seq<Bits>>)
    returns (endpoints: seq<seq<Bits>>)
    requires Follows(r, low + high, 6, anchors)
    ensures endpoints == r[4..8]
  {
    Pair6(r, low, high, anchors, 0, 7);
    Pair6(r, low, high, anchors, 1, 21);
    Pair6(r, low, high, anchors, 2, 35);
    Pair6(r, low, high, anchors, 3, 49);
    endpoints := [[Member(low, 7, 7), Member(low, 14, 7)], [Member(low, 21, 7), Member(low, 28, 7)],
                  [Member(low, 35, 7), Member(low, 42, 7)], [Member(low, 49, 7), Member(low, 56, 7)]];
  }

  method Weights6(low: Word, high: Word, ghost anchors: seq<nat>, ghost r: seq<seq<Bits>>) returns (weights: seq<Bits>)
    requires Follows(r, low + high, 6, anchors) && OnlyFirst(anchors)
    ensures weights == PadAll(r[9], 4)
  {
    var w := 4;
    Index6(r, low, high, anchors, 0, w);
    weights := [Pad(Member(high, 1, 3), w)];
    for i := 1 to 16
      invariant |weights| == i && forall j | 0 <= j < i :: weights[j] == Pad(r[9][j], w)
    {
      Index6(r, low, high, anchors, i, w);
      weights := weights + [Member(high, 4 * i, 4)];
    }
  }

  // ---- any block ----

  /** The number of the lowest bit set, or the length. */
  function LowestSet(b: Bits): (n: nat)
    ensures n <= |b| && (n < |b| <==> true in b)
    ensures (forall i | 0 <= i < n :: !b[i]) && (n < |b| ==> b[n])
  {
    if b == [] || b[0] then 0 else LowestSet(b[1..]) + 1
  }

  function Pick16<T>(j: nat, v0: T, v1: T, v2: T, v3: T, v4: T, v5: T, v6: T, v7: T,
                     v8: T, v9: T, v10: T, v11: T, v12: T, v13: T, v14: T, v15: T): T {
    if j < 8 then Pick8(j, v0, v1, v2, v3, v4, v5, v6, v7) else Pick8(j - 8, v8, v9, v10, v11, v12, v13, v14, v15)
  }

  /** A row of `g_bc7_first_byte_to_mode`: the sixteen rows differ in the first column only. */
  function ModeRow(first: nat, column: nat): nat {
    Pick16(column, first, 0, 1, 0, 2, 0, 1, 0, 3, 0, 1, 0, 2, 0, 1, 0)
  }

  /** `g_bc7_first_byte_to_mode`, sixteen entries to a row. */
  function FirstByteToMode(byte: nat): nat
    requires byte < 256
  {
    ModeRow(Pick16(byte / 16, 8, 4, 5, 4, 6, 4, 5, 4, 7, 4, 5, 4, 6, 4, 5, 4), byte % 16)
  }

  /** The number of a nibble. */
  function Nibble(b: Bits): (n: nat)
    requires |b| == 4
    ensures n < 16
  {
    (if b[0] then 1 else 0) + (if b[1] then 2 else 0) + (if b[2] then 4 else 0) + (if b[3] then 8 else 0)
  }

  lemma ByteIsTwoNibbles(b: Bits)
    requires |b| == 8
    ensures Value(b) == Nibble(b[..4]) + 16 * Nibble(b[4..])
  {
    ValueOfFour(b, Value(b[4..]));
    ValueOfFour(b[4..], 0);
  }

  lemma ValueOfFour(b: Bits, rest: nat)
    requires |b| >= 4 && rest == Value(b[4..])
    ensures Value(b) == Nibble(b[..4]) + 16 * rest
  {
    assert b[1..][1..] == b[2..] && b[2..][1..] == b[3..] && b[3..][1..] == b[4..];
    assert Value(b[3..]) == (if b[3] then 1 else 0) + 2 * rest;
    assert Value(b[2..]) == (if b[2] then 1 else 0) + 2 * Value(b[3..]);
    assert Value(b[1..]) == (if b[1] then 1 else 0) + 2 * Value(b[2..]);
  }

  lemma LowestOfNibble(b: Bits)
    requires |b| >= 4
    ensures LowestSet(b) == if b[0] then 0 else if b[1] then 1 else if b[2] then 2 else if b[3] then 3
                            else 4 + LowestSet(b[4..])
  {
    assert b[1..][1..] == b[2..] && b[2..][1..] == b[3..] && b[3..][1..] == b[4..];
    assert !b[0] ==> LowestSet(b) == 1 + LowestSet(b[1..]);
    assert !b[1] ==> LowestSet(b[1..]) == 1 + LowestSet(b[2..]);
    assert !b[2] ==> LowestSet(b[2..]) == 1 + LowestSet(b[3..]);
    assert !b[3] ==> LowestSet(b[3..]) == 1 + LowestSet(b[4..]);
  }

  /** The table gives the number of the lowest bit set, or 8. */
  lemma TableIsLowestSet(b: Bits)
    requires |b| == 8
    ensures Value(b) < 256 && FirstByteToMode(Value(b)) == LowestSet(b)
  {
    var low, high := Nibble(b[..4]), Nibble(b[4..]);
    ByteIsTwoNibbles(b);
    assert Value(b) / 16 == high && Value(b) % 16 == low;
    LowestOfNibble(b);
    LowestOfNibble(b[4..]);
    assert LowestSet(b[4..][4..]) == 0;
  }

  /** The offsets `insert_weight_zero` is called with, lower ones first. */
  method AnchorOffsets(mode: nat, part: nat) returns (anchors: seq<nat>)
    requires mode < 8
    ensures anchors == Anchors(mode, part)
  {
    if mode == 0 || mode == 2 {
      var (x, y) := ThirdSubset(part);
      anchors := [0, if x < y then x else y, if x < y then y else x];
    } else if mode == 4 || mode == 5 || mode == 6 {
      anchors := [0];
    } else {
      anchors := [0, SecondSubset(part)];
    }
  }

  lemma PartInLow(low: Word, high: Word, mode: nat)
    requires mode < 8
    ensures PartOf(low + high, mode) == Shr(low, mode + 1)[..ModeTable(mode).part]
  {}

  /** `unpack_bc7`: a block whose first byte is 0 is refused; any other one is taken apart as
      the sequential reader does it. */
  method Unpack(low: Word, high: Word) returns (u: Option<Unpacked>)
    ensures u.Some? <==> true in low[..8]
    ensures u.Some? ==> u.value == Reference(low + high, LowestSet(low[..8]))
  {
    TableIsLowestSet(low[..8]);
    var mode := FirstByteToMode(Value(low[..8]));
    if mode == 8 {
      return None;
    }
    PartInLow(low, high, mode);
    var anchors := AnchorOffsets(mode, Value(Shr(low, mode + 1)[..ModeTable(mode).part]));
    ghost var r := ReferenceGroups(low + high, mode);
    ReferenceFollows(low + high, mode);
    var v := Dispatch(mode, low, high, anchors, r);
    return Some(v);
  }

  method Dispatch(mode: nat, low: Word, high: Word, anchors: seq<nat>, ghost r: seq<seq<Bits>>) returns (u: Unpacked)
    requires mode < 8 && Follows(r, low + high, mode, anchors)
    requires Ascending(anchors) && |anchors| == ModeTable(mode).subsets && forall i
             | 0 <= i < |anchors| :: anchors[i] < 16
    requires anchors[0] == 0
    ensures u == Arrange(mode, r[1], r[2], r[3], r[4..8], r[8], r[9], r[10])
  {
    if mode == 0 || mode == 2 {
      u := UnpackMode02(mode, low, high, anchors, r);
    } else if mode == 1 || mode == 3 || mode == 7 {
      u := UnpackMode137(mode, low, high, anchors, r);
    } else if mode == 4 || mode == 5 {
      u := UnpackMode45(mode, low, high, anchors, r);
    } else {
      u := UnpackMode6(low, high, anchors, r);
    }
  }
}

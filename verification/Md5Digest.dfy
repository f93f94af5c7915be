/** `MD5Digest`: feeding a message in pieces gives the digest of the whole message, as
    sections 3.1 to 3.5 of RFC 1321 define it. */
module Md5Digest {
  import opened Bits
  import opened Modular
  import T = Md5Transform

  type Block = b: seq<Byte> | |b| == 64 witness Zeros(64)

  /** The compression function; most of the proof does not look inside it. */
  type Compression = (T.Words, Block) -> T.Words

  // ---- RFC 1321 ----

  function WordAt(b: seq<Byte>, k: nat): u32
    requires 4 * k + 4 <= |b|
  {
    WordOf(b[4 * k], b[4 * k + 1], b[4 * k + 2], b[4 * k + 3])
  }

  function BlockWords(b: Block): (x: seq<u32>)
    ensures |x| == 16
  {
    seq(16, k requires 0 <= k < 16 => WordAt(b, k))
  }

  /** How many zeros section 3.1 puts behind the one bit. */
  function ZerosFor(n: nat): (z: nat)
    ensures z < 64 && (n + 1 + z) % 64 == 56
  {
    if n % 64 <= 55 then 55 - n % 64 else 119 - n % 64
  }

  /** Sections 3.1 and 3.2: a one bit, zeros up to 56 bytes modulo 64, and the length in
      bits, modulo 2^64, in two words. */
  function Padding(n: nat): seq<Byte> {
    [0x80] + Zeros(ZerosFor(n)) + BytesOf(8 * n % 0x1_0000_0000) + BytesOf(8 * n / 0x1_0000_0000 % 0x1_0000_0000)
  }

  const INIT := T.Words(0x67452301, 0xefcdab89, 0x98badcfe, 0x10325476)

  /** Section 3.4: the full blocks of `b` in order; a partial one at the end is ignored. */
  function Blocks(c: Compression, st: T.Words, b: seq<Byte>): T.Words
    decreases |b|
  {
    if |b| < 64 then st else Blocks(c, c(st, b[..64]), b[64..])
  }

  /** Section 3.5. */
  function Output(st: T.Words): seq<Byte> {
    BytesOf(st.a) + BytesOf(st.b) + BytesOf(st.c) + BytesOf(st.d)
  }

  function Digest(c: Compression, message: seq<Byte>): seq<Byte> {
    Output(Blocks(c, INIT, message + Padding(|message|)))
  }

  function RfcBlock(st: T.Words, b: Block): T.Words {
    T.RfcCompress(st, BlockWords(b))
  }

  function Md5(message: seq<Byte>): seq<Byte> {
    Digest(RfcBlock, message)
  }

  ghost predicate IsRfc(c: Compression) {
    forall st, b {:trigger RfcBlock(st, b)} :: c(st, b) == RfcBlock(st, b)
  }

  // ---- facts about blocks ----

  lemma {:induction false} BlocksJoin(c: Compression, st: T.Words, a: seq<Byte>, b: seq<Byte>)
    requires |a| % 64 == 0
    ensures Blocks(c, st, a + b) == Blocks(c, Blocks(c, st, a), b)
    decreases |a|
  {
    if a == [] {
      assert a + b == b;
    } else {
      assert (a + b)[..64] == a[..64] && (a + b)[64..] == a[64..] + b;
      BlocksJoin(c, c(st, a[..64]), a[64..], b);
    }
  }

  lemma OneBlock(c: Compression, st: T.Words, b: seq<Byte>)
    requires |b| == 64
    ensures Blocks(c, st, b) == c(st, b)
  {
    assert b[..64] == b;
  }

  lemma {:induction false} SameDigest(c: Compression, st: T.Words, b: seq<Byte>)
    requires IsRfc(c)
    ensures Blocks(c, st, b) == Blocks(RfcBlock, st, b)
    decreases |b|
  {
    if |b| >= 64 {
      assert c(st, b[..64]) == RfcBlock(st, b[..64]);
      SameDigest(c, c(st, b[..64]), b[64..]);
    }
  }

  // ---- the count of bits ----

  /** The 64-bit count of bits, in two words. */
  predicate CountIs(low: u32, high: u32, n: nat) {
    8 * n % 0x1_0000_0000_0000_0000 == low + 0x1_0000_0000 * high
  }

  function AddLow(low: u32, more: u32): u32 {
    Sum32(low, more * 8 % 0x1_0000_0000)
  }

  /** The high word after the carry and the three bits shifted out of `more`. */
  function AddHigh(low: u32, high: u32, more: u32): u32 {
    Sum32(if AddLow(low, more) < low then Sum32(high, 1) else high, more / 0x2000_0000)
  }

  lemma CountGrows(low: u32, high: u32, n: nat, more: u32)
    requires CountIs(low, high, n)
    ensures CountIs(AddLow(low, more), AddHigh(low, high, more), n + more)
  {
    var q, r := more / 0x2000_0000, more * 8 % 0x1_0000_0000;
    assert more * 8 == q * 0x1_0000_0000 + r;
    var low': nat, high': nat := AddLow(low, more), AddHigh(low, high, more);
    var carry: nat := if low + r >= 0x1_0000_0000 then 1 else 0;
    assert low + r == low' + carry * 0x1_0000_0000;
    assert low' < low <==> carry == 1;
    var e := (high + carry + q - high') / 0x1_0000_0000;
    HighWord(high, carry, q);
    var k := 8 * n / 0x1_0000_0000_0000_0000;
    ModUnique(8 * (n + more), k + e, low' + 0x1_0000_0000 * high', 0x1_0000_0000_0000_0000);
  }

  lemma HighWord(high: u32, carry: u32, q: u32)
    requires carry <= 1
    ensures var h := Sum32(if carry == 1 then Sum32(high, 1) else high, q);
            high + carry + q == h + 0x1_0000_0000 * ((high + carry + q - h) / 0x1_0000_0000)
  {
    assert Sum32(if carry == 1 then Sum32(high, 1) else high, q) == (high + carry + q) % 0x1_0000_0000;
  }

  /** Bytes of the current block already there. */
  lemma CountModBlock(low: u32, high: u32, n: nat)
    requires CountIs(low, high, n)
    ensures low / 8 % 64 == n % 64
    ensures low == 8 * n % 0x1_0000_0000 && high == 8 * n / 0x1_0000_0000 % 0x1_0000_0000
  {
    var k := 8 * n / 0x1_0000_0000_0000_0000;
    assert 8 * n == (k * 0x1_0000_0000 + high) * 0x1_0000_0000 + low;
    ModUnique(8 * n, k * 0x1_0000_0000 + high, low, 0x1_0000_0000);
    assert 8 * n / 0x1_0000_0000 == k * 0x1_0000_0000 + high;
    ModUnique(8 * n / 0x1_0000_0000, k, high, 0x1_0000_0000);
    LowInBytes(low, n, k * 0x1_0000_0000 + high);
  }

  lemma LowInBytes(low: u32, n: nat, k: nat)
    requires 8 * n == k * 0x1_0000_0000 + low
    ensures low / 8 % 64 == n % 64
  {
    assert n == k * 0x2000_0000 + low / 8;
  }

  /** The message up to its last full block. */
  function Full(n: nat): (k: nat)
    ensures k <= n < k + 64 && k % 64 == 0
  {
    n - n % 64
  }

  // ---- what the object holds ----

  /** `words` and `block` stand for `message`: its full blocks are compressed and the rest
      is at the front of the buffer. */
  ghost predicate Holds(c: Compression, words: T.Words, block: Block, message: seq<Byte>) {
    var k := Full(|message|);
    words == Blocks(c, INIT, message[..k]) && block[..|message| - k] == message[k..]
  }

  /** More bytes that do not fill the block. */
  lemma PartGrows(c: Compression, words: T.Words, block: Block, block': Block, m: seq<Byte>, d: seq<Byte>)
    requires Holds(c, words, block, m) && |m| % 64 + |d| < 64
    requires block'[..|m| % 64 + |d|] == block[..|m| % 64] + d
    ensures Holds(c, words, block', m + d)
  {
    var k := Full(|m|);
    assert Full(|m + d|) == k;
    assert (m + d)[..k] == m[..k] && (m + d)[k..] == m[k..] + d;
  }

  /** Bytes that fill the block: it is compressed and nothing remains. */
  lemma BlockFills(c: Compression, words: T.Words, block: Block, full: Block, m: seq<Byte>, d: seq<Byte>)
    requires Holds(c, words, block, m) && |m| % 64 + |d| == 64
    requires full == block[..|m| % 64] + d
    ensures Holds(c, c(words, full), full, m + d) && |m + d| % 64 == 0
  {
    var k := Full(|m|);
    var longer := m + d;
    assert Full(|longer|) == |longer|;
    assert longer == m[..k] + full;
    BlocksJoin(c, INIT, m[..k], full);
    OneBlock(c, words, full);
    assert longer[..|longer|] == longer;
  }

  method CopyBytes(a: array<Byte>, at: nat, src: seq<Byte>)
    requires at + |src| <= a.Length
    modifies a
    ensures a[..] == old(a[..at]) + src + old(a[at + |src|..])
  {
    forall i | 0 <= i < |src| {
      a[at + i] := src[i];
    }
  }

  /** The compression as the rest of the object sees it. */
  method Compress(buf: array<u32>, block: array<Byte>, ghost c: Compression)
    requires buf.Length == 4 && block.Length == 64 && IsRfc(c)
    modifies buf
    ensures T.WordsOf(buf[..]) == c(old(T.WordsOf(buf[..])), block[..])
  {
    ghost var st := T.WordsOf(buf[..]);
    T.Transform(buf, BlockWords(block[..]));
    assert c(st, block[..]) == RfcBlock(st, block[..]);
  }

  lemma HoldsNothing(c: Compression, words: T.Words, block: Block, message: seq<Byte>)
    requires words == INIT && message == []
    ensures Holds(c, words, block, message)
  {
    var k := Full(|message|);
    assert k == 0 && message[..k] == message && message[k..] == block[..k];
  }

  lemma CountsNothing(low: u32, high: u32, n: nat)
    requires low == 0 && high == 0 && n == 0
    ensures CountIs(low, high, n)
  {}

  lemma SliceGrows<X>(before: seq<X>, data: seq<X>, start: nat, pos: nat, end: nat)
    requires start <= pos <= end <= |data|
    ensures (before + data[start..pos]) + data[pos..end] == before + data[start..end]
  {}

  method SetWords(buf: array<u32>, a: u32, b: u32, c: u32, d: u32)
    requires buf.Length == 4
    modifies buf
    ensures T.WordsOf(buf[..]) == T.Words(a, b, c, d)
  {
    buf[0], buf[1], buf[2], buf[3] := a, b, c, d;
  }

  class MD5Digest {
    var buf: array<u32>
    var low: u32           // bits[0]
    var high: u32          // bits[1]
    var block: array<Byte> // in
    ghost const c: Compression
    ghost var message: seq<Byte>

    /** The object stands for the message fed to it so far. */
    ghost predicate Valid()
      reads this, buf, block
    {
      && buf.Length == 4 && block.Length == 64 && IsRfc(c)
      && CountIs(low, high, |message|)
      && Holds(c, T.WordsOf(buf[..]), block[..], message)
    }

    constructor ()
      ensures Valid() && message == [] && fresh(buf) && fresh(block)
    {
      buf := new u32[4];
      block := new Byte[64];
      c := RfcBlock;
      new;
      Reset();
    }

    method Reset()
      requires buf.Length == 4 && block.Length == 64 && IsRfc(c)
      modifies this, buf, block
      ensures Valid() && message == []
      ensures buf == old(buf) && block == old(block)
    {
      SetWords(buf, 0x67452301, 0xefcdab89, 0x98badcfe, 0x10325476);
      low, high := 0, 0;
      FillZeros(block, 0, 64);
      message := [];
      CountsNothing(low, high, |message|);
      HoldsNothing(c, T.WordsOf(buf[..]), block[..], message);
    }

    method Update(data: seq<Byte>)
      requires Valid() && |data| < 0x1_0000_0000
      modifies this, buf, block
      ensures Valid() && message == old(message) + data
      ensures buf == old(buf) && block == old(block)
    {
      CountModBlock(low, high, |message|);
      var t := low;
      CountBits(|data|);
      var pos := LeadingChunk(data, t / 8 % 64);
      if pos < |data| {
        UpdateBlocks(data, pos);
      } else {
        assert data[..pos] == data;
      }
    }

    method CountBits(cbData: u32)
      requires CountIs(low, high, |message|)
      modifies `low, `high
      ensures CountIs(low, high, |message| + cbData)
    {
      CountGrows(low, high, |message|, cbData);
      var t := low;
      low := Sum32(t, cbData * 8 % 0x1_0000_0000);
      if low < t {
        high := Sum32(high, 1);
      }
      high := Sum32(high, cbData / 0x2000_0000);
    }

    /** Fills the partial block, if there is one, with as much as there is. */
    method LeadingChunk(data: seq<Byte>, t: nat) returns (pos: nat)
      requires t == |message| % 64
      requires buf.Length == 4 && block.Length == 64 && IsRfc(c)
      requires Holds(c, T.WordsOf(buf[..]), block[..], message)
      modifies this`message, buf, block
      ensures pos <= |data| && message == old(message) + data[..pos]
      ensures Holds(c, T.WordsOf(buf[..]), block[..], message)
      ensures pos == |data| || |message| % 64 == 0
    {
      if t == 0 {
        return 0;
      }
      ghost var words, was: Block := T.WordsOf(buf[..]), block[..];
      var need := 64 - t;
      if |data| < need {
        CopyBytes(block, t, data);
        PartGrows(c, words, was, block[..], message, data);
        message := message + data;
        assert data[..|data|] == data;
        return |data|;
      }
      CopyBytes(block, t, data[..need]);
      Compress(buf, block, c);
      BlockFills(c, words, was, block[..], message, data[..need]);
      message := message + data[..need];
      return need;
    }

    /** The loop of `Update` and what is left behind it. */
    method UpdateBlocks(data: seq<Byte>, start: nat)
      requires start <= |data| && |message| % 64 == 0
      requires buf.Length == 4 && block.Length == 64 && IsRfc(c)
      requires Holds(c, T.WordsOf(buf[..]), block[..], message)
      modifies this`message, buf, block
      ensures message == old(message) + data[start..]
      ensures Holds(c, T.WordsOf(buf[..]), block[..], message)
    {
      ghost var before := message;
      var pos := start;
      while |data| - pos >= 64
        invariant start <= pos <= |data| && (pos - start) % 64 == 0
        invariant message == before + data[start..pos] && |message| % 64 == 0
        invariant Holds(c, T.WordsOf(buf[..]), block[..], message)
      {
        SliceGrows(before, data, start, pos, pos + 64);
        OneMoreBlock(data[pos..pos + 64]);
        pos := pos + 64;
      }
      SliceGrows(before, data, start, pos, |data|);
      KeepRest(data[pos..|data|]);
    }

    method KeepRest(d: seq<Byte>)
      requires |message| % 64 == 0 && |d| < 64
      requires buf.Length == 4 && block.Length == 64 && IsRfc(c)
      requires Holds(c, T.WordsOf(buf[..]), block[..], message)
      modifies this`message, block
      ensures message == old(message) + d
      ensures Holds(c, T.WordsOf(buf[..]), block[..], message)
    {
      ghost var was: Block := block[..];
      CopyBytes(block, 0, d);
      PartGrows(c, T.WordsOf(buf[..]), was, block[..], message, d);
      message := message + d;
    }

    method OneMoreBlock(d: Block)
      requires |message| % 64 == 0
      requires buf.Length == 4 && block.Length == 64 && IsRfc(c)
      requires Holds(c, T.WordsOf(buf[..]), block[..], message)
      modifies this`message, buf, block
      ensures message == old(message) + d && |message| % 64 == 0
      ensures Holds(c, T.WordsOf(buf[..]), block[..], message)
    {
      ghost var words, was: Block := T.WordsOf(buf[..]), block[..];
      CopyBytes(block, 0, d);
      Compress(buf, block, c);
      BlockFills(c, words, was, block[..], message, d);
      message := message + d;
    }

    /** Pads, appends the length and returns the digest; the object is used up. */
    method Final() returns (digest: seq<Byte>)
      requires Valid()
      modifies buf, block
      ensures digest == Md5(message)
    {
      CountModBlock(low, high, |message|);
      var count := low / 8 % 64;
      if 63 - count < 8 {
        PadTwoBlocks(count);
      } else {
        PadOneBlock(count);
      }
      Compress(buf, block, c);
      DigestIsMd5(c, message);
      digest := Output(T.WordsOf(buf[..]));
    }

    /** No room for the length: a block is finished first, and the last one begins with zeros. */
    method PadTwoBlocks(count: nat)
      requires Valid() && count == |message| % 64 && 63 - count < 8
      modifies buf, block
      ensures |block[..]| == 64 && IsLast(c, T.WordsOf(buf[..]), block[..], message)
    {
      ghost var words, was: Block := T.WordsOf(buf[..]), block[..];
      PutOneBit(block, count, 63 - count);
      ghost var first: Block := block[..];
      Compress(buf, block, c);
      FillZeros(block, 0, 56);
      PutLength();
      PadsTwo(was, first, block[..], |message|, low, high);
      LastBlocks(c, words, was, message, first + block[..]);
      TwoBlocks(c, words, first, block[..]);
    }

    method PadOneBlock(count: nat)
      requires Valid() && count == |message| % 64 && 63 - count >= 8
      modifies buf, block
      ensures |block[..]| == 64 && IsLast(c, T.WordsOf(buf[..]), block[..], message)
    {
      ghost var words, was: Block := T.WordsOf(buf[..]), block[..];
      PutOneBit(block, count, 55 - count);
      PutLength();
      PadsOne(was, block[..], |message|, low, high);
      LastBlocks(c, words, was, message, block[..]);
      OneBlock(c, words, block[..]);
    }

    /** The two words at the end of the block. */
    method PutLength()
      requires block.Length == 64
      modifies block
      ensures block[..] == old(block[..56]) + BytesOf(low) + BytesOf(high)
    {
      CopyBytes(block, 56, BytesOf(low));
      CopyBytes(block, 60, BytesOf(high));
    }
  }

  method PutOneBit(a: array<Byte>, at: nat, zeros: nat)
    requires at + 1 + zeros <= a.Length
    modifies a
    ensures a[..] == old(a[..at]) + [0x80] + Zeros(zeros) + old(a[at + 1 + zeros..])
  {
    a[at] := 0x80;
    FillZeros(a, at + 1, zeros);
  }

  method FillZeros(a: array<Byte>, at: nat, n: nat)
    requires at + n <= a.Length
    modifies a
    ensures a[..] == old(a[..at]) + Zeros(n) + old(a[at + n..])
  {
    forall i | 0 <= i < n {
      a[at + i] := 0;
    }
  }

  lemma PaddingParts(n: nat, low: u32, high: u32)
    requires CountIs(low, high, n)
    ensures Padding(n) == [0x80] + Zeros(ZerosFor(n)) + BytesOf(low) + BytesOf(high)
  {
    CountModBlock(low, high, n);
  }

  lemma ZerosSplit(a: nat, b: nat)
    ensures Zeros(a + b) == Zeros(a) + Zeros(b)
  {}

  lemma Regroup<X>(a: seq<X>, b: seq<X>, z: seq<X>, l: seq<X>, h: seq<X>)
    ensures a + (b + z + l + h) == a + b + z + l + h
  {}

  lemma RegroupTwo<X>(a: seq<X>, b: seq<X>, z: seq<X>, y: seq<X>, l: seq<X>, h: seq<X>)
    ensures a + (b + (z + y) + l + h) == (a + b + z) + (y + l + h)
  {}

  /** The last block when the length still fits behind the one bit. */
  lemma PadsOne(was: Block, last: Block, n: nat, low: u32, high: u32)
    requires CountIs(low, high, n) && n % 64 < 56
    requires last == was[..n % 64] + [0x80] + Zeros(55 - n % 64) + BytesOf(low) + BytesOf(high)
    ensures last == was[..n % 64] + Padding(n)
  {
    PaddingParts(n, low, high);
    Regroup(was[..n % 64], [0x80], Zeros(55 - n % 64), BytesOf(low), BytesOf(high));
  }

  lemma PadsTwo(was: Block, first: Block, last: Block, n: nat, low: u32, high: u32)
    requires CountIs(low, high, n) && n % 64 >= 56
    requires first == was[..n % 64] + [0x80] + Zeros(63 - n % 64)
    requires last == Zeros(56) + BytesOf(low) + BytesOf(high)
    ensures first + last == was[..n % 64] + Padding(n)
  {
    PaddingParts(n, low, high);
    ZerosSplit(63 - n % 64, 56);
    RegroupTwo(was[..n % 64], [0x80], Zeros(63 - n % 64), Zeros(56), BytesOf(low), BytesOf(high));
  }

  /** Compressing the blocks that end in the padding finishes the digest. */
  lemma LastBlocks(c: Compression, words: T.Words, block: Block, m: seq<Byte>, last: seq<Byte>)
    requires Holds(c, words, block, m) && last == block[..|m| % 64] + Padding(|m|)
    ensures Blocks(c, INIT, m + Padding(|m|)) == Blocks(c, words, last)
  {
    var k, pad := Full(|m|), Padding(|m|);
    assert m + pad == m[..k] + (m[k..] + pad);
    BlocksJoin(c, INIT, m[..k], last);
  }

  /** `block` is what is left to compress, after `words`, of the padded message. */
  ghost predicate IsLast(c: Compression, words: T.Words, block: Block, m: seq<Byte>) {
    c(words, block) == Blocks(c, INIT, m + Padding(|m|))
  }

  lemma TwoBlocks(c: Compression, words: T.Words, first: Block, last: Block)
    ensures Blocks(c, words, first + last) == c(c(words, first), last)
  {
    BlocksJoin(c, words, first, last);
    OneBlock(c, words, first);
    OneBlock(c, c(words, first), last);
  }

  lemma DigestIsMd5(c: Compression, m: seq<Byte>)
    requires IsRfc(c)
    ensures Digest(c, m) == Md5(m)
  {
    SameDigest(c, INIT, m + Padding(|m|));
  }

  function Concat(pieces: seq<seq<Byte>>): seq<Byte> {
    if pieces == [] then [] else Concat(pieces[..|pieces| - 1]) + pieces[|pieces| - 1]
  }

  /** However a message is cut into calls of `Update`, the digest is that of the message. */
  method DigestOfPieces(pieces: seq<seq<Byte>>) returns (digest: seq<Byte>)
    requires forall p | p in pieces :: |p| < 0x1_0000_0000
    ensures digest == Md5(Concat(pieces))
  {
    var d := new MD5Digest();
    for i := 0 to |pieces|
      invariant d.Valid() && d.message == Concat(pieces[..i]) && fresh(d) && fresh(d.buf) && fresh(d.block)
    {
      d.Update(pieces[i]);
      assert pieces[..i + 1][..i] == pieces[..i];
    }
    assert pieces[..|pieces|] == pieces;
    digest := d.Final();
  }
}

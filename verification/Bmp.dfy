/** Writing an image as a 24-bit BMP file and reading it back. */
module Bmp {
  import opened Bits

  /** Rows from the top down; red is the low byte of a pixel. */
  datatype Image = Image(width: nat, height: nat, pixels: seq<u32>) {
    ghost predicate Valid() {
      |pixels| == Span(height, width)
    }
  }

  /** `rows` times `s`, as a sum: the proofs add and compare whole rows and nothing else. */
  function Span(rows: nat, s: nat): nat {
    if rows == 0 then 0 else Span(rows - 1, s) + s
  }

  lemma {:induction false} SpanIs(rows: nat, s: nat)
    ensures Span(rows, s) == rows * s
  {
    if rows > 0 {
      SpanIs(rows - 1, s);
      assert rows * s == (rows - 1) * s + s;
    }
  }

  lemma {:induction false} RowsFit(s: nat, height: nat, y: nat)
    requires y < height
    ensures Span(y + 1, s) <= Span(height, s)
    decreases height
  {
    if y + 1 < height {
      RowsFit(s, height - 1, y);
    }
  }

  function RowOf(pixels: seq<u32>, width: nat, y: nat): (r: seq<u32>)
    requires Span(y + 1, width) <= |pixels|
    ensures |r| == width
  {
    pixels[Span(y, width)..Span(y + 1, width)]
  }

  // ---- strides ----

  /** The bytes of `n` pixels, three each. */
  function Room(n: nat): nat {
    n + n + n
  }

  function SaveStride(width: nat): (s: nat)
    ensures Room(width) <= s
  {
    (width * 3 + 3) / 4 * 4
  }

  function LoadStride(width: nat): (s: nat)
    ensures Room(width) <= s
  {
    (width * 24 + 31) / 32 * 4
  }

  /** The saver counts bytes, the loader bits; and a row's bytes fit. */
  lemma StridesAgree(width: nat)
    ensures SaveStride(width) == LoadStride(width) && width * 3 <= SaveStride(width) < width * 3 + 4
  {
    var q, r := width / 4, width % 4;
    Quotient4(width * 3 + 3, 3 * q + r, 3 - r);
    Quotient32(width * 24 + 31, 3 * q + r, 31 - 8 * r);
  }

  lemma Quotient4(n: nat, k: nat, rest: nat)
    requires n == 4 * k + rest && rest < 4
    ensures n / 4 == k
  {}

  lemma Quotient32(n: nat, k: nat, rest: nat)
    requires n == 32 * k + rest && rest < 32
    ensures n / 32 == k
  {}

  // ---- pixels and rows ----

  /** Blue, green, red. */
  function PixelBytes(p: u32): (b: seq<Byte>)
    ensures |b| == 3
  {
    [LowByte(p / 0x1_0000), LowByte(p / 0x100), LowByte(p)]
  }

  function PixelOf(b: Byte, g: Byte, r: Byte): u32 {
    (r as int) + 0x100 * (g as int) + 0x1_0000 * (b as int) + 0xFF00_0000
  }

  function Opaque(p: u32): u32 {
    p % 0x100_0000 + 0xFF00_0000
  }

  lemma PixelRoundTrip(p: u32)
    ensures PixelOf(LowByte(p / 0x1_0000), LowByte(p / 0x100), LowByte(p)) == Opaque(p)
  {
    var a := p / 0x100;
    var b := p / 0x1_0000;
    var c := p / 0x100_0000;
    assert p == 0x100 * a + LowByte(p);
    assert a == 0x100 * b + LowByte(a);
    assert b == 0x100 * c + LowByte(b);
  }

  function RowBytes(row: seq<u32>): (b: seq<Byte>)
    ensures |b| == Room(|row|)
  {
    if row == [] then [] else RowBytes(row[..|row| - 1]) + PixelBytes(row[|row| - 1])
  }

  /** A row in a file with rows of `s` bytes. */
  function FileRow(row: seq<u32>, s: nat): (b: seq<Byte>)
    requires Room(|row|) <= s
    ensures |b| == s
  {
    RowBytes(row) + Zeros(s - Room(|row|))
  }

  /** The pixels a stretch of bytes stands for. */
  function RowPixels(b: seq<Byte>, width: nat): (row: seq<u32>)
    requires Room(width) <= |b|
    ensures |row| == width
  {
    seq(width, x requires 0 <= x < width => PixelOf(b[Room(x)], b[Room(x) + 1], b[Room(x) + 2]))
  }

  function OpaqueAll(row: seq<u32>): (r: seq<u32>)
    ensures |r| == |row|
  {
    seq(|row|, x requires 0 <= x < |row| => Opaque(row[x]))
  }

  lemma {:induction false} RowByteAt(row: seq<u32>, x: nat)
    requires x < |row|
    ensures RowBytes(row)[Room(x)..Room(x) + 3] == PixelBytes(row[x])
    decreases |row|
  {
    if x < |row| - 1 {
      RowByteAt(row[..|row| - 1], x);
      var front := RowBytes(row[..|row| - 1]);
      assert RowBytes(row)[Room(x)..Room(x) + 3] == front[Room(x)..Room(x) + 3];
    }
  }

  lemma PixelAt(row: seq<u32>, b: seq<Byte>, x: nat)
    requires Room(|row|) <= |b| && b[..Room(|row|)] == RowBytes(row) && x < |row|
    ensures b[Room(x)] == LowByte(row[x] / 0x1_0000) && b[Room(x) + 1] == LowByte(row[x] / 0x100)
    ensures b[Room(x) + 2] == LowByte(row[x])
  {
    RowByteAt(row, x);
    ThreeAt(b, Room(|row|), Room(x), PixelBytes(row[x]));
  }

  lemma ThreeAt<X>(b: seq<X>, n: nat, k: nat, t: seq<X>)
    requires k + 3 <= n <= |b| && b[..n][k..k + 3] == t
    ensures b[k] == t[0] && b[k + 1] == t[1] && b[k + 2] == t[2]
  {}

  lemma RowRoundTrip(row: seq<u32>, b: seq<Byte>)
    requires Room(|row|) <= |b| && b[..Room(|row|)] == RowBytes(row)
    ensures RowPixels(b, |row|) == OpaqueAll(row)
  {
    forall x | 0 <= x < |row|
      ensures RowPixels(b, |row|)[x] == OpaqueAll(row)[x]
    {
      RowPixelIs(row, b, x);
    }
  }

  lemma PixelMadeOpaque(row: seq<u32>, b: seq<Byte>, x: nat)
    requires Room(|row|) <= |b| && b[..Room(|row|)] == RowBytes(row) && x < |row|
    ensures PixelOf(b[Room(x)], b[Room(x) + 1], b[Room(x) + 2]) == Opaque(row[x])
  {
    PixelAt(row, b, x);
    PixelReadBack(row[x], b[Room(x)], b[Room(x) + 1], b[Room(x) + 2]);
  }

  lemma PixelReadBack(p: u32, b: Byte, g: Byte, r: Byte)
    requires b == LowByte(p / 0x1_0000) && g == LowByte(p / 0x100) && r == LowByte(p)
    ensures PixelOf(b, g, r) == Opaque(p)
  {
    PixelRoundTrip(p);
  }

  lemma RowPixelIs(row: seq<u32>, b: seq<Byte>, x: nat)
    requires Room(|row|) <= |b| && b[..Room(|row|)] == RowBytes(row) && x < |row|
    ensures RowPixels(b, |row|)[x] == OpaqueAll(row)[x]
  {
    RowPixelsAt(b, |row|, x);
    OpaqueAt(row, x);
    PixelMadeOpaque(row, b, x);
  }

  lemma RowPixelsAt(b: seq<Byte>, width: nat, x: nat)
    requires Room(width) <= |b| && x < width
    ensures RowPixels(b, width)[x] == PixelOf(b[Room(x)], b[Room(x) + 1], b[Room(x) + 2])
  {}

  lemma OpaqueAt(row: seq<u32>, x: nat)
    requires x < |row|
    ensures OpaqueAll(row)[x] == Opaque(row[x])
  {}

  // ---- rows on rows ----

  /** Rows of the same width, by their number. */
  type Lines<X> = nat -> seq<X>

  ghost predicate AreWide<X>(lines: Lines<X>, width: nat) {
    forall k :: |lines(k)| == width
  }

  /** Rows 0 to `y`, one after the other. */
  function StackDown<X>(lines: Lines<X>, width: nat, y: nat): (p: seq<X>)
    requires AreWide(lines, width)
    ensures |p| == Span(y, width)
  {
    if y == 0 then [] else StackDown(lines, width, y - 1) + lines(y - 1)
  }

  /** The same with the later rows above the earlier. */
  function StackUp<X>(lines: Lines<X>, width: nat, y: nat): (p: seq<X>)
    requires AreWide(lines, width)
    ensures |p| == Span(y, width)
  {
    if y == 0 then [] else lines(y - 1) + StackUp(lines, width, y - 1)
  }

  lemma {:induction false} StackDownNext<X>(lines: Lines<X>, width: nat, y: nat)
    requires AreWide(lines, width)
    ensures StackDown(lines, width, y + 1) == StackDown(lines, width, y) + lines(y)
  {}

  lemma {:induction false} StackDownSlice<X>(lines: Lines<X>, width: nat, y: nat, k: nat)
    requires AreWide(lines, width) && k < y
    ensures Span(k, width) + width <= Span(y, width)
    ensures StackDown(lines, width, y)[Span(k, width)..Span(k, width) + width] == lines(k)
    decreases y
  {
    var z := y - 1;
    var front, last, at := StackDown(lines, width, z), lines(z), Span(k, width);
    if k < z {
      StackDownSlice(lines, width, z, k);
      SliceOfFront(front, last, at, at + width);
    } else {
      SliceBehind(front, last, 0, width);
    }
  }

  lemma SliceOfFront<X>(a: seq<X>, b: seq<X>, i: nat, j: nat)
    requires i <= j <= |a|
    ensures (a + b)[i..j] == a[i..j]
  {}

  lemma SliceBehind<X>(a: seq<X>, b: seq<X>, i: nat, j: nat)
    requires i <= j <= |b|
    ensures (a + b)[|a| + i..|a| + j] == b[i..j]
  {}

  lemma {:induction false} StackUpAt<X>(lines: Lines<X>, width: nat, height: nat, y: nat, row: nat, x: nat, index: nat)
    requires AreWide(lines, width) && y + row + 1 == height && x < width && index == Span(y, width) + x
    ensures index < Span(height, width) && StackUp(lines, width, height)[index] == lines(row)[x]
    decreases height
  {
    if y > 0 {
      StackUpAt(lines, width, height - 1, y - 1, row, x, index - width);
    }
  }

  lemma {:induction false} StackDownAt<X>(lines: Lines<X>, width: nat, height: nat, y: nat, x: nat, index: nat)
    requires AreWide(lines, width) && y < height && x < width && index == Span(y, width) + x
    ensures index < Span(height, width) && StackDown(lines, width, height)[index] == lines(y)[x]
    decreases height
  {
    if y + 1 < height {
      StackDownAt(lines, width, height - 1, y, x, index);
    }
  }

  // ---- the body of the file ----

  function RowsOf(image: Image): (rows: Lines<u32>)
    ensures AreWide(rows, image.width)
  {
    (y: nat) => if Span(y + 1, image.width) <= |image.pixels| then RowOf(image.pixels, image.width, y)
                else seq(image.width, _ => 0)
  }

  /** Row `k` of the file, counted from the bottom of the image. */
  function FileLine(image: Image, s: nat, k: nat): (line: seq<Byte>)
    requires Room(image.width) <= s
    ensures |line| == s
  {
    if k < image.height then FileRow(RowsOf(image)(image.height - 1 - k), s) else Zeros(s)
  }

  function FileLines(image: Image, s: nat): (lines: Lines<Byte>)
    requires Room(image.width) <= s
    ensures AreWide(lines, s)
  {
    (k: nat) => FileLine(image, s, k)
  }

  function BodyOf(image: Image): (b: seq<Byte>)
    ensures |b| == Span(image.height, SaveStride(image.width))
  {
    StackDown(FileLines(image, SaveStride(image.width)), SaveStride(image.width), image.height)
  }

  // ---- headers ----

  function Le16(v: nat): (b: seq<Byte>)
    ensures |b| == 2
  {
    [LowByte(v), LowByte(v / 0x100)]
  }

  function Get16(b: seq<Byte>): nat
    requires |b| == 2
  {
    (b[0] as int) + 0x100 * (b[1] as int)
  }

  function Get32(b: seq<Byte>): u32
    requires |b| == 4
  {
    WordOf(b[0], b[1], b[2], b[3])
  }

  lemma Get16OfLe(v: nat)
    requires v < 0x1_0000
    ensures Get16(Le16(v)) == v
  {}

  /** Type "BM", size of the file, two reserved fields, where the pixels begin. */
  function FileHeader(fileSize: u32): (b: seq<Byte>)
    ensures |b| == 14
  {
    Le16(0x4D42) + BytesOf(fileSize) + Le16(0) + Le16(0) + BytesOf(54)
  }

  /** Size of this header, width, height, planes, bits per pixel, compression, size of the
      pixels, and four fields that are 0. */
  function InfoHeader(width: u32, height: u32, imageSize: u32): (b: seq<Byte>)
    ensures |b| == 40
  {
    BytesOf(40) + BytesOf(width) + BytesOf(height) + Le16(1) + Le16(24) + BytesOf(0) + BytesOf(imageSize) + Zeros(16)
  }

  /** What the loader looks at. */
  datatype Header = Header(kind: nat, offset: u32, width: u32, height: u32, bitCount: nat, compression: u32)

  function ReadHeader(b: seq<Byte>): Header
    requires |b| >= 54
  {
    Header(Get16(b[0..2]), Get32(b[10..14]), Get32(b[18..22]), Get32(b[22..26]), Get16(b[28..30]), Get32(b[30..34]))
  }

  lemma FileHeaderFields(a: seq<Byte>, s: seq<Byte>, r1: seq<Byte>, r2: seq<Byte>, o: seq<Byte>, rest: seq<Byte>)
    requires |a| == 2 && |s| == 4 && |r1| == 2 && |r2| == 2 && |o| == 4
    ensures var h := (a + s + r1 + r2 + o) + rest; h[0..2] == a && h[10..14] == o
  {}

  lemma InfoHeaderFields(f: seq<Byte>, size: seq<Byte>, w: seq<Byte>, h: seq<Byte>, planes: seq<Byte>, bits: seq<Byte>,
                         c: seq<Byte>, i: seq<Byte>, z: seq<Byte>, rest: seq<Byte>)
    requires |f| == 14 && |size| == 4 && |w| == 4 && |h| == 4 && |planes| == 2 && |bits| == 2 && |c| == 4
    requires |i| == 4 && |z| == 16
    ensures var b := f + (size + w + h + planes + bits + c + i + z) + rest;
            b[18..22] == w && b[22..26] == h && b[28..30] == bits && b[30..34] == c
  {}

  function FileHeaders(size: u32, width: u32, height: u32): (b: seq<Byte>)
    requires size >= 54
    ensures |b| == 54
  {
    FileHeader(size) + InfoHeader(width, height, size - 54)
  }

  lemma HeaderRoundTrip(size: u32, width: u32, height: u32, rest: seq<Byte>)
    requires size >= 54
    ensures ReadHeader(FileHeaders(size, width, height) + rest) == Header(0x4D42, 54, width, height, 24, 0)
  {
    var f, i := FileHeader(size), InfoHeader(width, height, size - 54);
    FileHeaderFields(Le16(0x4D42), BytesOf(size), Le16(0), Le16(0), BytesOf(54), i + rest);
    InfoHeaderFields(f, BytesOf(40), BytesOf(width), BytesOf(height), Le16(1), Le16(24), BytesOf(0), BytesOf(size - 54),
                     Zeros(16), rest);
    assert f + i + rest == f + (i + rest);
    Get16OfLe(0x4D42);
    Get16OfLe(24);
    WordOfBytes(54);
    WordOfBytes(width);
    WordOfBytes(height);
    WordOfBytes(0);
  }

  // ---- saving ----

  function FileSize(image: Image): nat {
    54 + Span(image.height, SaveStride(image.width))
  }

  function FileOf(image: Image): (b: seq<Byte>)
    requires image.Valid() && FileSize(image) < 0x1_0000_0000 && image.width < 0x1_0000_0000
             && image.height < 0x1_0000_0000
    ensures |b| == FileSize(image)
  {
    FileHeaders(FileSize(image), image.width, image.height) + BodyOf(image)
  }

  function Overwrite<X>(b: seq<X>, at: nat, src: seq<X>): (r: seq<X>)
    requires at + |src| <= |b|
    ensures |r| == |b|
  {
    b[..at] + src + b[at + |src|..]
  }

  lemma OverwriteOn<X>(b: seq<X>, at: nat, done: seq<X>, more: seq<X>)
    requires at + |done| + |more| <= |b|
    ensures Overwrite(Overwrite(b, at, done), at + |done|, more) == Overwrite(b, at, done + more)
  {}

  method PutBytes(a: array<Byte>, at: nat, src: seq<Byte>)
    requires at + |src| <= a.Length
    modifies a
    ensures a[..] == Overwrite(old(a[..]), at, src)
  {
    forall i | 0 <= i < |src| {
      a[at + i] := src[i];
    }
  }

  /** The inner loop of the saver. */
  method SaveRow(data: array<Byte>, base: nat, row: seq<u32>)
    requires base + Room(|row|) <= data.Length
    modifies data
    ensures data[..] == Overwrite(old(data[..]), base, RowBytes(row))
  {
    ghost var before := data[..];
    assert Overwrite(before, base, []) == before;
    for x := 0 to |row|
      invariant data[..] == Overwrite(before, base, RowBytes(row[..x]))
    {
      NextPixel(row, x);
      PutNext(data, before, base, RowBytes(row[..x]), base + x * 3, PixelBytes(row[x]));
    }
    assert row[..|row|] == row;
  }

  method PutNext(data: array<Byte>, ghost before: seq<Byte>, ghost base: nat, ghost done: seq<Byte>, at: nat,
                 more: seq<Byte>)
    requires at == base + |done| && at + |more| <= data.Length == |before| && data[..] == Overwrite(before, base, done)
    modifies data
    ensures data[..] == Overwrite(before, base, done + more)
  {
    OverwriteOn(before, base, done, more);
    PutBytes(data, at, more);
  }

  lemma NextPixel(row: seq<u32>, x: nat)
    requires x < |row|
    ensures RowBytes(row[..x + 1]) == RowBytes(row[..x]) + PixelBytes(row[x])
  {
    assert row[..x + 1][..x] == row[..x];
  }

  /** `BMPBufferSaver`. The buffer begins as zeros, which is what pads the rows. */
  method Save(image: Image) returns (buffer: array?<Byte>)
    requires image.Valid() && FileSize(image) < 0x1_0000_0000 && image.width < 0x1_0000_0000
             && image.height < 0x1_0000_0000
    ensures buffer == null <==> image.width == 0 || image.height == 0
    ensures buffer != null ==> fresh(buffer) && buffer[..] == FileOf(image)
  {
    if image.width == 0 || image.height == 0 {
      return null;
    }
    SpanIs(image.height, SaveStride(image.width));
    var fileSize := 54 + image.height * SaveStride(image.width);
    var data := new Byte[fileSize](_ => 0);
    assert data[..] == Zeros(fileSize);
    PutHeaders(data, fileSize, image.width, image.height);
    var rowSize := SaveStride(image.width);
    SaveRows(data, image, rowSize, FileHeaders(fileSize, image.width, image.height), FileLines(image, rowSize));
    return data;
  }

  /** The two headers, copied over the zeros in front. */
  method PutHeaders(data: array<Byte>, size: u32, width: u32, height: u32)
    requires data.Length == size && size >= 54 && data[..] == Zeros(size)
    modifies data
    ensures data[..] == FileHeaders(size, width, height) + Zeros(size - 54)
  {
    var f, i := FileHeader(size), InfoHeader(width, height, size - 54);
    PutBytes(data, 0, f);
    PutBytes(data, 14, i);
    HeadersOverZeros(f, i, size);
  }

  lemma HeadersOverZeros(f: seq<Byte>, i: seq<Byte>, size: nat)
    requires |f| == 14 && |i| == 40 && size >= 54
    ensures Overwrite(Overwrite(Zeros(size), 0, f), 14, i) == f + i + Zeros(size - 54)
  {}

  method SaveRows(data: array<Byte>, image: Image, rowSize: nat, ghost header: seq<Byte>, ghost lines: Lines<Byte>)
    requires image.Valid() && Room(image.width) <= rowSize && lines == FileLines(image, rowSize) && |header| == 54
    requires data.Length == 54 + Span(image.height, rowSize) && data[..] == header + Zeros(data.Length - 54)
    modifies data
    ensures data[..] == header + StackDown(lines, rowSize, image.height)
  {
    ghost var left: nat := data.Length - 54;
    for y := 0 to image.height
      invariant left == Span(image.height, rowSize) - Span(y, rowSize)
      invariant data[..] == header + StackDown(lines, rowSize, y) + Zeros(left)
    {
      RowsFit(rowSize, image.height, y);
      SaveLine(data, image, y, rowSize, header, lines, left);
      left := left - rowSize;
    }
    NothingLeft(header + StackDown(lines, rowSize, image.height), left);
  }

  method SaveLine(data: array<Byte>, image: Image, y: nat, rowSize: nat, ghost header: seq<Byte>,
                  ghost lines: Lines<Byte>, ghost left: nat)
    requires image.Valid() && Room(image.width) <= rowSize <= left && lines == FileLines(image, rowSize)
    requires |header| == 54 && y < image.height && data[..] == header + StackDown(lines, rowSize, y) + Zeros(left)
    modifies data
    ensures data[..] == header + StackDown(lines, rowSize, y + 1) + Zeros(left - rowSize)
  {
    var srcY := image.height - 1 - y;
    RowsFit(image.width, image.height, srcY);
    SpanIs(y, rowSize);
    LineSaved(image, rowSize, y, srcY, lines);
    var row := RowOf(image.pixels, image.width, srcY);
    SaveOneRow(data, 54 + y * rowSize, row, header, StackDown(lines, rowSize, y), lines(y), left);
    OneMoreSaved(lines, rowSize, y, header, left - rowSize, data[..]);
  }

  lemma NothingLeft(b: seq<Byte>, left: nat)
    requires left == 0
    ensures b + Zeros(left) == b
  {}

  lemma {:induction false} OneMoreSaved(lines: Lines<Byte>, s: nat, y: nat, header: seq<Byte>, left: nat,
                                        data: seq<Byte>)
    requires AreWide(lines, s) && data == header + (StackDown(lines, s, y) + lines(y)) + Zeros(left)
    ensures data == header + StackDown(lines, s, y + 1) + Zeros(left)
  {
    StackDownNext(lines, s, y);
  }

  /** Row `y` of the file is a row of the image, counted from below. */
  lemma {:induction false} LineSaved(image: Image, s: nat, y: nat, srcY: nat, lines: Lines<Byte>)
    requires image.Valid() && Room(image.width) <= s && lines == FileLines(image, s) && y + srcY + 1 == image.height
    requires Span(srcY + 1, image.width) <= |image.pixels|
    ensures lines(y) == FileRow(RowOf(image.pixels, image.width, srcY), s)
  {}

  /** A row and its padding, `line`, behind the header and the rows there are. */
  method SaveOneRow(data: array<Byte>, at: nat, row: seq<u32>, ghost header: seq<Byte>, ghost body: seq<Byte>,
                    ghost line: seq<Byte>, ghost left: nat)
    requires at == |header| + |body| && data[..] == header + body + Zeros(left)
    requires Room(|row|) <= |line| <= left && line == FileRow(row, |line|)
    modifies data
    ensures data[..] == header + (body + line) + Zeros(left - |line|)
  {
    NextRow(header, body, RowBytes(row), |line|, left);
    assert |data[..]| == data.Length;
    SaveRow(data, at, row);
  }

  lemma NextRow(header: seq<Byte>, body: seq<Byte>, row: seq<Byte>, rowSize: nat, left: nat)
    requires |row| <= rowSize <= left
    ensures Overwrite(header + body + Zeros(left), |header| + |body|, row)
            == header + (body + (row + Zeros(rowSize - |row|))) + Zeros(left - rowSize)
  {
    RowOverZeros(header + body, row, rowSize, left);
    ThreeParts(header, body, row + Zeros(rowSize - |row|), Zeros(left - rowSize));
  }

  lemma ThreeParts<X>(a: seq<X>, b: seq<X>, c: seq<X>, d: seq<X>)
    ensures a + b + c + d == a + (b + c) + d
  {}

  lemma RowOverZeros(front: seq<Byte>, row: seq<Byte>, rowSize: nat, left: nat)
    requires |row| <= rowSize <= left
    ensures Overwrite(front + Zeros(left), |front|, row)
            == front + (row + Zeros(rowSize - |row|)) + Zeros(left - rowSize)
  {}

  // ---- loading ----

  /** `Overread` is a file that passes the checks and whose rows do not all lie inside it. */
  datatype Loaded = Rejected | NotModelled | Overread | Picture(image: Image)

  predicate IsSupportedFormat(compression: u32, bitCount: nat) {
    if compression == 0 then bitCount in {1, 4, 8, 16, 24, 32}
    else if compression == 1 then bitCount == 8
    else if compression == 2 then bitCount == 4
    else (compression == 3 || compression == 4) && bitCount in {16, 32}
  }

  /** `abs` of the number the 32 bits stand for. */
  function Abs32(w: u32): u32 {
    if w < 0x8000_0000 then w else 0x1_0000_0000 - w
  }

  /** What 32 bits keep of a sum or a product. */
  function Wrap32(n: nat): u32 {
    n % 0x1_0000_0000
  }

  lemma Fits32(n: nat)
    requires n < 0x1_0000_0000
    ensures Wrap32(n) == n
  {}

  /** Where row `k` begins in a file with rows of `s` bytes: the product has 32 bits, the sum is one
      of pointers. */
  function RowStart(offset: nat, s: nat, k: nat): nat {
    offset + Wrap32(Span(k, s))
  }

  /** The first `y` rows lie inside a file of `n` bytes. */
  predicate RowsInside(n: nat, offset: nat, s: nat, width: nat, y: nat) {
    forall k | 0 <= k < y :: RowStart(offset, s, k) + Room(width) <= n
  }

  /** The row of pixels at `at`. */
  function LineAt(b: seq<Byte>, at: nat, width: nat): (row: seq<u32>)
    ensures |row| == width
  {
    if at + Room(width) <= |b| then RowPixels(b[at..], width) else seq(width, _ => 0)
  }

  function LinesOf(b: seq<Byte>, offset: nat, s: nat, width: nat): (lines: Lines<u32>)
    ensures AreWide(lines, width)
  {
    (k: nat) => LineAt(b, RowStart(offset, s, k), width)
  }

  function Stack(lines: Lines<u32>, width: nat, height: nat, flipVertical: bool): (p: seq<u32>)
    requires AreWide(lines, width)
    ensures |p| == Span(height, width)
  {
    if flipVertical then StackUp(lines, width, height) else StackDown(lines, width, height)
  }

  /** The checks of the loader in their order, with its 32-bit arithmetic. Formats other than 24
      bits uncompressed are not modelled. */
  function Checked(b: seq<Byte>): Loaded {
    if |b| < 54 then Rejected else CheckedHeader(b, ReadHeader(b))
  }

  function CheckedHeader(b: seq<Byte>, h: Header): Loaded {
    var width, height := Abs32(h.width), Abs32(h.height);
    if h.kind != 0x4D42 || !IsSupportedFormat(h.compression, h.bitCount) then Rejected
    else if width == 0 || height == 0 || width >= 0x1_0000 || height >= 0x1_0000 then Rejected
    else if h.compression != 0 || h.bitCount != 24 then NotModelled
    else CheckedPixels(b, h.offset, width, height, 0 < h.height < 0x8000_0000)
  }

  function CheckedPixels(b: seq<Byte>, offset: nat, width: nat, height: nat, flipVertical: bool): Loaded {
    StridesAgree(width);
    CheckedSize(b, offset, Span(height, SaveStride(width)), width, height, flipVertical)
  }

  function CheckedSize(b: seq<Byte>, offset: nat, size: nat, width: nat, height: nat, flipVertical: bool): Loaded
    requires size == Span(height, LoadStride(width))
  {
    if Wrap32(offset + Wrap32(size)) > |b| then Rejected
    else if !RowsInside(|b|, offset, LoadStride(width), width, height) then Overread
    else
      Picture(Image(width, height, Stack(LinesOf(b, offset, LoadStride(width), width), width, height, flipVertical)))
  }

  /** The inner loop of `LoadUncompressedBMP` at 24 bits. */
  method LoadRow(pixels: array<u32>, dst: nat, src: seq<Byte>, width: nat)
    requires dst + width <= pixels.Length && Room(width) <= |src|
    modifies pixels
    ensures pixels[..] == Overwrite(old(pixels[..]), dst, RowPixels(src, width))
  {
    ghost var before := pixels[..];
    var bitOffset := 0;
    assert Overwrite(before, dst, []) == before;
    for x := 0 to width
      invariant bitOffset == 24 * x
      invariant pixels[..] == Overwrite(before, dst, RowPixels(src, width)[..x])
    {
      var byteIndex := bitOffset / 8;
      var p := PixelOf(src[byteIndex], src[byteIndex + 1], src[byteIndex + 2]);
      assert p == RowPixels(src, width)[x];
      OverwriteOn(before, dst, RowPixels(src, width)[..x], [p]);
      assert RowPixels(src, width)[..x] + [p] == RowPixels(src, width)[..x + 1];
      PutPixel(pixels, dst + x, p);
      bitOffset := bitOffset + 24;
    }
    assert RowPixels(src, width)[..width] == RowPixels(src, width);
  }

  method PutPixel(pixels: array<u32>, at: nat, p: u32)
    requires at < pixels.Length
    modifies pixels
    ensures pixels[..] == Overwrite(old(pixels[..]), at, [p])
  {
    pixels[at] := p;
  }

  lemma {:induction false} OnePutOnTop(lines: Lines<u32>, width: nat, y: nat, before: seq<u32>, after: seq<u32>,
                                       top: nat, dst: nat)
    requires AreWide(lines, width) && top <= |before| && dst <= |after|
    requires before[top..] == StackUp(lines, width, y) && after[dst..] == lines(y) + before[top..]
    ensures after[dst..] == StackUp(lines, width, y + 1)
  {}

  lemma LineAtIs(b: seq<Byte>, at: nat, width: nat)
    requires at + Room(width) <= |b|
    ensures LineAt(b, at, width) == RowPixels(b[at..], width)
  {}

  lemma {:induction false} LineIs(b: seq<Byte>, offset: nat, s: nat, width: nat, y: nat, at: nat, lines: Lines<u32>)
    requires lines == LinesOf(b, offset, s, width) && at == RowStart(offset, s, y) && at + Room(width) <= |b|
    ensures lines(y) == RowPixels(b[at..], width)
  {}

  /** The first `y` rows of the file are in place, below the `left` rows of the image still to come. */
  ghost predicate InPlace(pixels: seq<u32>, lines: Lines<u32>, width: nat, left: nat, y: nat, top: nat) {
    AreWide(lines, width) && top == Span(left, width) <= |pixels| && pixels[top..] == StackUp(lines, width, y)
  }

  /** The outer loop, for a picture stored from the bottom up. The answer is whether all rows lie
      inside the file; the loop of the source does not ask. */
  method LoadRowsUp(pixels: array<u32>, b: seq<Byte>, offset: nat, rowSize: nat, width: nat, height: nat,
                    ghost lines: Lines<u32>)
    returns (inside: bool)
    requires pixels.Length == Span(height, width)
    requires AreWide(lines, width) && lines == LinesOf(b, offset, rowSize, width)
    modifies pixels
    ensures inside == RowsInside(|b|, offset, rowSize, width, height)
    ensures inside ==> pixels[..] == StackUp(lines, width, height)
  {
    ghost var top: nat := pixels.Length;
    NoneInPlace(pixels[..], lines, width, height);
    for y := 0 to height
      invariant InPlace(pixels[..], lines, width, height - y, y, top)
      invariant RowsInside(|b|, offset, rowSize, width, y)
    {
      SpanIs(y, rowSize);
      var at := offset + Wrap32(y * rowSize);
      if at + Room(width) > |b| {
        OneOutside(|b|, offset, rowSize, width, height, y, at);
        return false;
      }
      top := LoadLineAbove(pixels, b, offset, rowSize, width, height - 1 - y, y, at, lines, top);
    }
    AllInPlace(pixels[..], lines, width, height, top);
    return true;
  }

  lemma {:induction false} OneOutside(n: nat, offset: nat, s: nat, width: nat, height: nat, y: nat, at: nat)
    requires y < height && at == RowStart(offset, s, y) && at + Room(width) > n
    ensures !RowsInside(n, offset, s, width, height)
  {}

  lemma {:induction false} NoneInPlace(pixels: seq<u32>, lines: Lines<u32>, width: nat, height: nat)
    requires AreWide(lines, width) && |pixels| == Span(height, width)
    ensures InPlace(pixels, lines, width, height, 0, |pixels|)
  {}

  lemma {:induction false} AllInPlace(pixels: seq<u32>, lines: Lines<u32>, width: nat, height: nat, top: nat)
    requires InPlace(pixels, lines, width, 0, height, top)
    ensures pixels == StackUp(lines, width, height)
  {
    assert top == 0 && pixels[top..] == pixels;
  }

  method LoadLineAbove(pixels: array<u32>, b: seq<Byte>, ghost offset: nat, ghost rowSize: nat, width: nat, dstY: nat,
                       ghost y: nat, at: nat, ghost lines: Lines<u32>, ghost top: nat)
    returns (ghost next: nat)
    requires InPlace(pixels[..], lines, width, dstY + 1, y, top) && lines == LinesOf(b, offset, rowSize, width)
    requires at == RowStart(offset, rowSize, y) && at + Room(width) <= |b|
    modifies pixels
    ensures InPlace(pixels[..], lines, width, dstY, y + 1, next)
  {
    SpanIs(dstY, width);
    var dst := dstY * width;
    ghost var before := pixels[..];
    LineIs(b, offset, rowSize, width, y, at, lines);
    LoadOneRow(pixels, dst, top, b, at, width, lines(y));
    OnePutOnTop(lines, width, y, before, pixels[..], top, dst);
    next := dst;
  }

  /** And for one stored from the top down. */
  method LoadRowsDown(pixels: array<u32>, b: seq<Byte>, offset: nat, rowSize: nat, width: nat, height: nat,
                      ghost lines: Lines<u32>)
    returns (inside: bool)
    requires pixels.Length == Span(height, width)
    requires AreWide(lines, width) && lines == LinesOf(b, offset, rowSize, width)
    modifies pixels
    ensures inside == RowsInside(|b|, offset, rowSize, width, height)
    ensures inside ==> pixels[..] == StackDown(lines, width, height)
  {
    ghost var done := 0;
    for y := 0 to height
      invariant done == Span(y, width) <= pixels.Length
      invariant pixels[..done] == StackDown(lines, width, y)
      invariant RowsInside(|b|, offset, rowSize, width, y)
    {
      RowsFit(width, height, y);
      SpanIs(y, rowSize);
      SpanIs(y, width);
      var dst, at := y * width, offset + Wrap32(y * rowSize);
      if at + Room(width) > |b| {
        OneOutside(|b|, offset, rowSize, width, height, y, at);
        return false;
      }
      done := dst + width;
      LineIs(b, offset, rowSize, width, y, at, lines);
      LoadOneRow(pixels, dst, done, b, at, width, lines(y));
    }
    return true;
  }

  method LoadOneRow(pixels: array<u32>, dst: nat, ghost end: nat, b: seq<Byte>, at: nat, width: nat,
                    ghost row: seq<u32>)
    requires dst + width == end <= pixels.Length && at + Room(width) <= |b| && row == RowPixels(b[at..], width)
    modifies pixels
    ensures pixels[dst..] == row + old(pixels[end..])
    ensures pixels[..end] == old(pixels[..dst]) + row
  {
    ghost var before := pixels[..];
    LoadRow(pixels, dst, b[at..], width);
    PutInFront(before, dst, row);
    PutBehind(before, dst, row);
  }

  lemma PutInFront<X>(b: seq<X>, at: nat, src: seq<X>)
    requires at + |src| <= |b|
    ensures Overwrite(b, at, src)[at..] == src + b[at + |src|..]
  {}

  lemma PutBehind<X>(b: seq<X>, at: nat, src: seq<X>)
    requires at + |src| <= |b|
    ensures Overwrite(b, at, src)[..at + |src|] == b[..at] + src
  {}

  /** `BMPBufferLoader`, for uncompressed files of 24 bits. */
  method Load(b: seq<Byte>) returns (r: Loaded)
    ensures r == Checked(b)
  {
    if |b| < 54 {
      return Rejected;
    }
    r := LoadBy(b, ReadHeader(b));
  }

  method LoadBy(b: seq<Byte>, h: Header) returns (r: Loaded)
    ensures r == CheckedHeader(b, h)
  {
    if h.kind != 0x4D42 || !IsSupportedFormat(h.compression, h.bitCount) {
      return Rejected;
    }
    var width, height := Abs32(h.width), Abs32(h.height);
    var flipVertical := 0 < h.height < 0x8000_0000;
    if width == 0 || height == 0 || width >= 0x1_0000 || height >= 0x1_0000 {
      return Rejected;
    }
    if h.compression != 0 || h.bitCount != 24 {
      return NotModelled;
    }
    r := LoadPixels(b, h.offset, width, height, flipVertical);
  }

  method LoadPixels(b: seq<Byte>, offset: nat, width: nat, height: nat, flipVertical: bool) returns (r: Loaded)
    ensures r == CheckedPixels(b, offset, width, height, flipVertical)
  {
    StridesAgree(width);
    SpanIs(height, SaveStride(width));
    var size := SaveStride(width) * height;
    r := LoadSized(b, offset, size, width, height, flipVertical);
  }

  method LoadSized(b: seq<Byte>, offset: nat, size: nat, width: nat, height: nat, flipVertical: bool)
    returns (r: Loaded)
    requires size == Span(height, LoadStride(width))
    ensures r == CheckedSize(b, offset, size, width, height, flipVertical)
  {
    if Wrap32(offset + Wrap32(size)) > |b| {
      return Rejected;
    }
    var inside, pixels := LoadUncompressed(b, offset, width, height, flipVertical);
    r := if inside then Picture(Image(width, height, pixels)) else Overread;
  }

  method LoadUncompressed(b: seq<Byte>, offset: nat, width: nat, height: nat, flipVertical: bool)
    returns (inside: bool, p: seq<u32>)
    ensures inside == RowsInside(|b|, offset, LoadStride(width), width, height)
    ensures inside ==> p == Stack(LinesOf(b, offset, LoadStride(width), width), width, height, flipVertical)
  {
    SpanIs(height, width);
    var pixels, rowSize := new u32[width * height], LoadStride(width);
    ghost var lines := LinesOf(b, offset, rowSize, width);
    if flipVertical {
      inside := LoadRowsUp(pixels, b, offset, rowSize, width, height, lines);
    } else {
      inside := LoadRowsDown(pixels, b, offset, rowSize, width, height, lines);
    }
    p := pixels[..];
  }

  // ---- what a loaded picture is ----

  /** Pixel `x` of the file row at `at`, as its three bytes make it. */
  function PixelInFile(b: seq<Byte>, at: nat, x: nat): u32 {
    var p := at + Room(x);
    if p + 3 <= |b| then PixelOf(b[p], b[p + 1], b[p + 2]) else 0
  }

  lemma {:induction false} LineHolds(b: seq<Byte>, at: nat, width: nat, x: nat)
    requires at + Room(width) <= |b| && x < width
    ensures LineAt(b, at, width)[x] == PixelInFile(b, at, x)
  {
    RowPixelsAt(b[at..], width, x);
    ThreeFrom(b, at, Room(x));
  }

  lemma ThreeFrom<X>(b: seq<X>, at: nat, k: nat)
    requires at + k + 3 <= |b|
    ensures b[at..][k] == b[at + k] && b[at..][k + 1] == b[at + k + 1] && b[at..][k + 2] == b[at + k + 2]
  {}

  predicate FlipsVertically(h: Header) {
    0 < h.height < 0x8000_0000
  }

  /** Pixel (x, y) of the image is made of the three bytes in the file row that the sign of the
      height says, and they lie inside the file. */
  predicate ShowsPixel(b: seq<Byte>, offset: nat, flip: bool, image: Image, y: nat, x: nat) {
    && y < image.height
    && ShowsPixelOf(b, offset, image, FileRowOf(flip, image.height, y), x, IndexOf(image.width, y, x))
  }

  /** Where row `y` of an image is among the rows of its file. */
  function FileRowOf(flip: bool, height: nat, y: nat): nat
    requires y < height
  {
    if flip then height - 1 - y else y
  }

  function IndexOf(width: nat, y: nat, x: nat): nat {
    Span(y, width) + x
  }

  predicate ShowsPixelOf(b: seq<Byte>, offset: nat, image: Image, row: nat, x: nat, index: nat) {
    var at := RowStart(offset, LoadStride(image.width), row);
    index < |image.pixels| && at + Room(x) + 3 <= |b| && image.pixels[index] == PixelInFile(b, at, x)
  }

  lemma {:induction false} RowsShowPixel(b: seq<Byte>, offset: nat, s: nat, flip: bool, image: Image, lines: Lines<u32>,
                                         y: nat, row: nat, x: nat, index: nat)
    requires s == LoadStride(image.width) && RowStart(offset, s, row) + Room(image.width) <= |b|
    requires AreWide(lines, image.width) && lines(row) == LineAt(b, RowStart(offset, s, row), image.width)
    requires image.pixels == Stack(lines, image.width, image.height, flip)
    requires y < image.height && x < image.width
    requires row == FileRowOf(flip, image.height, y) && index == IndexOf(image.width, y, x)
    ensures ShowsPixelOf(b, offset, image, row, x, index)
  {
    LineHolds(b, RowStart(offset, s, row), image.width, x);
    if flip {
      StackUpAt(lines, image.width, image.height, y, row, x, index);
    } else {
      StackDownAt(lines, image.width, image.height, y, x, index);
    }
  }

  /** What the loader returns, pixel by pixel; in a file of less than 4 GiB the rows are where
      nothing has wrapped. */
  lemma {:induction false} LoadedPixel(b: seq<Byte>, image: Image, y: nat, x: nat)
    requires Checked(b) == Picture(image) && y < image.height && x < image.width
    ensures var h := ReadHeader(b);
            && image.width == Abs32(h.width) && image.height == Abs32(h.height)
            && ShowsPixel(b, h.offset, FlipsVertically(h), image, y, x)
    ensures var h, s := ReadHeader(b), LoadStride(image.width);
            var row := FileRowOf(FlipsVertically(h), image.height, y);
            |b| < 0xFFFF_FFFD ==> RowStart(h.offset, s, row) == h.offset + Span(row, s)
  {
    var h, flip := ReadHeader(b), FlipsVertically(ReadHeader(b));
    CheckedIs(b, image);
    var s, row := LoadStride(image.width), FileRowOf(flip, image.height, y);
    var lines := LinesOf(b, h.offset, s, image.width);
    assert RowStart(h.offset, s, row) + Room(image.width) <= |b|;
    RowsShowPixel(b, h.offset, s, flip, image, lines, y, row, x, IndexOf(image.width, y, x));
    if |b| < 0xFFFF_FFFD {
      OverreadExactly(|b|, h.offset, image.width, image.height);
      NothingWraps(h.offset, s, image.height, row);
    }
  }

  lemma {:induction false} CheckedIs(b: seq<Byte>, image: Image)
    requires Checked(b) == Picture(image)
    ensures var h, s := ReadHeader(b), LoadStride(image.width);
            && image.width == Abs32(h.width) && image.height == Abs32(h.height) && image.height > 0
            && Wrap32(h.offset + Wrap32(Span(image.height, s))) <= |b|
            && RowsInside(|b|, h.offset, s, image.width, image.height)
            && var lines := LinesOf(b, h.offset, s, image.width);
            image.pixels == Stack(lines, image.width, image.height, FlipsVertically(h))
  {
    var h := ReadHeader(b);
    PastHeader(b, h);
    CheckedPixelsIs(b, h.offset, Abs32(h.width), Abs32(h.height), FlipsVertically(h), image);
  }

  lemma {:induction false} PastHeader(b: seq<Byte>, h: Header)
    requires CheckedHeader(b, h).Picture? || CheckedHeader(b, h).Overread?
    ensures CheckedHeader(b, h) == CheckedPixels(b, h.offset, Abs32(h.width), Abs32(h.height), FlipsVertically(h))
    ensures 0 < Abs32(h.width) && 0 < Abs32(h.height)
  {}

  lemma {:induction false} CheckedPixelsIs(b: seq<Byte>, offset: nat, width: nat, height: nat, flip: bool, image: Image)
    requires CheckedPixels(b, offset, width, height, flip) == Picture(image)
    ensures image.width == width && image.height == height
    ensures Wrap32(offset + Wrap32(Span(height, LoadStride(width)))) <= |b|
    ensures RowsInside(|b|, offset, LoadStride(width), width, height)
    ensures image.pixels == Stack(LinesOf(b, offset, LoadStride(width), width), width, height, flip)
  {
    StridesAgree(width);
  }

  // ---- files that are read beyond their end ----

  lemma {:induction false} NothingWraps(offset: nat, s: nat, height: nat, k: nat)
    requires offset + Span(height, s) < 0x1_0000_0000 && k < height
    ensures RowStart(offset, s, k) == offset + Span(k, s) && offset + Span(k, s) + s <= offset + Span(height, s)
  {
    RowsFit(s, height, k);
    Fits32(Span(k, s));
  }

  lemma {:induction false} AllRowsInside(n: nat, offset: nat, s: nat, width: nat, height: nat)
    requires offset + Span(height, s) < 0x1_0000_0000 && offset + Span(height, s) <= n && Room(width) <= s
    ensures RowsInside(n, offset, s, width, height)
  {
    forall k | 0 <= k < height
      ensures RowStart(offset, s, k) + Room(width) <= n
    {
      NothingWraps(offset, s, height, k);
    }
  }

  /** The row in which the product goes beyond 32 bits. */
  lemma {:induction false} Crossing(s: nat, y: nat, limit: nat) returns (k: nat)
    requires Span(y, s) >= limit > 0
    ensures k < y && Span(k, s) < limit <= Span(k + 1, s)
    decreases y
  {
    if Span(y - 1, s) < limit {
      k := y - 1;
    } else {
      k := Crossing(s, y - 1, limit);
    }
  }

  lemma {:induction false} LastRowOutside(n: nat, offset: nat, s: nat, width: nat, height: nat, k: nat)
    requires k < height && Span(k, s) < 0x1_0000_0000 <= offset + Span(k + 1, s)
    requires n < 0xFFFF_FFFD && s <= Room(width) + 3
    ensures !RowsInside(n, offset, s, width, height)
  {
    Fits32(Span(k, s));
    OneOutside(n, offset, s, width, height, k, RowStart(offset, s, k));
  }

  /** A file that passes the check of its size has all its rows inside if and only if offset and
      size of the pixels together fit 32 bits. */
  lemma {:induction false} OverreadExactly(n: nat, offset: u32, width: nat, height: nat)
    requires height > 0 && Wrap32(offset + Wrap32(Span(height, LoadStride(width)))) <= n < 0xFFFF_FFFD
    ensures RowsInside(n, offset, LoadStride(width), width, height)
            <==> offset + Span(height, LoadStride(width)) < 0x1_0000_0000
  {
    var s, limit := LoadStride(width), 0x1_0000_0000;
    StridesAgree(width);
    if offset + Span(height, s) < limit {
      Fits32(Span(height, s));
      Fits32(offset + Span(height, s));
      AllRowsInside(n, offset, s, width, height);
    } else if Span(height, s) < limit {
      var k := height - 1;
      LastRowOutside(n, offset, s, width, height, k);
    } else {
      var k := Crossing(s, height, limit);
      LastRowOutside(n, offset, s, width, height, k);
    }
  }

  /** The rows of an accepted file of less than 4 GiB do not all lie inside it exactly when the sum
      that the loader compares with the size has wrapped. */
  lemma {:induction false} OverreadsExactly(b: seq<Byte>)
    requires Checked(b).Picture? || Checked(b).Overread?
    requires |b| < 0xFFFF_FFFD
    ensures var h := ReadHeader(b);
            Checked(b) == Overread
            <==> h.offset + Span(Abs32(h.height), LoadStride(Abs32(h.width))) >= 0x1_0000_0000
  {
    var h := ReadHeader(b);
    PastHeader(b, h);
    PixelsOverread(b, h.offset, Abs32(h.width), Abs32(h.height), FlipsVertically(h));
  }

  lemma {:induction false} PixelsOverread(b: seq<Byte>, offset: u32, width: nat, height: nat, flip: bool)
    requires height > 0 && !CheckedPixels(b, offset, width, height, flip).Rejected? && |b| < 0xFFFF_FFFD
    ensures CheckedPixels(b, offset, width, height, flip) == Overread
            <==> offset + Span(height, LoadStride(width)) >= 0x1_0000_0000
  {
    StridesAgree(width);
    OverreadExactly(|b|, offset, width, height);
  }

  /** The two headers of a picture of one pixel, which should begin 4 bytes below 4 GiB. */
  function ShortFile(): (b: seq<Byte>) {
    (Le16(0x4D42) + BytesOf(54) + Le16(0) + Le16(0) + BytesOf(0xFFFF_FFFC)) + InfoHeader(1, 1, 0)
  }

  /** 0xFFFF_FFFC + 4 is 0 in 32 bits: these 54 bytes are accepted. */
  lemma {:induction false} ShortFileOverread()
    ensures |ShortFile()| == 54 && Checked(ShortFile()) == Overread
  {
    var b := ShortFile();
    ShortHeader(b);
    HeaderAccepted(b, 0xFFFF_FFFC, 1, 1);
    ShortPixels(b, 0xFFFF_FFFC);
  }

  lemma {:induction false} ShortPixels(b: seq<Byte>, offset: nat)
    requires |b| == 54 && offset == 0xFFFF_FFFC
    ensures CheckedPixels(b, offset, 1, 1, true) == Overread
  {
    OneRow(LoadStride(1));
    OneOutside(54, offset, LoadStride(1), 1, 1, 0, RowStart(offset, LoadStride(1), 0));
  }

  lemma ShortHeader(b: seq<Byte>)
    requires b == ShortFile()
    ensures |b| == 54 && ReadHeader(b) == Header(0x4D42, 0xFFFF_FFFC, 1, 1, 24, 0)
  {
    var f := Le16(0x4D42) + BytesOf(54) + Le16(0) + Le16(0) + BytesOf(0xFFFF_FFFC);
    FileHeaderFields(Le16(0x4D42), BytesOf(54), Le16(0), Le16(0), BytesOf(0xFFFF_FFFC), InfoHeader(1, 1, 0));
    InfoHeaderFields(f, BytesOf(40), BytesOf(1), BytesOf(1), Le16(1), Le16(24), BytesOf(0), BytesOf(0), Zeros(16), []);
    assert b + [] == b;
    Get16OfLe(0x4D42);
    Get16OfLe(24);
    WordOfBytes(0xFFFF_FFFC);
    WordOfBytes(1);
    WordOfBytes(0);
  }

  lemma OneRow(s: nat)
    ensures Span(1, s) == s && Span(0, s) == 0
  {}

  /** The bound on the size of the file is exact: with one byte more the last row can lie in the
      file although the sum has wrapped. */
  lemma {:induction false} BoundIsExact()
    ensures var n, offset, width := 0xFFFF_FFFD, 0xFFFF_FFF4, 3;
            && Wrap32(offset + Wrap32(Span(1, LoadStride(width)))) <= n
            && RowsInside(n, offset, LoadStride(width), width, 1)
            && offset + Span(1, LoadStride(width)) >= 0x1_0000_0000
  {
    OneRow(LoadStride(3));
  }

  // ---- the round trip ----

  /** A line of the file, `s` bytes for `row`, is read back as the row made opaque. */
  lemma {:induction false} LineReadBack(fileLines: Lines<Byte>, s: nat, width: nat, height: nat, header: seq<Byte>,
                                        k: nat, row: seq<u32>, lines: Lines<u32>)
    requires AreWide(fileLines, s) && k < height && |header| == 54 && |row| == width && Room(width) <= s
    requires fileLines(k) == FileRow(row, s) && 54 + Span(height, s) < 0x1_0000_0000
    requires lines == LinesOf(header + StackDown(fileLines, s, height), 54, s, width)
    ensures lines(k) == OpaqueAll(row)
  {
    var body, at := StackDown(fileLines, s, height), Span(k, s);
    StackDownSlice(fileLines, s, height, k);
    SliceBehind(header, body, at, at + s);
    NothingWraps(54, s, height, k);
    LineInSlice(header + body, s, row, 54 + at);
  }

  lemma {:induction false} LineInSlice(b: seq<Byte>, s: nat, row: seq<u32>, at: nat)
    requires Room(|row|) <= s && at + s <= |b| && b[at..at + s] == FileRow(row, s)
    ensures LineAt(b, at, |row|) == OpaqueAll(row)
  {
    RowInFileRow(row, s);
    FrontOfSlice(b, at, s, Room(|row|));
    RowRoundTrip(row, b[at..]);
    LineAtIs(b, at, |row|);
  }

  lemma {:induction false} RowInFileRow(row: seq<u32>, s: nat)
    requires Room(|row|) <= s
    ensures FileRow(row, s)[..Room(|row|)] == RowBytes(row)
  {}

  lemma FrontOfSlice<X>(b: seq<X>, at: nat, s: nat, n: nat)
    requires at + s <= |b| && n <= s
    ensures b[at..][..n] == b[at..at + s][..n]
  {}

  /** The last `y` rows of an image, from the top down. */
  function Lowest(rows: Lines<u32>, height: nat, y: nat): seq<u32>
    requires y <= height
  {
    if y == 0 then [] else rows(height - y) + Lowest(rows, height, y - 1)
  }

  lemma {:induction false} LowestOfImage(image: Image, y: nat)
    requires image.Valid() && y <= image.height
    ensures Span(image.height - y, image.width) <= |image.pixels|
    ensures Lowest(RowsOf(image), image.height, y) == image.pixels[Span(image.height - y, image.width)..]
    decreases y
  {
    if y > 0 {
      var r := image.height - y;
      LowestOfImage(image, y - 1);
      RowsFit(image.width, image.height, r);
      RowInFront(image.pixels, image.width, r, Span(r, image.width));
    }
  }

  lemma {:induction false} RowInFront(pixels: seq<u32>, width: nat, r: nat, at: nat)
    requires Span(r + 1, width) <= |pixels| && at == Span(r, width)
    ensures pixels[at..] == RowOf(pixels, width, r) + pixels[at + width..]
  {}

  /** Stacking the rows of the file gives the rows of the image, made opaque. */
  lemma {:induction false} RowsRoundTrip(rows: Lines<u32>, lines: Lines<u32>, width: nat, height: nat, y: nat)
    requires y <= height && AreWide(lines, width)
    requires forall k | 0 <= k < y :: lines(k) == OpaqueAll(rows(height - 1 - k))
    ensures StackUp(lines, width, y) == OpaqueAll(Lowest(rows, height, y))
    decreases y
  {
    if y > 0 {
      var z := y - 1;
      RowsRoundTrip(rows, lines, width, height, z);
      assert lines(z) == OpaqueAll(rows(height - 1 - z));
      OpaqueJoin(rows(height - y), Lowest(rows, height, z));
    }
  }

  lemma OpaqueJoin(a: seq<u32>, b: seq<u32>)
    ensures OpaqueAll(a + b) == OpaqueAll(a) + OpaqueAll(b)
  {}

  lemma HeaderAccepted(b: seq<Byte>, offset: u32, w: u32, h: u32)
    requires 0 < w < 0x1_0000 && 0 < h < 0x1_0000
    requires |b| >= 54 && ReadHeader(b) == Header(0x4D42, offset, w, h, 24, 0)
    ensures Checked(b) == CheckedPixels(b, offset, w, h, true)
  {}

  lemma {:induction false} StackReadBack(rows: Lines<u32>, fileLines: Lines<Byte>, s: nat, width: nat, height: nat,
                                         header: seq<Byte>, lines: Lines<u32>)
    requires AreWide(rows, width) && AreWide(fileLines, s) && AreWide(lines, width)
    requires |header| == 54 && Room(width) <= s && 54 + Span(height, s) < 0x1_0000_0000
    requires forall k | 0 <= k < height :: fileLines(k) == FileRow(rows(height - 1 - k), s)
    requires lines == LinesOf(header + StackDown(fileLines, s, height), 54, s, width)
    ensures StackUp(lines, width, height) == OpaqueAll(Lowest(rows, height, height))
  {
    forall k | 0 <= k < height
      ensures lines(k) == OpaqueAll(rows(height - 1 - k))
    {
      LineReadBack(fileLines, s, width, height, header, k, rows(height - 1 - k), lines);
    }
    RowsRoundTrip(rows, lines, width, height, height);
  }

  lemma {:induction false} PixelsRoundTrip(image: Image, header: seq<Byte>)
    requires image.Valid() && |header| == 54 && FileSize(image) < 0x1_0000_0000
    ensures CheckedPixels(header + BodyOf(image), 54, image.width, image.height, true)
            == Picture(Image(image.width, image.height, OpaqueAll(image.pixels)))
  {
    var s, b, rows := SaveStride(image.width), header + BodyOf(image), RowsOf(image);
    StridesAgree(image.width);
    StackReadBack(rows, FileLines(image, s), s, image.width, image.height, header, LinesOf(b, 54, s, image.width));
    LowestOfImage(image, image.height);
    Accepted(b, 54, image.width, image.height, true, OpaqueAll(image.pixels));
  }

  /** A file that holds all its rows is accepted. */
  lemma {:induction false} Accepted(b: seq<Byte>, offset: nat, width: nat, height: nat, flip: bool, pixels: seq<u32>)
    requires offset + Span(height, LoadStride(width)) <= |b| && offset + Span(height, LoadStride(width)) < 0x1_0000_0000
    requires pixels == Stack(LinesOf(b, offset, LoadStride(width), width), width, height, flip)
    ensures CheckedPixels(b, offset, width, height, flip) == Picture(Image(width, height, pixels))
  {
    var s := LoadStride(width);
    StridesAgree(width);
    Fits32(Span(height, s));
    Fits32(offset + Span(height, s));
    AllRowsInside(|b|, offset, s, width, height);
  }

  lemma {:induction false} LoadBehindHeader(image: Image, header: seq<Byte>, b: seq<Byte>)
    requires image.Valid() && 0 < image.width < 0x1_0000 && 0 < image.height < 0x1_0000
    requires |header| == 54 && FileSize(image) < 0x1_0000_0000 && b == header + BodyOf(image)
    requires ReadHeader(b) == Header(0x4D42, 54, image.width, image.height, 24, 0)
    ensures Checked(b) == Picture(Image(image.width, image.height, OpaqueAll(image.pixels)))
  {
    HeaderAccepted(b, 54, image.width, image.height);
    PixelsRoundTrip(image, header);
  }

  /** Saving and loading an image gives its size and its pixels, made opaque. */
  lemma {:induction false} SaveThenLoad(image: Image)
    requires image.Valid() && 0 < image.width < 0x1_0000 && 0 < image.height < 0x1_0000
    requires FileSize(image) < 0x1_0000_0000
    ensures Checked(FileOf(image)) == Picture(Image(image.width, image.height, OpaqueAll(image.pixels)))
  {
    SaveThenLoadSized(image, FileSize(image));
  }

  lemma SaveThenLoadSized(image: Image, size: u32)
    requires image.Valid() && 0 < image.width < 0x1_0000 && 0 < image.height < 0x1_0000 && size >= 54
    requires FileSize(image) < 0x1_0000_0000
    ensures Checked(FileHeaders(size, image.width, image.height) + BodyOf(image))
            == Picture(Image(image.width, image.height, OpaqueAll(image.pixels)))
  {
    var header := FileHeaders(size, image.width, image.height);
    HeaderRoundTrip(size, image.width, image.height, BodyOf(image));
    LoadBehindHeader(image, header, header + BodyOf(image));
  }
}

/** Machine words as their bits, least significant first, and a sequential reader of bits. */
module BitReader {

  type Bits = seq<bool>

  function ZeroBits(n: nat): (z: Bits)
    ensures |z| == n
  {
    seq(n, _ => false)
  }

  function Ones(n: nat): (z: Bits)
    ensures |z| == n
  {
    seq(n, _ => true)
  }

  // ---- the reader ----

  function Sum(ws: seq<nat>): nat {
    if ws == [] then 0 else ws[0] + Sum(ws[1..])
  }

  /** Reads fields of the given widths one after the other. */
  function Read(b: Bits, ws: seq<nat>): (fields: seq<Bits>)
    requires Sum(ws) <= |b|
    ensures |fields| == |ws|
    decreases |ws|
  {
    if ws == [] then [] else [b[..ws[0]]] + Read(b[ws[0]..], ws[1..])
  }

  function Repeat(w: nat, n: nat): (ws: seq<nat>)
    ensures |ws| == n
  {
    seq(n, _ => w)
  }

  lemma {:induction false} SumJoin(ws: seq<nat>, vs: seq<nat>)
    ensures Sum(ws + vs) == Sum(ws) + Sum(vs)
    decreases |ws|
  {
    if ws == [] {
      assert ws + vs == vs;
    } else {
      assert (ws + vs)[0] == ws[0] && (ws + vs)[1..] == ws[1..] + vs;
      SumJoin(ws[1..], vs);
    }
  }

  lemma {:induction false} ReadJoin(b: Bits, ws: seq<nat>, vs: seq<nat>)
    requires Sum(ws) + Sum(vs) <= |b|
    ensures Sum(ws + vs) == Sum(ws) + Sum(vs)
    ensures Read(b, ws + vs) == Read(b, ws) + Read(b[Sum(ws)..], vs)
    decreases |ws|
  {
    SumJoin(ws, vs);
    if ws == [] {
      assert ws + vs == vs && b[0..] == b;
    } else {
      var w, rest := ws[0], ws[1..];
      assert (ws + vs)[0] == w && (ws + vs)[1..] == rest + vs;
      SumJoin(rest, vs);
      ReadJoin(b[w..], rest, vs);
      DropTwice(b, w, Sum(rest));
      assert [b[..w]] + (Read(b[w..], rest) + Read(b[Sum(ws)..], vs))
             == [b[..w]] + Read(b[w..], rest) + Read(b[Sum(ws)..], vs);
    }
  }

  lemma DropTwice<X>(b: seq<X>, w: nat, s: nat)
    requires w + s <= |b|
    ensures b[w..][s..] == b[w + s..]
  {}

  /** Only the bits read matter. */
  lemma {:induction false} ReadPrefix(a: Bits, b: Bits, ws: seq<nat>)
    requires Sum(ws) <= |a| && Sum(ws) <= |b| && a[..Sum(ws)] == b[..Sum(ws)]
    ensures Read(a, ws) == Read(b, ws)
    decreases |ws|
  {
    if ws != [] {
      var w, s := ws[0], Sum(ws);
      assert a[..w] == a[..s][..w] && b[..w] == b[..s][..w];
      assert a[w..][..s - w] == a[..s][w..] && b[w..][..s - w] == b[..s][w..];
      ReadPrefix(a[w..], b[w..], ws[1..]);
    }
  }

  lemma {:induction false} ReadAt(b: Bits, ws: seq<nat>, i: nat)
    requires Sum(ws) <= |b| && i < |ws|
    ensures Sum(ws[..i]) + ws[i] <= |b|
    ensures Read(b, ws)[i] == b[Sum(ws[..i])..Sum(ws[..i]) + ws[i]]
    decreases |ws|
  {
    if i > 0 {
      var w, rest := ws[0], ws[1..];
      var j, c := i - 1, b[w..];
      ReadAt(c, rest, j);
      SumFront(ws, j);
      Slice(b, w, Sum(rest[..j]), rest[j]);
      assert Read(b, ws)[i] == Read(c, rest)[j];
    }
  }

  lemma SumFront(ws: seq<nat>, j: nat)
    requires j < |ws|
    ensures Sum(ws[..j + 1]) == ws[0] + Sum(ws[1..][..j])
  {
    assert ws[..j + 1][1..] == ws[1..][..j];
  }

  lemma Slice(b: Bits, w: nat, s: nat, n: nat)
    requires w + s + n <= |b|
    ensures b[w..][s..s + n] == b[w + s..w + s + n]
  {}

  lemma {:induction false} SumRepeat(w: nat, n: nat)
    ensures Sum(Repeat(w, n)) == n * w
    decreases n
  {
    if n > 0 {
      assert Repeat(w, n)[1..] == Repeat(w, n - 1);
      SumRepeat(w, n - 1);
      assert n * w == (n - 1) * w + w;
    }
  }

  lemma RepeatSnoc(w: nat, n: nat)
    ensures Repeat(w, n + 1) == Repeat(w, n) + [w]
  {}

  // ---- 64-bit words ----

  type Word = w: Bits | |w| == 64 witness ZeroBits(64)

  function Shr(w: Word, n: nat): Word
    requires n <= 64
  {
    w[n..] + ZeroBits(n)
  }

  function Shl(w: Word, n: nat): Word
    requires n <= 64
  {
    ZeroBits(n) + w[..64 - n]
  }

  function OrWords(a: Word, b: Word): Word {
    seq(64, i requires 0 <= i < 64 => a[i] || b[i])
  }

  function AndWords(a: Word, b: Word): Word {
    seq(64, i requires 0 <= i < 64 => a[i] && b[i])
  }

  function Not(a: Word): Word {
    seq(64, i requires 0 <= i < 64 => !a[i])
  }

  /** `(1 << n) - 1` */
  function LowMask(n: nat): Word
    requires n <= 64
  {
    Ones(n) + ZeroBits(64 - n)
  }

  /** Takes `count` fields off the low end of a word: mask, then shift. */
  method TakeFields(chunk: Word, width: nat, count: nat) returns (fields: seq<Bits>, rest: Word)
    requires Sum(Repeat(width, count)) <= 64
    ensures fields == Read(chunk, Repeat(width, count))
    ensures rest[..64 - Sum(Repeat(width, count))] == chunk[Sum(Repeat(width, count))..]
  {
    fields, rest := [], chunk;
    for i := 0 to count
      invariant Sum(Repeat(width, i)) <= 64
      invariant fields == Read(chunk, Repeat(width, i))
      invariant rest[..64 - Sum(Repeat(width, i))] == chunk[Sum(Repeat(width, i))..]
    {
      OneMoreField(chunk, rest, width, i, count);
      fields := fields + [rest[..width]];
      rest := Shr(rest, width);
    }
  }

  lemma OneMoreField(chunk: Word, rest: Word, width: nat, i: nat, count: nat)
    requires i < count && Sum(Repeat(width, count)) <= 64 && Sum(Repeat(width, i)) <= 64
    requires rest[..64 - Sum(Repeat(width, i))] == chunk[Sum(Repeat(width, i))..]
    ensures Sum(Repeat(width, i + 1)) == Sum(Repeat(width, i)) + width <= 64
    ensures Read(chunk, Repeat(width, i + 1)) == Read(chunk, Repeat(width, i)) + [rest[..width]]
    ensures Shr(rest, width)[..64 - Sum(Repeat(width, i + 1))] == chunk[Sum(Repeat(width, i + 1))..]
  {
    var s := Sum(Repeat(width, i));
    FieldsFit(width, i, count);
    RepeatSnoc(width, i);
    assert Sum([width]) == width;
    ReadJoin(chunk, Repeat(width, i), [width]);
    TakenOff(chunk, rest, s, width);
    assert Read(chunk[s..], [width]) == [chunk[s..][..width]];
  }

  lemma TakenOff(chunk: Word, rest: Word, s: nat, width: nat)
    requires s + width <= 64 && rest[..64 - s] == chunk[s..]
    ensures chunk[s..][..width] == rest[..width]
    ensures Shr(rest, width)[..64 - (s + width)] == chunk[s + width..]
  {
    assert chunk[s..][..width] == rest[..64 - s][..width];
    assert chunk[s..][width..] == rest[..64 - s][width..];
  }

  lemma FieldsFit(width: nat, i: nat, count: nat)
    requires i < count && Sum(Repeat(width, count)) <= 64
    ensures Sum(Repeat(width, i)) + width <= 64
  {
    assert Repeat(width, count) == (Repeat(width, i) + [width]) + Repeat(width, count - i - 1);
    SumJoin(Repeat(width, i) + [width], Repeat(width, count - i - 1));
    SumJoin(Repeat(width, i), [width]);
    assert Sum([width]) == width;
  }

  // ---- the anchor bits ----

  /** The word with a zero put in at position `p`; the top bit falls out. */
  function Inserted(w: Word, p: nat): Word
    requires p < 64
  {
    w[..p] + [false] + w[p..63]
  }

  /** `insert_weight_zero`. */
  method InsertWeightZero(indexBits: Word, bitsPerIndex: nat, offset: nat) returns (r: Word)
    requires 1 <= bitsPerIndex * (offset + 1) <= 64
    ensures r == Inserted(indexBits, bitsPerIndex * (offset + 1) - 1)
  {
    var lowBitMask := LowMask(bitsPerIndex * (offset + 1) - 1);
    var highBitMask := Not(lowBitMask);
    r := OrWords(Shl(AndWords(indexBits, highBitMask), 1), AndWords(indexBits, lowBitMask));
    MasksInsert(indexBits, bitsPerIndex * (offset + 1) - 1);
  }

  lemma MasksInsert(w: Word, p: nat)
    requires p < 64
    ensures OrWords(Shl(AndWords(w, Not(LowMask(p))), 1), AndWords(w, LowMask(p))) == Inserted(w, p)
  {
    var mask := LowMask(p);
    assert forall j | 0 <= j < 64 :: mask[j] == (j < p);
    var low, high := AndWords(w, mask), Shl(AndWords(w, Not(mask)), 1);
    assert forall j | 0 <= j < 64 :: high[j] == (j > p && w[j - 1]);
    assert forall j | 0 <= j < 64 :: low[j] == (j < p && w[j]);
  }

  /** How many of the positions lie before `j`. */
  function Count(ps: seq<nat>, j: nat): nat {
    if ps == [] then 0 else Count(ps[..|ps| - 1], j) + if ps[|ps| - 1] < j then 1 else 0
  }

  ghost predicate Ascending(ps: seq<nat>) {
    forall i, j | 0 <= i < j < |ps| :: ps[i] < ps[j]
  }

  lemma {:induction false} CountBounds(ps: seq<nat>, j: nat)
    requires Ascending(ps)
    ensures Count(ps, j) <= |ps| && Count(ps, j) <= j
    ensures (forall i | 0 <= i < |ps| :: ps[i] < j) ==> Count(ps, j) == |ps|
    ensures Count(ps, j) == |ps| ==> |ps| <= j
    decreases |ps|
  {
    if ps != [] {
      var front, last := ps[..|ps| - 1], ps[|ps| - 1];
      CountBounds(front, j);
      if last < j {
        assert forall i | 0 <= i < |front| :: front[i] < last;
        CountBounds(front, last);
      }
    }
  }

  /** `z` is `x` with zeros at the positions `ps`. */
  ghost predicate Spread(z: Word, x: Word, ps: seq<nat>) {
    Ascending(ps) &&
    forall j {:trigger z[j]} | 0 <= j < 64 ::
      Count(ps, j) <= j && z[j] == if j in ps then false else x[j - Count(ps, j)]
  }

  lemma SpreadNothing(x: Word)
    ensures Spread(x, x, [])
  {
    var ps: seq<nat> := [];
    assert forall j: nat :: Count(ps, j) == 0;
    assert Spread(x, x, ps);
  }

  /** Inserting behind all the others. */
  lemma SpreadGrows(z: Word, x: Word, ps: seq<nat>, p: nat)
    requires Spread(z, x, ps) && p < 64 && forall i | 0 <= i < |ps| :: ps[i] < p
    ensures Spread(Inserted(z, p), x, ps + [p])
  {
    var y, qs := Inserted(z, p), ps + [p];
    forall j | 0 <= j < 64
      ensures Count(qs, j) <= j && y[j] == if j in qs then false else x[j - Count(qs, j)]
    {
      assert qs[..|qs| - 1] == ps;
      CountBounds(qs, j);
      if j < p {
        assert y[j] == z[j];
      } else if j > p {
        assert y[j] == z[j - 1];
        CountBounds(ps, j);
        CountBounds(ps, j - 1);
        assert j - 1 !in ps;
      }
    }
  }

  // ---- sixteen indices, one bit fewer at the anchors ----

  /** Where the zero of anchor `a` goes. */
  function Places(w: nat, anchors: seq<nat>): (ps: seq<nat>)
    requires w == 2 || w == 3
    ensures |ps| == |anchors|
  {
    seq(|anchors|, k requires 0 <= k < |anchors| => w * (anchors[k] + 1) - 1)
  }

  function IndexWidths(w: nat, anchors: seq<nat>): (ws: seq<nat>)
    requires w >= 1
    ensures |ws| == 16
  {
    seq(16, i requires 0 <= i < 16 => if i in anchors then w - 1 else w)
  }

  function Pad(b: Bits, w: nat): Bits {
    if |b| < w then b + ZeroBits(w - |b|) else b
  }

  function PadAll(fields: seq<Bits>, w: nat): (r: seq<Bits>)
    ensures |r| == |fields|
  {
    seq(|fields|, i requires 0 <= i < |fields| => Pad(fields[i], w))
  }

  lemma {:induction false} CountPlaces(w: nat, anchors: seq<nat>, i: nat, j: nat)
    requires (w == 2 || w == 3) && w * i <= j < w * (i + 1)
    ensures Count(Places(w, anchors), j) == Count(anchors, i)
    decreases |anchors|
  {
    if anchors != [] {
      var front := anchors[..|anchors| - 1];
      assert Places(w, anchors)[..|anchors| - 1] == Places(w, front);
      CountPlaces(w, front, i, j);
    }
  }

  lemma InPlaces(w: nat, anchors: seq<nat>, i: nat, j: nat)
    requires (w == 2 || w == 3) && w * i <= j < w * (i + 1)
    ensures j in Places(w, anchors) <==> i in anchors && j == w * (i + 1) - 1
  {
    var ps := Places(w, anchors);
    if i in anchors && j == w * (i + 1) - 1 {
      var k :| 0 <= k < |anchors| && anchors[k] == i;
      assert ps[k] == j;
    }
    if j in ps {
      var k :| 0 <= k < |ps| && ps[k] == j;
      assert anchors[k] == i;
    }
  }

  lemma {:induction false} CountStep(ps: seq<nat>, j: nat)
    requires Ascending(ps)
    ensures Count(ps, j + 1) == Count(ps, j) + if j in ps then 1 else 0
    decreases |ps|
  {
    if ps != [] {
      var front, last := ps[..|ps| - 1], ps[|ps| - 1];
      assert ps == front + [last];
      CountStep(front, j);
    }
  }

  lemma {:induction false} SumOfIndexWidths(w: nat, anchors: seq<nat>, i: nat)
    requires 2 <= w <= 4 && Ascending(anchors) && i <= 16
    ensures Sum(IndexWidths(w, anchors)[..i]) == w * i - Count(anchors, i)
    decreases i
  {
    var ws := IndexWidths(w, anchors);
    if i == 0 {
      CountBounds(anchors, 0);
    } else {
      assert ws[..i] == ws[..i - 1] + [ws[i - 1]];
      SumJoin(ws[..i - 1], [ws[i - 1]]);
      assert Sum([ws[i - 1]]) == ws[i - 1];
      SumOfIndexWidths(w, anchors, i - 1);
      CountStep(anchors, i - 1);
      assert w * i == w * (i - 1) + w;
    }
  }

  lemma SpreadAt(z: Word, x: Word, ps: seq<nat>, j: nat)
    requires Spread(z, x, ps) && j < 64
    ensures Count(ps, j) <= j && z[j] == if j in ps then false else x[j - Count(ps, j)]
  {}

  lemma IndexBit(z: Word, x: Word, w: nat, anchors: seq<nat>, i: nat, j: nat)
    requires (w == 2 || w == 3) && w * i <= j < w * (i + 1) && j < 64 && Spread(z, x, Places(w, anchors))
    ensures Count(anchors, i) <= j
    ensures z[j] == if i in anchors && j == w * (i + 1) - 1 then false else x[j - Count(anchors, i)]
  {
    CountPlaces(w, anchors, i, j);
    InPlaces(w, anchors, i, j);
    SpreadAt(z, x, Places(w, anchors), j);
  }

  lemma FieldBit(z: Word, x: Word, w: nat, anchors: seq<nat>, i: nat, at: nat, s: nat, n: nat, k: nat)
    requires (w == 2 || w == 3) && at == w * i && at + w <= 64 && Spread(z, x, Places(w, anchors)) && k < w
    requires s == at - Count(anchors, i) && n == (if i in anchors then w - 1 else w)
    ensures z[at + k] == if k < n then x[s + k] else false
  {
    assert w * (i + 1) == at + w;
    IndexBit(z, x, w, anchors, i, at + k);
  }

  lemma IndexField(z: Word, x: Word, w: nat, anchors: seq<nat>, i: nat, at: nat, s: nat, n: nat)
    requires (w == 2 || w == 3) && at == w * i && at + w <= 64 && Spread(z, x, Places(w, anchors))
    requires s == at - Count(anchors, i) && n == (if i in anchors then w - 1 else w)
    ensures z[at..at + w] == Pad(x[s..s + n], w)
  {
    var f, g := z[at..at + w], Pad(x[s..s + n], w);
    forall k | 0 <= k < w
      ensures f[k] == g[k]
    {
      FieldBit(z, x, w, anchors, i, at, s, n, k);
      PadBit(x, w, s, n, k);
    }
  }

  lemma PadBit(x: Bits, w: nat, s: nat, n: nat, k: nat)
    requires n <= w && s + n <= |x| && k < w
    ensures Pad(x[s..s + n], w)[k] == if k < n then x[s + k] else false
  {}

  lemma EvenField(z: Bits, w: nat, i: nat)
    requires i < 16 && Sum(Repeat(w, 16)) <= |z|
    ensures i * w + w <= |z| && Read(z, Repeat(w, 16))[i] == z[i * w..i * w + w]
  {
    var ws := Repeat(w, 16);
    ReadAt(z, ws, i);
    assert ws[..i] == Repeat(w, i) && ws[i] == w;
    SumRepeat(w, i);
  }

  lemma NarrowField(x: Bits, w: nat, anchors: seq<nat>, i: nat, s: nat, n: nat)
    requires (w == 2 || w == 3) && Ascending(anchors) && i < 16 && Sum(IndexWidths(w, anchors)) <= |x|
    requires s == w * i - Count(anchors, i) && n == if i in anchors then w - 1 else w
    ensures s + n <= |x| && Read(x, IndexWidths(w, anchors))[i] == x[s..s + n]
  {
    ReadAt(x, IndexWidths(w, anchors), i);
    SumOfIndexWidths(w, anchors, i);
  }

  lemma AnchorRead(z: Word, x: Word, w: nat, anchors: seq<nat>, i: nat)
    requires (w == 2 || w == 3) && Ascending(anchors) && Spread(z, x, Places(w, anchors)) && i < 16
    requires Sum(Repeat(w, 16)) <= 64 && Sum(IndexWidths(w, anchors)) <= 64
    ensures Read(z, Repeat(w, 16))[i] == Pad(Read(x, IndexWidths(w, anchors))[i], w)
  {
    CountBounds(anchors, i);
    var at, n := i * w, if i in anchors then w - 1 else w;
    var s := at - Count(anchors, i);
    assert at == w * i && s >= 0;
    EvenField(z, w, i);
    NarrowField(x, w, anchors, i, s, n);
    IndexField(z, x, w, anchors, i, at, s, n);
  }

  /** The word with its zeros put in, read in fields of equal width, gives what the reader
      reads from the word as it was, with the anchors one bit shorter. */
  lemma AnchorsRead(z: Word, x: Word, w: nat, anchors: seq<nat>)
    requires (w == 2 || w == 3) && Ascending(anchors) && Spread(z, x, Places(w, anchors))
    ensures Sum(Repeat(w, 16)) <= 64 && Sum(IndexWidths(w, anchors)) <= 64
    ensures Read(z, Repeat(w, 16)) == PadAll(Read(x, IndexWidths(w, anchors)), w)
  {
    IndicesFit(w, anchors);
    var f, g := Read(z, Repeat(w, 16)), PadAll(Read(x, IndexWidths(w, anchors)), w);
    forall i | 0 <= i < 16
      ensures f[i] == g[i]
    {
      AnchorRead(z, x, w, anchors, i);
    }
  }

  lemma IndicesFit(w: nat, anchors: seq<nat>)
    requires 2 <= w <= 4 && Ascending(anchors)
    ensures Sum(Repeat(w, 16)) == 16 * w
    ensures Sum(IndexWidths(w, anchors)) == 16 * w - Count(anchors, 16)
  {
    SumRepeat(w, 16);
    SumOfIndexWidths(w, anchors, 16);
    assert IndexWidths(w, anchors)[..16] == IndexWidths(w, anchors);
  }
}

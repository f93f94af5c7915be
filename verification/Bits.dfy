/** Bitwise operations on natural numbers, and what they do to the low bits. */
module Bits {
  import opened Modular

  type Byte = x: int | 0 <= x < 256
  type u32 = x: int | 0 <= x < 0x1_0000_0000

  /** Bitwise or. */
  function Or(a: nat, b: nat): nat
    decreases a + b
  {
    if a == 0 then b else if b == 0 then a
    else (if a % 2 == 1 || b % 2 == 1 then 1 else 0) + 2 * Or(a / 2, b / 2)
  }

  function Pow2(n: nat): (p: nat)
    ensures p > 0
  {
    if n == 0 then 1 else 2 * Pow2(n - 1)
  }

  lemma {:induction false} OrBelow(a: nat, b: nat, n: nat)
    requires a < Pow2(n) && b < Pow2(n)
    ensures Or(a, b) < Pow2(n)
    decreases n
  {
    if a != 0 && b != 0 {
      OrBelow(a / 2, b / 2, n - 1);
    }
  }

  lemma HalfMod(a: nat, p: nat)
    requires p > 0
    ensures a % (2 * p) == 2 * (a / 2 % p) + a % 2
  {
    var q, r := a / 2 / p, a / 2 % p;
    assert a / 2 == q * p + r;
    assert q * (2 * p) == 2 * (q * p);
    ModUnique(a, q, 2 * r + a % 2, 2 * p);
  }

  lemma OrSplit(a: nat, b: nat)
    ensures Or(a, b) == (if a % 2 == 1 || b % 2 == 1 then 1 else 0) + 2 * Or(a / 2, b / 2)
  {}

  lemma OrHalves(a: nat, b: nat)
    ensures Or(a, b) / 2 == Or(a / 2, b / 2)
    ensures Or(a, b) % 2 == (if a % 2 == 1 || b % 2 == 1 then 1 else 0)
  {
    OrSplit(a, b);
  }

  lemma SameHalves(a: nat, b: nat)
    requires a / 2 == b / 2 && a % 2 == b % 2
    ensures a == b
  {}

  lemma ModHalves(a: nat, p: nat)
    requires p > 0
    ensures a % (2 * p) / 2 == a / 2 % p && a % (2 * p) % 2 == a % 2
  {
    HalfMod(a, p);
  }

  /** The low bits of an or are the or of the low bits. */
  lemma {:induction false} OrLow(a: nat, b: nat, n: nat)
    ensures Or(a, b) % Pow2(n) == Or(a % Pow2(n), b % Pow2(n))
    decreases n
  {
    if n > 0 {
      var p := Pow2(n - 1);
      var x, y := a % (2 * p), b % (2 * p);
      ModHalves(a, p);
      ModHalves(b, p);
      ModHalves(Or(a, b), p);
      OrHalves(a, b);
      OrHalves(x, y);
      OrLow(a / 2, b / 2, n - 1);
      SameHalves(Or(a, b) % (2 * p), Or(x, y));
    }
  }

  lemma Pow2Sum(m: nat, n: nat)
    ensures Pow2(m + n) == Pow2(m) * Pow2(n)
  {
    if m > 0 {
      Pow2Sum(m - 1, n);
      assert Pow2(m + n) == 2 * (Pow2(m - 1) * Pow2(n));
    }
  }

  lemma Pow2Values()
    ensures Pow2(32) == 0x1_0000_0000 && Pow2(64) == 0x1_0000_0000_0000_0000
  {
    assert Pow2(8) == 256;
    Pow2Sum(8, 8);
    Pow2Sum(16, 16);
    Pow2Sum(32, 32);
  }

  function And(a: nat, b: nat): nat
    decreases a + b
  {
    if a == 0 || b == 0 then 0
    else (if a % 2 == 1 && b % 2 == 1 then 1 else 0) + 2 * And(a / 2, b / 2)
  }

  function Xor(a: nat, b: nat): nat
    decreases a + b
  {
    if a == 0 then b else if b == 0 then a
    else (if a % 2 != b % 2 then 1 else 0) + 2 * Xor(a / 2, b / 2)
  }

  lemma {:induction false} AndBelow(a: nat, b: nat, n: nat)
    requires a < Pow2(n)
    ensures And(a, b) < Pow2(n)
    decreases n
  {
    if a != 0 && b != 0 {
      AndBelow(a / 2, b / 2, n - 1);
    }
  }

  lemma {:induction false} XorBelow(a: nat, b: nat, n: nat)
    requires a < Pow2(n) && b < Pow2(n)
    ensures Xor(a, b) < Pow2(n)
    decreases n
  {
    if a != 0 && b != 0 {
      XorBelow(a / 2, b / 2, n - 1);
    }
  }

  lemma AndHalves(a: nat, b: nat)
    ensures And(a, b) / 2 == And(a / 2, b / 2)
    ensures And(a, b) % 2 == (if a % 2 == 1 && b % 2 == 1 then 1 else 0)
  {}

  lemma XorHalves(a: nat, b: nat)
    ensures Xor(a, b) / 2 == Xor(a / 2, b / 2)
    ensures Xor(a, b) % 2 == (if a % 2 != b % 2 then 1 else 0)
  {}

  lemma {:induction false} AndCommutes(a: nat, b: nat)
    ensures And(a, b) == And(b, a)
    decreases a + b
  {
    if a != 0 && b != 0 {
      AndCommutes(a / 2, b / 2);
    }
  }

  lemma ComplementHalves(x: nat, n: nat)
    requires n > 0 && x < Pow2(n)
    ensures x / 2 < Pow2(n - 1)
    ensures var not := Pow2(n) - 1 - x; not / 2 == Pow2(n - 1) - 1 - x / 2 && not % 2 == 1 - x % 2
  {}

  lemma {:induction false} SelectHalves(x: nat, y: nat, z: nat, not: nat)
    requires not % 2 == 1 - x % 2
    requires Xor(z / 2, And(x / 2, Xor(y / 2, z / 2))) == Or(And(x / 2, y / 2), And(not / 2, z / 2))
    ensures Xor(z, And(x, Xor(y, z))) == Or(And(x, y), And(not, z))
  {
    var w := Xor(y, z);
    XorHalves(y, z);
    AndHalves(x, w);
    XorHalves(z, And(x, w));
    AndHalves(x, y);
    AndHalves(not, z);
    OrHalves(And(x, y), And(not, z));
    SameHalves(Xor(z, And(x, w)), Or(And(x, y), And(not, z)));
  }

  /** `z ^ (x & (y ^ z))` picks the bits of `y` where `x` has a one and those of `z` elsewhere. */
  lemma {:induction false} XorSelects(x: nat, y: nat, z: nat, n: nat)
    requires x < Pow2(n) && y < Pow2(n) && z < Pow2(n)
    ensures Xor(z, And(x, Xor(y, z))) == Or(And(x, y), And(Pow2(n) - 1 - x, z))
    decreases n
  {
    if n > 0 {
      ComplementHalves(x, n);
      ComplementHalves(y, n);
      ComplementHalves(z, n);
      XorSelects(x / 2, y / 2, z / 2, n - 1);
      SelectHalves(x, y, z, Pow2(n) - 1 - x);
    }
  }

  // ---- on 32-bit words ----

  function Or32(a: u32, b: u32): u32 {
    Pow2Values();
    OrBelow(a, b, 32);
    Or(a, b)
  }

  function And32(a: u32, b: u32): u32 {
    Pow2Values();
    AndBelow(a, b, 32);
    And(a, b)
  }

  function Xor32(a: u32, b: u32): u32 {
    Pow2Values();
    XorBelow(a, b, 32);
    Xor(a, b)
  }

  function Not32(a: u32): u32 {
    0xFFFF_FFFF - a
  }

  function Sum32(a: u32, b: u32): u32 {
    (a + b) % 0x1_0000_0000
  }

  type Amount = s: nat | 0 < s < 32 witness 1

  function ShiftLeft32(a: u32, s: Amount): u32 {
    a * Pow2(s) % 0x1_0000_0000
  }

  function ShiftRight32(a: u32, s: Amount): u32 {
    Quotient(a, Pow2(s))
  }

  function Quotient(a: nat, p: nat): (q: nat)
    requires p > 0
    ensures q <= a
  {
    QuotientAtMost(a, p);
    a / p
  }

  lemma QuotientAtMost(a: nat, p: nat)
    requires p > 0
    ensures a / p <= a
  {
    var k := a / p;
    assert a == k * p + a % p;
    if k > 0 {
      MulAtLeast(p, k);
    }
  }

  lemma QuotientBelow(a: nat, p: nat, q: nat)
    requires p > 0 && a < q * p
    ensures a / p < q
  {
    var k := a / p;
    assert a == k * p + a % p;
    if k >= q {
      MulSub(k, q, p);
      MulGrows(k - q, p);
    }
  }

  lemma MulGrows(k: nat, p: nat)
    ensures k * p >= 0
  {}

  lemma ShiftRightBelow(a: u32, s: Amount)
    ensures ShiftRight32(a, s) < Pow2(32 - s)
  {
    Pow2Values();
    Pow2Sum(32 - s, s);
    QuotientBelow(a, Pow2(s), Pow2(32 - s));
  }

  /** The circular shift: the low bits move up, the high ones come in below them. */
  function Rotate32(a: u32, s: Amount): u32 {
    Pow2Values();
    Pow2Sum(s, 32 - s);
    ShiftRightBelow(a, 32 - s);
    var low, high := a % Pow2(32 - s), ShiftRight32(a, 32 - s);
    RotationFits(low, high, Pow2(s), Pow2(32 - s));
    low * Pow2(s) + high
  }

  lemma RotationFits(low: nat, high: nat, p: nat, q: nat)
    requires low < q && high < p
    ensures low * p + high < p * q
  {
    MulAtLeast(q - low, p);
    MulSub(q, low, p);
  }

  lemma {:induction false} OrOfDisjoint(a: nat, b: nat, s: nat)
    requires b < Pow2(s)
    ensures Or(a * Pow2(s), b) == a * Pow2(s) + b
    decreases s
  {
    if s > 0 {
      var p := Pow2(s - 1);
      assert a * Pow2(s) == 2 * (a * p);
      OrSplit(a * Pow2(s), b);
      OrOfDisjoint(a, b / 2, s - 1);
    }
  }

  lemma ShiftedLow(a: nat, p: nat, q: nat)
    requires p > 0 && q > 0
    ensures a * p % (p * q) == a % q * p
  {
    var k, r := a / q, a % q;
    assert a == k * q + r;
    assert a * p == k * (p * q) + r * p;
    assert r * p < p * q by {
      MulAtLeast(q - r, p);
      MulSub(q, r, p);
    }
    ModUnique(a * p, k, r * p, p * q);
  }

  /** Shifting both ways and joining the parts rotates. */
  lemma ShiftsRotate(a: u32, s: Amount)
    ensures Or32(ShiftLeft32(a, s), ShiftRight32(a, 32 - s)) == Rotate32(a, s)
  {
    Pow2Values();
    Pow2Sum(s, 32 - s);
    ShiftedLow(a, Pow2(s), Pow2(32 - s));
    ShiftRightBelow(a, 32 - s);
    OrOfDisjoint(a % Pow2(32 - s), ShiftRight32(a, 32 - s), s);
  }

  lemma SumsAssociate(a: u32, b: u32, c: u32)
    ensures Sum32(a, Sum32(b, c)) == Sum32(Sum32(a, b), c)
    ensures Sum32(a, b) == Sum32(b, a)
  {}

  // ---- bytes ----

  function LowByte(x: nat): Byte {
    x % 0x100
  }

  /** A word, low-order byte first. */
  function BytesOf(w: u32): (b: seq<Byte>)
    ensures |b| == 4
  {
    [LowByte(w), LowByte(w / 0x100), LowByte(w / 0x1_0000), LowByte(w / 0x100_0000)]
  }

  function WordOf(b0: Byte, b1: Byte, b2: Byte, b3: Byte): u32 {
    (b0 as int) + 0x100 * (b1 as int) + 0x1_0000 * (b2 as int) + 0x100_0000 * (b3 as int)
  }

  lemma WordOfBytes(w: u32)
    ensures var b := BytesOf(w); WordOf(b[0], b[1], b[2], b[3]) == w
  {
    var a, b, c := w / 0x100, w / 0x1_0000, w / 0x100_0000;
    assert w == 0x100 * a + LowByte(w);
    assert a == 0x100 * b + LowByte(a);
    assert b == 0x100 * c + LowByte(b);
  }

  function Zeros(n: nat): (z: seq<Byte>)
    ensures |z| == n
  {
    seq(n, _ => 0)
  }
}

/** Facts about quotients and remainders, stated so that they can be used one at a time. */
module Modular {
  lemma MulAtLeast(a: int, m: nat)
    requires a >= 1
    ensures a * m >= m
  {}

  lemma MulSub(p: int, q: int, m: nat)
    ensures (p - q) * m == p * m - q * m
  {}

  lemma ModUnique(x: nat, q: int, r: nat, m: nat)
    requires m > 0 && r < m && x == q * m + r
    ensures x % m == r
  {
    var p, y := x / m, x % m;
    assert x == p * m + y && y < m;
    if p > q {
      MulAtLeast(p - q, m);
      MulSub(p, q, m);
    } else if p < q {
      MulAtLeast(q - p, m);
      MulSub(q, p, m);
    }
  }

  lemma ModDistinct(i: nat, j: nat, m: nat)
    requires m > 0 && i < j < i + m
    ensures i % m != j % m
  {
    var p, q := i / m, j / m;
    assert i == p * m + i % m && j == q * m + j % m;
    MulSub(q, p, m);
    if q > p {
      MulAtLeast(q - p, m);
    } else if q < p {
      MulAtLeast(p - q, m);
      MulSub(p, q, m);
    }
  }

  lemma ModAddOnce(i: nat, m: nat)
    requires m > 0
    ensures (i + m) % m == i % m
  {
    var q, r := i / m, i % m;
    assert i == q * m + r;
    MulSub(q + 1, q, m);
    ModUnique(i + m, q + 1, r, m);
  }

  lemma ModSucc(i: nat, m: nat)
    requires m > 0
    ensures (i % m + 1) % m == (i + 1) % m
  {
    var q, r := i / m, i % m;
    assert i == q * m + r;
    if r + 1 < m {
      ModUnique(r + 1, 0, r + 1, m);
      ModUnique(i + 1, q, r + 1, m);
    } else {
      MulSub(q + 1, q, m);
      ModUnique(r + 1, 1, 0, m);
      ModUnique(i + 1, q + 1, 0, m);
    }
  }
}

/** Powers of two, and quotients and remainders of products. */
module Arith {
  function Min(a: int, b: int): int { if a < b then a else b }

  function Pow2(n: nat): (p: nat)
    ensures p > 0
  {
    if n == 0 then 1 else 2 * Pow2(n - 1)
  }

  lemma {:induction false} Pow2Add(a: nat, b: nat)
    ensures Pow2(a + b) == Pow2(a) * Pow2(b)
  {
    if b > 0 {
      Pow2Add(a, b - 1);
      assert Pow2(a) * (2 * Pow2(b - 1)) == 2 * (Pow2(a) * Pow2(b - 1));
    }
  }

  lemma Pow2Step(n: nat)
    requires n > 0
    ensures Pow2(n) == 2 * Pow2(n - 1)
  {
  }

  lemma {:induction false} Pow2Grows(i: nat, j: nat)
    requires i <= j
    ensures Pow2(i) <= Pow2(j)
  {
    if i < j { Pow2Grows(i, j - 1); }
  }

  lemma ModUnique(a: int, r: nat, d: int, m: nat)
    requires m < r && a == d * r + m
    ensures a % r == m && a / r == d
  {
    var e, n := a / r, a % r;
    assert a == e * r + n;
    if e > d {
      AtLeastOnce(e, d, r);
    } else if e < d {
      AtLeastOnce(d, e, r);
    }
  }

  lemma AtLeastOnce(e: int, d: int, r: nat)
    requires e > d
    ensures e * r >= d * r + r
  {
    var f := e - d - 1;
    assert e * r == d * r + r + f * r;
  }

  lemma Quotient(a: nat, d: nat)
    requires d > 0
    ensures a == a / d * d + a % d && a % d < d
  {
  }

  lemma Spread(q: nat, b: nat, r: nat, a: nat)
    ensures (q * b + r) * a == q * (a * b) + r * a
  {
  }

  // What fills a up to a multiple of d.
  lemma FillUp(a: nat, d: nat)
    requires d > 0
    ensures 0 <= (0 - a) % d < d && (a + (0 - a) % d) % d == 0
  {
    var z, q := (0 - a) % d, (0 - a) / d;
    assert 0 - a == q * d + z;
    ModUnique(a + z, d, 0 - q, 0);
  }

  lemma Multiple(a: nat, r: nat, b: nat, lim: nat)
    requires r < lim && a * lim + r == b * lim
    ensures r == 0
  {
    ModUnique(b * lim, lim, a, r);
    ModUnique(b * lim, lim, b, 0);
  }

  lemma SuccessorMod(a: nat, m: nat)
    requires m > 0
    ensures (a % m + 1) % m == (a + 1) % m
  {
    var q, r := a / m, a % m;
    assert a == q * m + r;
    if r + 1 < m {
      ModUnique(a + 1, m, q, r + 1);
      ModUnique(r + 1, m, 0, r + 1);
    } else {
      ModUnique(a + 1, m, q + 1, 0);
      ModUnique(m, m, 1, 0);
    }
  }

  // An even multiple of p does not show in the bit that p stands for.
  lemma AddTwice(low: nat, p: nat, q: nat)
    requires p > 0
    ensures (low + 2 * q * p) / p % 2 == low / p % 2
  {
    var d, m := low / p, low % p;
    assert low == d * p + m;
    assert low + 2 * q * p == (d + 2 * q) * p + m;
    ModUnique(low + 2 * q * p, p, d + 2 * q, m);
  }
}

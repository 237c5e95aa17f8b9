/** The 32-bit word, and facts about products and whole-number division that the solver does not find by itself. */
module Arith {

  const WORD32: nat := 0x1_0000_0000

  type u32 = x: int | 0 <= x < WORD32

  lemma MulMono(a: int, b: int, m: int)
    requires a <= b && m >= 0
    ensures a * m <= b * m
  {
  }

  /** A multiple of m strictly between -m and m is zero. */
  lemma SmallMultiple(d: int, m: int)
    requires -m < d * m < m
    ensures d == 0
  {
    if d >= 1 {
      MulMono(1, d, m);
    } else if d <= -1 {
      MulMono(d, -1, m);
    }
  }

  lemma DivUnique(x: int, m: int, k: int)
    requires m > 0 && k * m <= x < k * m + m
    ensures x / m == k && x % m == x - k * m
  {
    var q, r := x / m, x % m;
    assert x == q * m + r;
    assert (q - k) * m == x - r - k * m;
    SmallMultiple(q - k, m);
  }

  lemma MultipleMod(k: int, m: int)
    requires m > 0
    ensures k * m % m == 0 && k * m / m == k
  {
    DivUnique(k * m, m, k);
  }

  lemma DivMod(x: int, m: int)
    requires m > 0
    ensures x == x / m * m + x % m && 0 <= x % m < m
  {
  }

  lemma DividesTrans(a: int, b: int, n: int)
    requires a > 0 && b > 0 && b % a == 0 && n % b == 0
    ensures n % a == 0
  {
    DivMod(n, b);
    DivMod(b, a);
    var q, r := n / b, b / a;
    assert n == q * (r * a) == (q * r) * a;
    MultipleMod(q * r, a);
  }

  lemma DivAtLeast(x: int, m: int, k: int)
    requires m > 0 && k * m <= x
    ensures x / m >= k
  {
    DivMod(x, m);
    var q := x / m;
    assert (q + 1) * m == q * m + m;
    if q < k {
      MulMono(q + 1, k, m);
    }
  }

  /** Reducing first modulo a multiple of m changes nothing. */
  lemma ModMod(x: int, m: int, k: int)
    requires m > 0 && k > 0 && k * m > 0
    ensures x % (k * m) % m == x % m
  {
    var q, r := x / (k * m), x % (k * m);
    DivMod(x, k * m);
    DivMod(r, m);
    assert q * (k * m) == q * k * m;
    assert x == (q * k + r / m) * m + r % m;
    DivUnique(x, m, q * k + r / m);
  }

  lemma SquareMono(i: int, j: int)
    requires 0 <= i <= j
    ensures i * i <= j * j
  {
    MulMono(i, j, i);
    MulMono(i, j, j);
  }
}

/** The trial division of uart.c, which calls a few composites prime: exactly which. */
module Primes {
  import opened Arith

  const MAX_ROOT: nat := 65531

  ghost predicate Prime(n: nat) {
    n >= 2 && NoDivisorBelow(n, n)
  }

  ghost predicate NoDivisorBelow(n: nat, i: nat) {
    forall c | 2 <= c < i :: n % c != 0
  }

  ghost predicate PrimeSquare(p: nat, n: nat) {
    Prime(p) && p % 6 == 5 && n == p * p
  }

  /** What IsPrime says "yes" to: also the square of a prime congruent to 5 mod 6, since the loop ends one
      candidate early. */
  ghost predicate SaidPrime(n: nat) {
    n <= 3 || Prime(n) || exists p: nat :: PrimeSquare(p, n)
  }

  // ----- Euclid's lemma -----

  /** If p divides p * b and x, and p * b = q * x + y, it divides y. */
  lemma DividesRest(p: nat, k: int, q: int, x: int, y: int)
    requires p > 0 && p * k == q * x + y && x % p == 0
    ensures y % p == 0
  {
    DivMod(x, p);
    var j := x / p;
    assert y == (k - q * j) * p by {
      assert q * x == q * j * p;
    }
    MultipleMod(k - q * j, p);
  }

  /** A prime that divides r * b, with r a non-zero residue, divides b. */
  lemma {:induction false} Euclid(p: nat, r: nat, b: nat)
    requires Prime(p) && 0 < r < p && r * b % p == 0
    ensures b % p == 0
    decreases r
  {
    if r > 1 {
      var q, s := p / r, p % r;
      DivMod(p, r);
      assert p * b == q * (r * b) + s * b;
      DividesRest(p, b, q, r * b, s * b);
      Euclid(p, s, b);
    }
  }

  /** The only prime that divides the square of a prime is that prime. */
  lemma PrimeDividesSquare(d: nat, p: nat)
    requires Prime(d) && Prime(p) && p * p % d == 0
    ensures d == p
  {
    var q, r := p / d, p % d;
    DivMod(p, d);
    if r > 0 {
      var k := p * p / d;
      DivMod(p * p, d);
      assert d * (k - q * p) == 0 * 0 + r * p by {
        assert p * p == q * d * p + r * p;
      }
      DividesRest(d, k - q * p, 0, 0, r * p);
      Euclid(d, r, p);
    }
  }

  // ----- least divisors -----

  lemma LeastDivisorIsPrime(n: nat, d: nat)
    requires d >= 2 && n % d == 0 && NoDivisorBelow(n, d)
    ensures Prime(d)
  {
    forall k | 2 <= k < d ensures d % k != 0 {
      if d % k == 0 {
        DividesTrans(k, d, n);
      }
    }
  }

  /** A proper least divisor d means "no", unless n is d * d with d = 5 mod 6. */
  lemma FoundDivisor(n: nat, d: nat)
    requires n > 3 && 2 <= d < n && n % d == 0 && NoDivisorBelow(n, d)
    requires n != d * d || d % 6 != 5
    ensures !SaidPrime(n)
  {
    LeastDivisorIsPrime(n, d);
    if p: nat :| PrimeSquare(p, n) {
      PrimeDividesSquare(d, p);
    }
  }

  /** If nothing below i divides n and i * i >= n, then n is prime or the square of i. */
  lemma NoDivisorFound(n: nat, i: nat)
    requires n > 3 && i % 6 == 5 && NoDivisorBelow(n, i) && i * i >= n
    ensures Prime(n) || PrimeSquare(i, n)
  {
    if !Prime(n) {
      var c :| 2 <= c < n && n % c == 0;
      var e := n / c;
      DivMod(n, c);
      ProperCofactor(n, c, e);
      CofactorsFromRoot(c, e, i);
      MultipleMod(i, i);
      LeastDivisorIsPrime(n, i);
      assert PrimeSquare(i, n);
    }
  }

  lemma ProperCofactor(n: nat, c: nat, e: nat)
    requires 2 <= c < n && n == e * c
    ensures e >= 2 && n % e == 0
  {
    if e <= 1 {
      MulMono(e, 1, c);
    }
    MultipleMod(c, e);
  }

  lemma CofactorsFromRoot(c: nat, e: nat, i: nat)
    requires i <= c && i <= e && e * c <= i * i
    ensures e * c == i * i
  {
    MulMono(i, c, e);
    MulMono(i, e, i);
  }

  /** One turn of the loop passes four candidates that 2 or 3 would have divided. */
  lemma WheelTurn(n: nat, i: nat)
    requires i % 6 == 5 && n % 2 != 0 && n % 3 != 0 && NoDivisorBelow(n, i)
    requires n % i != 0 && n % (i + 2) != 0
    ensures NoDivisorBelow(n, i + 6)
  {
    forall c | i <= c < i + 6 ensures n % c != 0 {
      WheelCandidate(i, c);
      if n % c == 0 {
        if c % 2 == 0 {
          DividesTrans(2, c, n);
        } else if c % 3 == 0 {
          DividesTrans(3, c, n);
        }
      }
    }
  }

  lemma WheelCandidate(i: nat, c: nat)
    requires i % 6 == 5 && i <= c < i + 6
    ensures c == i || c == i + 2 || c % 2 == 0 || c % 3 == 0
  {
    var k := i / 6;
    DivMod(i, 6);
    var d := c - i;
    if d == 4 {
      MultipleMod(2 * k + 3, 3);
    } else {
      MultipleMod(3 * k + 3, 2);
      MultipleMod(3 * k + 4, 2);
      MultipleMod(3 * k + 5, 2);
    }
  }

  /** Exact for every n up to 65531 squared; up to there i * i does not overflow. */
  method IsPrime(n: u32) returns (r: nat)
    requires n <= MAX_ROOT * MAX_ROOT
    ensures r == if SaidPrime(n) then 1 else 0
  {
    if n <= 3 {
      return 1;
    } else if n % 2 == 0 || n % 3 == 0 {
      FoundDivisor(n, if n % 2 == 0 then 2 else 3);
      return 0;
    } else {
      var i := 5;
      while i * i % WORD32 < n
        invariant 5 <= i <= MAX_ROOT && i % 6 == 5
        invariant NoDivisorBelow(n, i)
        decreases MAX_ROOT - i
      {
        NoOverflow(i);
        if n % i == 0 || n % (i + 2) == 0 {
          DivisorInTurn(n, i);
          return 0;
        }
        WheelTurn(n, i);
        NextCandidate(n, i);
        i := i + 6;
      }
      NoOverflow(i);
      NoDivisorFound(n, i);
      return 1;
    }
  }

  lemma NoOverflow(i: nat)
    requires i <= MAX_ROOT
    ensures i * i % WORD32 == i * i
  {
    SquareMono(i, MAX_ROOT);
  }

  lemma NextCandidate(n: nat, i: nat)
    requires i * i < n <= MAX_ROOT * MAX_ROOT && i <= MAX_ROOT && i % 6 == 5
    ensures i + 6 <= MAX_ROOT && (i + 6) % 6 == 5
  {
    assert i != MAX_ROOT;
  }

  lemma DivisorInTurn(n: nat, i: nat)
    requires i >= 5 && i % 6 == 5 && i * i < n && n % 2 != 0 && NoDivisorBelow(n, i)
    requires n % i == 0 || n % (i + 2) == 0
    ensures !SaidPrime(n)
  {
    MulMono(5, i, i);
    if n % i == 0 {
      FoundDivisor(n, i);
    } else {
      DivMod(i, 6);
      MultipleMod(3 * (i / 6) + 3, 2);
      if n % (i + 1) == 0 {
        DividesTrans(2, i + 1, n);
      }
      FoundDivisor(n, i + 2);
    }
  }

  // ----- where it is wrong -----

  /** It never misses a prime, and apart from 0 and 1 its mistakes are exactly those squares. */
  lemma MistakenExactly(n: nat)
    ensures Prime(n) ==> SaidPrime(n)
    ensures SaidPrime(n) && !Prime(n) <==> n < 2 || exists p: nat :: PrimeSquare(p, n)
  {
    if p: nat :| PrimeSquare(p, n) {
      SquareIsComposite(p);
    }
    assert n in {2, 3} ==> Prime(n);
  }

  lemma SquareIsComposite(p: nat)
    requires p >= 2
    ensures !Prime(p * p)
  {
    MultipleMod(p, p);
    MulMono(2, p, p);
  }

  /** The least of them. */
  lemma TwentyFiveIsSaidPrime()
    ensures SaidPrime(25) && !Prime(25)
    ensures forall n: nat | 2 <= n < 25 :: SaidPrime(n) ==> Prime(n)
  {
    assert PrimeSquare(5, 25);
    SquareIsComposite(5);
    forall n: nat | 2 <= n < 25 && SaidPrime(n) ensures Prime(n) {
      if p: nat :| PrimeSquare(p, n) {
        SquareMono(5, p);
      }
    }
  }

  // ----- the adjusted quotient -----

  /** The search moves away from quotients that trial division calls prime. */
  ghost function Adjusted(q: nat, dec: nat): nat {
    if SaidPrime(q) then q + 1
    else if dec > 5 && !SaidPrime(q + 1) then q + 1
    else q
  }

  /** From 3 on, the adjusted quotient is composite - also when trial division was wrong. */
  lemma AdjustedIsComposite(q: nat, dec: nat)
    requires q >= 3
    ensures var z := Adjusted(q, dec); q <= z <= q + 1 && z >= 4 && !Prime(z)
  {
    if SaidPrime(q) {
      SaidPrimeIsOdd(q);
      assert (q + 1) % 2 == 0;
    }
  }

  lemma SaidPrimeIsOdd(q: nat)
    requires q >= 3 && SaidPrime(q)
    ensures q % 2 == 1
  {
    if p: nat :| PrimeSquare(p, q) {
      var k := p / 2;
      assert p == 2 * k + 1;
      assert q == 2 * (2 * k * k + 2 * k) + 1;
    }
  }
}

/** The baud-rate search of uart.c: choose a bit width and a divider so that
    baud * (div + 1) * (bwpc + 1) comes as near the system clock as the hardware allows. */
module Uart {
  import opened Arith
  import opened Primes

  // ----- one-decimal quotients -----

  function Tenths(z: nat, m: nat): (t: nat)
    requires m > 0
  {
    10 * z / m
  }

  function Digit(z: nat, m: nat): nat
    requires m > 0
  {
    Tenths(z, m) % 10
  }

  function Whole(z: nat, m: nat): nat
    requires m > 0
  {
    Tenths(z, m) / 10
  }

  /** Ten times a remainder is split into the digit and what the digit drops. */
  lemma RestDigit(r: nat, m: nat)
    requires m > 0 && r < m
    ensures 0 <= 10 * r / m < 10 && (10 * r / m < 5 <==> 2 * r < m)
  {
    var e := 10 * r / m;
    DivMod(10 * r, m);
    if e >= 10 {
      MulMono(10, e, m);
    } else if e >= 5 {
      MulMono(5, e, m);
    } else {
      MulMono(e, 4, m);
      if e < 0 {
        MulMono(e, -1, m);
      }
    }
  }

  /** Whole is the true quotient and Digit its first decimal: below 5 exactly when the rest is below half of m. */
  lemma DigitFacts(z: nat, m: nat)
    requires m > 0
    ensures Whole(z, m) == z / m && Digit(z, m) == 10 * (z % m) / m
    ensures Digit(z, m) < 5 <==> 2 * (z % m) < m
  {
    var q, r := z / m, z % m;
    DivMod(z, m);
    RestDigit(r, m);
    var e := 10 * r / m;
    DivMod(10 * r, m);
    assert (10 * q + e) * m == 10 * (q * m) + e * m;
    DivUnique(10 * z, m, 10 * q + e);
  }

  // ----- the search -----

  datatype Best = Best(digit: nat, pos: nat)

  function Width(j: nat): nat {
    j + 4
  }

  /** The scan for the least digit: later widths win ties, widths that leave a whole part of 1 are passed over. */
  function MinScan(z: nat, n: nat): Best {
    if n == 0 then Best(0xFFFF_FFFF, 0) else
      var b := MinScan(z, n - 1);
      var m := Width(n - 1);
      if Digit(z, m) <= b.digit && Whole(z, m) != 1 then Best(Digit(z, m), n - 1) else b
  }

  function MaxScan(z: nat, n: nat): Best {
    if n == 0 then Best(0, 0) else
      var b := MaxScan(z, n - 1);
      var m := Width(n - 1);
      if Digit(z, m) >= b.digit then Best(Digit(z, m), n - 1) else b
  }

  /** The bit width minus one and the divider minus one; the subtraction is the C one, modulo 2^32. */
  function Choice(z: nat): (int, int) {
    var lo, hi := MinScan(z, 13).pos, MaxScan(z, 13).pos;
    var dLo, dHi := Digit(z, Width(lo)), Digit(z, Width(hi));
    var below := (lo + 3, (Whole(z, Width(lo)) - 1) % WORD32);
    var above := (hi + 3, Whole(z, Width(hi)));
    if dLo < 5 && dHi >= 5 then (if dLo < 10 - dHi then below else above)
    else if dLo < 5 && dHi < 5 then below
    else above
  }

  lemma {:induction false} MinScanIsLeast(z: nat, n: nat)
    ensures var b := MinScan(z, n);
            && (forall j | 0 <= j < n && Whole(z, Width(j)) != 1 :: b.digit <= Digit(z, Width(j)))
            && (b == Best(0xFFFF_FFFF, 0)
                || (b.pos < n && b.digit == Digit(z, Width(b.pos)) && Whole(z, Width(b.pos)) != 1))
    decreases n
  {
    if n > 0 {
      MinScanIsLeast(z, n - 1);
    }
  }

  lemma {:induction false} MaxScanIsGreatest(z: nat, n: nat)
    ensures var b := MaxScan(z, n);
            && (forall j | 0 <= j < n :: Digit(z, Width(j)) <= b.digit)
            && (n > 0 ==> b.pos < n && b.digit == Digit(z, Width(b.pos)))
    decreases n
  {
    if n > 0 {
      MaxScanIsGreatest(z, n - 1);
    }
  }

  /** Both scans, over all 13 widths. The first or the last width always has a whole part other than 1. */
  lemma Scans(z: nat)
    ensures var lo, hi := MinScan(z, 13), MaxScan(z, 13);
            && lo.pos < 13 && lo.digit == Digit(z, Width(lo.pos)) && Whole(z, Width(lo.pos)) != 1
            && hi.pos < 13 && hi.digit == Digit(z, Width(hi.pos))
            && (forall j | 0 <= j < 13 && Whole(z, Width(j)) != 1 :: lo.digit <= Digit(z, Width(j)))
            && (forall j | 0 <= j < 13 :: Digit(z, Width(j)) <= hi.digit)
  {
    MinScanIsLeast(z, 13);
    MaxScanIsGreatest(z, 13);
    DigitFacts(z, Width(0));
    DigitFacts(z, Width(12));
    if Whole(z, Width(0)) != 1 {
      assert MinScan(z, 13).digit <= Digit(z, Width(0));
    } else {
      assert MinScan(z, 13).digit <= Digit(z, Width(12));
    }
  }

  // ----- how good the choice is, in whole quotients -----

  /** div + 1 is z divided by the chosen width, rounded to the nearest whole number, halves up; and div did not wrap. */
  ghost predicate GoodFit(z: nat, bwpc: int, div: int) {
    && 3 <= bwpc <= 15 && 0 <= div && div <= z / 4
    && 2 * ((div + 1) * (bwpc + 1)) <= 2 * z + (bwpc + 1) && 2 * z < 2 * ((div + 1) * (bwpc + 1)) + (bwpc + 1)
  }

  lemma BelowFits(z: nat, m: nat)
    requires 4 <= m <= 16 && Digit(z, m) < 5 && Whole(z, m) >= 1
    ensures GoodFit(z, m - 1, Whole(z, m) - 1)
  {
    DigitFacts(z, m);
    DivMod(z, m);
    QuotientShrinks(z, m);
  }

  lemma AboveFits(z: nat, m: nat)
    requires 4 <= m <= 16 && Digit(z, m) >= 5
    ensures GoodFit(z, m - 1, Whole(z, m))
  {
    DigitFacts(z, m);
    DivMod(z, m);
    QuotientShrinks(z, m);
    assert (z / m + 1) * m == z / m * m + m;
  }

  lemma QuotientShrinks(z: nat, m: nat)
    requires m >= 4
    ensures 0 <= z / m <= z / 4
  {
    DivMod(z, m);
    DivMod(z, 4);
    var q := z / m;
    if q < 0 {
      MulMono(q, -1, m);
    } else {
      MulMono(4, m, q);
    }
  }

  /** For small z no width has a whole part of 2 or more, and the digit of width z + 1 is at least 8. */
  lemma SmallQuotient(z: nat)
    requires 1 <= z < 8
    ensures forall j | 0 <= j < 13 :: Whole(z, Width(j)) <= 1
    ensures forall j | 0 <= j < 13 && Whole(z, Width(j)) == 0 :: Digit(z, Width(j)) >= 10 * z / 16
    ensures z >= 4 ==> Digit(z, z + 1) == 8
    ensures z < 4 ==> forall j | 0 <= j < 13 :: Whole(z, Width(j)) == 0 && Digit(z, Width(j)) <= 10 * z / 4
  {
    forall j | 0 <= j < 13
      ensures Whole(z, Width(j)) <= 1
      ensures Whole(z, Width(j)) == 0 ==> 10 * z / 16 <= Digit(z, Width(j)) <= 10 * z / 4
      ensures z < 4 ==> Whole(z, Width(j)) == 0
    {
      SmallQuotientAt(z, Width(j));
    }
    assert z in {1, 2, 3, 4, 5, 6, 7};
  }

  lemma SmallQuotientAt(z: nat, m: nat)
    requires 1 <= z < 8 && 4 <= m <= 16
    ensures Whole(z, m) <= 1
    ensures Whole(z, m) == 0 ==> 10 * z / 16 <= Digit(z, m) <= 10 * z / 4
    ensures z < 4 ==> Whole(z, m) == 0
  {
    var t := Tenths(z, m);
    DivMod(10 * z, m);
    DivMod(10 * z, 4);
    DivMod(10 * z, 16);
    if t > 10 * z / 4 {
      MulMono(4, m, t);
    }
    if t < 10 * z / 16 {
      MulMono(m, 16, t + 1);
    }
  }

  /** The choice fits whenever the adjusted quotient is at least 4. */
  lemma ChoiceFits(z: nat)
    requires 4 <= z < WORD32
    ensures GoodFit(z, Choice(z).0, Choice(z).1)
  {
    hide Digit, MinScan, MaxScan, GoodFit, Whole;
    Scans(z);
    var lo, hi := MinScan(z, 13), MaxScan(z, 13);
    if hi.digit >= 5 {
      AboveFits(z, Width(hi.pos));
    }
    if lo.digit < 5 {
      if Whole(z, Width(lo.pos)) == 0 {
        ZeroWholeIsSmall(z, lo.pos);
        SmallQuotient(z);
        assert Digit(z, Width(z - 3)) == 8;
        assert lo.digit >= 10 * z / 16 >= 2;
      } else {
        BelowFits(z, Width(lo.pos));
        WholeIsWord(z, Width(lo.pos));
      }
    }
  }

  lemma WholeIsWord(z: nat, m: nat)
    requires z < WORD32 && 4 <= m && Whole(z, m) > 0
    ensures (Whole(z, m) - 1) % WORD32 == Whole(z, m) - 1
  {
    DigitFacts(z, m);
    QuotientShrinks(z, m);
  }

  /** A whole part of 0 with a digit below 5 needs z below half the width. */
  lemma ZeroWholeIsSmall(z: nat, j: nat)
    requires j < 13 && Whole(z, Width(j)) == 0 && Digit(z, Width(j)) < 5
    ensures z < 8
  {
    DigitFacts(z, Width(j));
    DivMod(z, Width(j));
  }

  /** Below 4 the search picks a width with whole part 0 from below, and the divider wraps. */
  lemma ChoiceWraps(z: nat)
    requires 1 <= z < 4
    ensures Choice(z).1 == WORD32 - 1 && 3 <= Choice(z).0 <= 15
  {
    hide Digit, MinScan, MaxScan;
    Scans(z);
    SmallQuotient(z);
    SmallQuotientAt(z, 16);
    assert Digit(z, 16) <= 1 by {
      DigitFacts(z, 16);
    }
    assert MinScan(z, 13).digit <= Digit(z, Width(12));
    assert MaxScan(z, 13).digit <= 10 * z / 4;
  }

  /** From 16 on the divider field is never 0. */
  lemma DividerNotZero(z: nat)
    requires 16 <= z < WORD32
    ensures Choice(z).1 >= 1
  {
    hide Digit, MinScan, MaxScan;
    Scans(z);
    var lo, hi := MinScan(z, 13), MaxScan(z, 13);
    WholeAtLeast(z, Width(lo.pos), 1);
    WholeAtLeast(z, Width(hi.pos), 1);
    QuotientShrinks(z, Width(lo.pos));
    DigitFacts(z, Width(lo.pos));
  }

  lemma WholeAtLeast(z: nat, m: nat, k: nat)
    requires 4 <= m <= 16 && z >= 16 * k
    ensures Whole(z, m) >= k
  {
    DigitFacts(z, m);
    MulMono(m, 16, k);
    DivAtLeast(z, m, k);
  }

  // ----- optimality -----

  /** How far a quotient with this first decimal is from a whole number, in tenths. */
  function Dist(digit: nat): int {
    if digit < 5 then digit else 10 - digit
  }

  /** The chosen width is nearest to a whole division among all widths whose whole part is not 1 - from 32 on,
      among all 13. */
  lemma ChoiceIsNearest(z: nat)
    ensures var m := Choice(z).0 + 1;
            && 4 <= m <= 16
            && (forall j | 0 <= j < 13 && Whole(z, Width(j)) != 1 :: Dist(Digit(z, m)) <= Dist(Digit(z, Width(j))))
            && (z >= 32 ==> forall j | 0 <= j < 13 :: Dist(Digit(z, m)) <= Dist(Digit(z, Width(j))))
  {
    hide Digit, MinScan, MaxScan, Whole;
    Scans(z);
    if z >= 32 {
      forall j | 0 <= j < 13 ensures Whole(z, Width(j)) != 1 {
        WholeAtLeast(z, Width(j), 2);
      }
    }
  }

  lemma {:induction false} MinScanIsLast(z: nat, n: nat)
    ensures var b := MinScan(z, n);
            && (forall j | b.pos < j < n && Whole(z, Width(j)) != 1 :: Digit(z, Width(j)) > b.digit)
            && (b == Best(0xFFFF_FFFF, 0) ==> forall j | 0 <= j < n :: Whole(z, Width(j)) == 1)
    decreases n
  {
    if n > 0 {
      MinScanIsLast(z, n - 1);
      MinScanIsLeast(z, n - 1);
      assert Digit(z, Width(n - 1)) < 10;
      hide Digit, Whole;
    }
  }

  lemma {:induction false} MaxScanIsLast(z: nat, n: nat)
    ensures var b := MaxScan(z, n); forall j | b.pos < j < n :: Digit(z, Width(j)) < b.digit
    decreases n
  {
    if n > 0 {
      hide Digit, Whole;
      MaxScanIsLast(z, n - 1);
    }
  }

  /** Width m leaves z just above a whole number, not 1: it is nearest among such widths, the widest of those, and
      strictly nearer than every width that leaves z just below one. */
  ghost predicate BestBelow(z: nat, m: nat)
    requires m > 0
  {
    && Digit(z, m) < 5 && Whole(z, m) != 1
    && (forall j | 0 <= j < 13 && Whole(z, Width(j)) != 1 ::
          Digit(z, m) <= Digit(z, Width(j)) && (m < Width(j) ==> Digit(z, m) < Digit(z, Width(j))))
    && (forall j | 0 <= j < 13 && Digit(z, Width(j)) >= 5 :: Digit(z, m) < 10 - Digit(z, Width(j)))
  }

  /** Width m leaves z just below a whole number: it is nearest among all widths, the widest of those, and as near as
      every width that leaves z just above one, not 1. */
  ghost predicate BestAbove(z: nat, m: nat)
    requires m > 0
  {
    && Digit(z, m) >= 5
    && (forall j | 0 <= j < 13 ::
          Digit(z, m) >= Digit(z, Width(j)) && (m < Width(j) ==> Digit(z, m) > Digit(z, Width(j))))
    && (forall j | 0 <= j < 13 && Whole(z, Width(j)) != 1 :: 10 - Digit(z, m) <= Dist(Digit(z, Width(j))))
  }

  /** Which width is chosen, ties included. */
  lemma ChosenExactly(z: nat, m: nat)
    requires 4 <= m <= 16
    ensures m == Choice(z).0 + 1 <==> BestBelow(z, m) || BestAbove(z, m)
  {
    hide BestBelow, BestAbove, Choice;
    ChoiceIsBest(z);
    if BestBelow(z, m) || BestAbove(z, m) {
      BestIsUnique(z, m, Choice(z).0 + 1);
    }
  }

  lemma ChoiceIsBest(z: nat)
    ensures var m := Choice(z).0 + 1; 4 <= m <= 16 && (BestBelow(z, m) || BestAbove(z, m))
  {
    hide Digit, MinScan, MaxScan, Whole;
    Scans(z);
    MinScanIsLast(z, 13);
    MaxScanIsLast(z, 13);
  }

  lemma BestIsUnique(z: nat, m: nat, m': nat)
    requires 4 <= m <= 16 && 4 <= m' <= 16
    requires (BestBelow(z, m) || BestAbove(z, m)) && (BestBelow(z, m') || BestAbove(z, m'))
    ensures m == m'
  {
    hide Digit, Whole;
    assert Width(m - 4) == m && Width(m' - 4) == m';
  }

  // ----- the baud rate -----

  /** The first decimal of sysclk / baud. */
  function Decimal(baud: nat, sysclk: nat): nat
    requires baud > 0
  {
    Digit(sysclk, baud)
  }

  /** The quotient the widths are tried on. */
  ghost function SearchQuotient(baud: nat, sysclk: nat): nat
    requires baud > 0
  {
    Adjusted(sysclk / baud, Decimal(baud, sysclk))
  }

  /** Ten times a remainder reaches a decimal of 6 exactly at six tenths. */
  lemma DigitSix(r: nat, m: nat)
    requires m > 0 && r < m
    ensures 10 * r / m > 5 <==> 10 * r >= 6 * m
  {
    var e := 10 * r / m;
    DivMod(10 * r, m);
    if e > 5 {
      MulMono(6, e, m);
    } else {
      MulMono(e, 5, m);
    }
  }

  /** What the search starts from, in terms of the clock: one above a quotient called prime; else the quotient, if the
      number above it is called prime; else the clock divided by the baud rate, rounded down below six tenths and up
      from there on. */
  ghost predicate Rounds(baud: nat, sysclk: nat, z: int)
    requires baud > 0
  {
    var q := sysclk / baud;
    && q >= 0
    && (SaidPrime(q) ==> z == q + 1)
    && (!SaidPrime(q) && SaidPrime(q + 1) ==> z == q)
    && (!SaidPrime(q) && !SaidPrime(q + 1) ==> -6 * baud < 10 * (z * baud - sysclk) <= 4 * baud)
  }

  lemma SearchQuotientRounds(baud: nat, sysclk: nat)
    requires baud > 0
    ensures Rounds(baud, sysclk, SearchQuotient(baud, sysclk))
  {
    hide SaidPrime;
    var q, r := sysclk / baud, sysclk % baud;
    QuotientNotAbove(baud, sysclk);
    DivMod(sysclk, baud);
    DigitFacts(sysclk, baud);
    DigitSix(r, baud);
    assert (q + 1) * baud == q * baud + baud;
  }

  /** The promise of the search: the baud rate times the divisors misses the clock by at most half a width and one. */
  ghost predicate Accurate(baud: nat, sysclk: nat, bwpc: int, div: int) {
    var steps := (div + 1) * (bwpc + 1);
    3 <= bwpc <= 15 && -(baud * (1 + (bwpc + 1) / 2)) <= baud * steps - sysclk <= baud * (1 + (bwpc + 1) / 2)
  }

  lemma FitIsAccurate(baud: nat, sysclk: nat, z: nat, bwpc: int, div: int)
    requires baud > 0 && sysclk / baud <= z <= sysclk / baud + 1 && GoodFit(z, bwpc, div)
    ensures Accurate(baud, sysclk, bwpc, div)
  {
    FitWithinHalf(z, bwpc, div);
    hide GoodFit;
    DivMod(sysclk, baud);
    StepsNearClock(baud, sysclk, sysclk / baud, (div + 1) * (bwpc + 1), (bwpc + 1) / 2);
  }

  lemma StepsNearClock(b: int, s: int, q: int, n: int, h: int)
    requires 0 <= s - q * b < b && -h <= n - q <= 1 + h
    ensures -(b * (1 + h)) <= b * n - s <= b * (1 + h)
  {
    Scaled(b, n - q, h, s - q * b);
    assert (n - q) * b == b * n - q * b;
  }

  lemma FitWithinHalf(z: nat, bwpc: int, div: int)
    requires GoodFit(z, bwpc, div)
    ensures 3 <= bwpc <= 15 && -((bwpc + 1) / 2) <= (div + 1) * (bwpc + 1) - z <= (bwpc + 1) / 2
  {
  }

  lemma Scaled(b: int, x: int, h: int, e: int)
    requires 0 <= e < b && -h <= x <= 1 + h
    ensures -(b * (1 + h)) <= x * b - e <= b * (1 + h)
  {
    MulMono(-h, x, b);
    MulMono(x, 1 + h, b);
    assert (1 + h) * b == b * (1 + h) == b + h * b && -h * b == -(h * b);
  }

  lemma WrapIsInaccurate(baud: nat, sysclk: nat, bwpc: int)
    requires baud > 0 && sysclk / baud < 3
    ensures !Accurate(baud, sysclk, bwpc, WORD32 - 1)
  {
    if 3 <= bwpc <= 15 {
      DivMod(sysclk, baud);
      TooManySteps(baud, sysclk, sysclk / baud, WORD32 * (bwpc + 1), (bwpc + 1) / 2);
    }
  }

  /** The search keeps its promise exactly for clocks of at least three times the baud rate; below that the divider
      wraps to 2^32 - 1. */
  lemma AccurateExactly(baud: nat, sysclk: nat)
    requires baud > 0 && 10 * sysclk < WORD32
    ensures var (bwpc, div) := Choice(SearchQuotient(baud, sysclk));
            && (Accurate(baud, sysclk, bwpc, div) <==> sysclk / baud >= 3)
            && (sysclk / baud < 3 ==> div == WORD32 - 1)
            && (sysclk / baud >= 16 ==> div >= 1)
  {
    var q, z := sysclk / baud, SearchQuotient(baud, sysclk);
    QuotientNotAbove(baud, sysclk);
    if q >= 3 {
      AdjustedIsComposite(q, Decimal(baud, sysclk));
      ChoiceFits(z);
      FitIsAccurate(baud, sysclk, z, Choice(z).0, Choice(z).1);
      if q >= 16 {
        DividerNotZero(z);
      }
    } else {
      ChoiceWraps(z);
      WrapIsInaccurate(baud, sysclk, Choice(z).0);
    }
  }

  lemma QuotientNotAbove(baud: nat, sysclk: nat)
    requires baud > 0
    ensures 0 <= sysclk / baud <= sysclk
  {
    DivMod(sysclk, baud);
    var q := sysclk / baud;
    if q < 0 {
      MulMono(q, -1, baud);
    } else {
      MulMono(1, baud, q);
    }
  }

  // ----- the register file -----

  /** The divider occupies bits 0..14 of a 16-bit register; bit 15 enables it. */
  function ClkDivReg(div: nat): nat {
    div % 0x8000 + 0x8000
  }

  function DividerOf(reg: nat): nat {
    reg % 0x8000
  }

  /** Whether the divider fits its field, in terms of the adjusted quotient and the width chosen for it: up to a
      quotient of 2^17 it does for every width, from 524296 on for none. */
  lemma DividerFitsExactly(z: nat)
    requires 4 <= z < WORD32
    ensures var (bwpc, div) := Choice(z);
            && div >= 0 && (div < 0x8000 <==> 2 * z < 0x1_0001 * (bwpc + 1))
            && (z <= 0x2_0000 ==> div < 0x8000)
            && (z >= 524296 ==> div >= 0x8000)
  {
    hide Choice;
    ChoiceFits(z);
    var (bwpc, div) := Choice(z);
    if div < 0x8000 {
      MulMono(div + 1, 0x8000, bwpc + 1);
    } else {
      MulMono(0x8001, div + 1, bwpc + 1);
    }
  }

  /** A divider cut to its 15 bits is far too small. */
  lemma CutDividerIsInaccurate(baud: nat, sysclk: nat, bwpc: int, div: int)
    requires baud > 0 && GoodFit(SearchQuotient(baud, sysclk), bwpc, div) && div >= 0x8000
    requires SearchQuotient(baud, sysclk) <= sysclk / baud + 1
    ensures !Accurate(baud, sysclk, bwpc, div % 0x8000)
  {
    CutIsShort(SearchQuotient(baud, sysclk), bwpc, div);
    TooFewSteps(baud, sysclk, bwpc, div % 0x8000);
  }

  lemma CutIsShort(z: nat, bwpc: int, div: int)
    requires GoodFit(z, bwpc, div) && div >= 0x8000
    ensures z - 1 - (div % 0x8000 + 1) * (bwpc + 1) >= 2 + (bwpc + 1) / 2
  {
    var m, k, r := bwpc + 1, div / 0x8000, div % 0x8000;
    assert div == k * 0x8000 + r && k >= 1;
    assert (div + 1) * m == (r + 1) * m + k * 0x8000 * m;
    MulMono(0x8000, k * 0x8000, m);
  }

  lemma TooFewSteps(baud: nat, sysclk: nat, bwpc: int, div: int)
    requires baud > 0 && bwpc >= 3 && sysclk / baud - (div + 1) * (bwpc + 1) >= 2 + (bwpc + 1) / 2
    ensures !Accurate(baud, sysclk, bwpc, div)
  {
    var q, steps, h := sysclk / baud, (div + 1) * (bwpc + 1), (bwpc + 1) / 2;
    DivMod(sysclk, baud);
    MulMono(2 + h, q - steps, baud);
    assert (q - steps) * baud == q * baud - baud * steps;
    assert (2 + h) * baud == baud * (1 + h) + baud;
  }

  /** The smallest quotients leave the largest divider in the field, which is far too large. */
  lemma FullDividerIsInaccurate(baud: nat, sysclk: nat, bwpc: int)
    requires baud > 0 && sysclk / baud < 3
    ensures !Accurate(baud, sysclk, bwpc, 0x7FFF)
  {
    if 3 <= bwpc <= 15 {
      DivMod(sysclk, baud);
      TooManySteps(baud, sysclk, sysclk / baud, 0x8000 * (bwpc + 1), (bwpc + 1) / 2);
    }
  }

  lemma TooManySteps(b: int, s: int, q: int, n: int, h: int)
    requires b > 0 && q <= 2 && s - q * b < b && n >= 5 + h
    ensures b * n - s > b * (1 + h)
  {
    MulMono(q, 2, b);
    MulMono(5 + h, n, b);
    assert (5 + h) * b == b * (1 + h) + 4 * b;
  }

  /** What the hardware sees: width and divider as the registers hold them meet the error bound exactly if the clock is
      at least three times the baud rate and the divider fits its field. */
  lemma RegistersAccurateExactly(baud: nat, sysclk: nat)
    requires baud > 0 && 10 * sysclk < WORD32
    ensures var (bwpc, div) := Choice(SearchQuotient(baud, sysclk));
            && 3 <= bwpc <= 15 && div >= 0
            && (Accurate(baud, sysclk, bwpc, DividerOf(ClkDivReg(div)))
                <==> sysclk / baud >= 3 && 2 * SearchQuotient(baud, sysclk) < 0x1_0001 * (bwpc + 1))
            && (sysclk / baud >= 3 ==> (div < 0x8000 <==> 2 * SearchQuotient(baud, sysclk) < 0x1_0001 * (bwpc + 1)))
            && (sysclk / baud < 3 ==> div >= 0x8000)
  {
    hide Choice, Accurate, Adjusted, Decimal, GoodFit, ClkDivReg, DividerOf;
    var z := SearchQuotient(baud, sysclk);
    var (bwpc, div) := Choice(z);
    AccurateExactly(baud, sysclk);
    ChoiceIsNearest(z);
    if sysclk / baud >= 3 {
      AdjustedIsComposite(sysclk / baud, Decimal(baud, sysclk));
      QuotientNotAbove(baud, sysclk);
      ChoiceFits(z);
      DividerFitsExactly(z);
      FieldOf(div);
      if div >= 0x8000 {
        CutDividerIsInaccurate(baud, sysclk, bwpc, div);
      }
    } else {
      FieldOf(WORD32 - 1);
      FullDividerIsInaccurate(baud, sysclk, bwpc);
    }
  }

  lemma FieldOf(div: nat)
    ensures DividerOf(ClkDivReg(div)) == div % 0x8000
  {
  }

  /** A failing input: at 48 MHz and 110 baud the divider 109090 is cut to 10786. */
  lemma SlowBaudIsCut()
    ensures SearchQuotient(110, 48_000_000) == 436364 && Choice(436364) == (3, 109090)
    ensures DividerOf(ClkDivReg(109090)) == 10786 && !Accurate(110, 48_000_000, 3, 10786)
  {
    hide Choice, SearchQuotient, Accurate;
    SlowBaudQuotient();
    SlowBaudChoice();
    RegistersAccurateExactly(110, 48_000_000);
    FieldOf(109090);
  }

  lemma SlowBaudQuotient()
    ensures SearchQuotient(110, 48_000_000) == 436364
  {
    assert 48_000_000 / 110 == 436363 && Decimal(110, 48_000_000) == 6;
    if SaidPrime(436364) {
      SaidPrimeIsOdd(436364);
    }
  }

  lemma SlowBaudChoice()
    ensures Choice(436364) == (3, 109090)
  {
    SlowBaudScans();
    SlowBaudDigits();
    hide Digit, Whole, MinScan, MaxScan;
  }

  lemma SlowBaudScans()
    ensures MinScan(436364, 13) == Best(0, 0) && MaxScan(436364, 13) == Best(9, 11)
  {
    var z := 436364;
    SlowBaudDigits();
    hide Digit, Whole;
    assert MinScan(z, 1) == MinScan(z, 4) == MinScan(z, 7) == MinScan(z, 10) == Best(0, 0);
    assert MaxScan(z, 1) == Best(0, 0) && MaxScan(z, 4) == Best(8, 1) && MaxScan(z, 7) == MaxScan(z, 10) == Best(8, 5);
  }

  lemma SlowBaudDigits()
    ensures var z := 436364;
            && Digit(z, 4) == 0 && Digit(z, 5) == 8 && Digit(z, 6) == 3 && Digit(z, 7) == 7 && Digit(z, 8) == 5
            && Digit(z, 9) == 8 && Digit(z, 10) == 4 && Digit(z, 11) == 4 && Digit(z, 12) == 6 && Digit(z, 13) == 4
            && Digit(z, 14) == 8 && Digit(z, 15) == 9 && Digit(z, 16) == 7
            && Whole(z, 4) == 109091 && forall j | 0 <= j < 13 :: Whole(z, Width(j)) > 1
  {
    forall j | 0 <= j < 13 ensures Whole(436364, Width(j)) > 1 {
      WholeAtLeast(436364, Width(j), 2);
    }
  }

  class Uart {
    var gBwpc: nat
    var gUartDiv: nat
    var regCtrl0: nat
    var regClkDiv: nat
    var regRxTimeout0: nat

    constructor ()
    {
      gBwpc, gUartDiv, regCtrl0, regClkDiv, regRxTimeout0 := 0, 0, 0, 0, 0;
    }

    method GetBetterBwpc(baud: u32, sysclk: u32)
      requires baud > 0 && 10 * sysclk < WORD32
      modifies this`gBwpc, this`gUartDiv
      ensures (gBwpc, gUartDiv) == Choice(SearchQuotient(baud, sysclk))
    {
      var primeInt := AdjustQuotient(baud, sysclk);
      hide Tenths, Digit, Whole;
      var dIntdec, dInt, dDec := new nat[13], new nat[13], new nat[13];
      Tabulate(primeInt, dIntdec, dInt, dDec);
      var positionMin, positionMax := 0, 0;
      var min, max := 0xFFFF_FFFF, 0;
      for j := 0 to 13
        invariant MinScan(primeInt, j) == Best(min, positionMin)
        invariant MaxScan(primeInt, j) == Best(max, positionMax)
      {
        if dDec[j] <= min && dInt[j] != 1 {
          min, positionMin := dDec[j], j;
        }
        if dDec[j] >= max {
          max, positionMax := dDec[j], j;
        }
      }
      Scans(primeInt);
      if dDec[positionMin] < 5 && dDec[positionMax] >= 5 {
        if dDec[positionMin] < 10 - dDec[positionMax] {
          gBwpc, gUartDiv := positionMin + 3, (dInt[positionMin] - 1) % WORD32;
        } else {
          gBwpc, gUartDiv := positionMax + 3, dInt[positionMax];
        }
      } else if dDec[positionMin] < 5 && dDec[positionMax] < 5 {
        gBwpc, gUartDiv := positionMin + 3, (dInt[positionMin] - 1) % WORD32;
      } else {
        gBwpc, gUartDiv := positionMax + 3, dInt[positionMax];
      }
    }

    /** The loop that fills the three tables, one entry per bit width. */
    static method Tabulate(primeInt: u32, dIntdec: array<nat>, dInt: array<nat>, dDec: array<nat>)
      requires 10 * primeInt < WORD32 && dIntdec.Length == dInt.Length == dDec.Length == 13
      requires dIntdec != dInt && dIntdec != dDec && dInt != dDec
      modifies dIntdec, dInt, dDec
      ensures forall j | 0 <= j < 13 ::
        && dIntdec[j] == Tenths(primeInt, Width(j))
        && dDec[j] == Digit(primeInt, Width(j)) && dInt[j] == Whole(primeInt, Width(j))
    {
      hide Tenths, Digit, Whole;
      for i := 3 to 16
        invariant forall j | 0 <= j < i - 3 ::
          && dIntdec[j] == Tenths(primeInt, Width(j))
          && dDec[j] == Digit(primeInt, Width(j)) && dInt[j] == Whole(primeInt, Width(j))
      {
        var t := 10 * primeInt % WORD32 / (i + 1);
        TableEntry(primeInt, i, t);
        dIntdec[i - 3] := t;
        dDec[i - 3] := t - 10 * (t / 10);
        dInt[i - 3] := t / 10;
      }
    }

    /** The first half of the search: the quotient, moved off values that trial division calls prime. */
    method AdjustQuotient(baud: u32, sysclk: u32) returns (primeInt: u32)
      requires baud > 0 && 10 * sysclk < WORD32
      ensures primeInt == SearchQuotient(baud, sysclk) && 10 * primeInt < WORD32
      ensures Rounds(baud, sysclk, primeInt)
    {
      hide SaidPrime, Rounds, Decimal;
      QuotientAndDecimal(baud, sysclk);
      SearchQuotientRounds(baud, sysclk);
      primeInt := sysclk / baud;
      var primeDec := 10 * sysclk % WORD32 / baud - 10 * primeInt;
      TenfoldFits(baud, sysclk);
      var said := IsPrime(primeInt);
      if said == 1 {
        primeInt := primeInt + 1;
      } else if primeDec > 5 {
        primeInt := primeInt + 1;
        said := IsPrime(primeInt);
        if said == 1 {
          primeInt := primeInt - 1;
        }
      }
    }

    /** What the baud-rate generator sees, read back from the registers alone. */
    method UartInitBaudrate(baud: u32, sysclk: u32)
      requires baud > 0 && 10 * sysclk < WORD32
      modifies this
      ensures (gBwpc, gUartDiv) == Choice(SearchQuotient(baud, sysclk))
      ensures regCtrl0 == gBwpc && regRxTimeout0 == (gBwpc + 1) * 12 < 256
      ensures regClkDiv < 0x1_0000 && regClkDiv / 0x8000 == 1 && DividerOf(regClkDiv) == gUartDiv % 0x8000
      ensures Accurate(baud, sysclk, regCtrl0, DividerOf(regClkDiv))
              <==> 3 <= sysclk / baud && gUartDiv < 0x8000
      ensures Accurate(baud, sysclk, regCtrl0, DividerOf(regClkDiv))
              <==> 3 <= sysclk / baud && 2 * SearchQuotient(baud, sysclk) < 0x1_0001 * (regCtrl0 + 1)
    {
      hide Choice, SearchQuotient, Accurate;
      GetBetterBwpc(baud, sysclk);
      RegistersAccurateExactly(baud, sysclk);
      regCtrl0 := gBwpc;
      regClkDiv := ClkDivReg(gUartDiv);
      regRxTimeout0 := (gBwpc + 1) * 12 % 256;
    }
  }

  lemma QuotientAndDecimal(baud: u32, sysclk: u32)
    requires baud > 0 && 10 * sysclk < WORD32
    ensures 0 <= sysclk / baud <= sysclk
    ensures 10 * sysclk % WORD32 / baud - 10 * (sysclk / baud) == Decimal(baud, sysclk)
  {
    QuotientNotAbove(baud, sysclk);
    DigitFacts(sysclk, baud);
    DigitIsRest(sysclk, baud);
    hide Digit, Whole;
  }

  lemma DigitIsRest(z: nat, m: nat)
    requires m > 0
    ensures Digit(z, m) == 10 * z / m - 10 * Whole(z, m)
    ensures 10 * z < WORD32 ==> 10 * z % WORD32 == 10 * z
  {
    hide Tenths;
    assert Tenths(z, m) == 10 * z / m by {
      TenthsForm(z, m);
    }
  }

  lemma TenthsForm(z: nat, m: nat)
    requires m > 0
    ensures Tenths(z, m) == 10 * z / m
  {
  }

  lemma TableEntry(z: nat, i: nat, t: nat)
    requires 10 * z < WORD32 && i >= 3 && t == 10 * z % WORD32 / (i + 1)
    ensures t == Tenths(z, Width(i - 3))
    ensures t - 10 * (t / 10) == Digit(z, Width(i - 3)) && t / 10 == Whole(z, Width(i - 3))
  {
  }

  /** Ten times the adjusted quotient still fits 32 bits.  Only a baud rate of 1 comes close. */
  lemma TenfoldFits(baud: nat, sysclk: nat)
    requires baud > 0 && 10 * sysclk < WORD32
    ensures 10 * SearchQuotient(baud, sysclk) < WORD32
  {
    hide SaidPrime;
    var q := sysclk / baud;
    DivMod(sysclk, baud);
    if baud >= 2 {
      if q >= 0 {
        MulMono(2, baud, q);
      }
      hide Digit;
    } else {
      DigitFacts(sysclk, 1);
      LargestQuotientNotSaidPrime();
    }
  }

  lemma LargestQuotientNotSaidPrime()
    ensures !SaidPrime(429496729)
  {
    assert 429496729 % 19 == 0;
    assert Prime(19);
    if p: nat :| PrimeSquare(p, 429496729) {
      PrimeDividesSquare(19, p);
    }
    assert 429496729 % 19 == 0 && !Prime(429496729);
  }
}

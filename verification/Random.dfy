/** The multiply-with-carry pair behind `rand` in random.c: a modular multiplication in disguise. */
module Random {
  import opened Arith

  // ----- multiply with carry -----

  /** One step with multiplier a: low half times a plus high half, modulo 2^32. */
  function MwcStep(a: nat, x: nat): nat {
    (a * (x % 0x1_0000) + x / 0x1_0000) % WORD32
  }

  function MwcRun(a: nat, x: nat, n: nat): nat {
    if n == 0 then x else MwcStep(a, MwcRun(a, x, n - 1))
  }

  function Pow(a: nat, n: nat): nat {
    if n == 0 then 1 else a * Pow(a, n - 1)
  }

  function Modulus(a: nat): nat
    requires a > 0
  {
    a * 0x1_0000 - 1
  }

  /** The multipliers the proofs cover: any for which no step overflows. */
  predicate Multiplier(a: nat) {
    0 < a && (a + 1) * 0xFFFF < WORD32
  }

  lemma BothMultipliers()
    ensures Multiplier(18000) && Multiplier(36969)
  {
  }

  /** No step overflows, whatever the state. */
  lemma NoOverflow(a: nat, x: u32)
    requires Multiplier(a)
    ensures MwcStep(a, x) == a * (x % 0x1_0000) + x / 0x1_0000 <= (a + 1) * 0xFFFF
  {
    var lo, hi := x % 0x1_0000, x / 0x1_0000;
    MulMono(lo, 0xFFFF, a);
    assert (a + 1) * 0xFFFF == 0xFFFF * a + 0xFFFF;
  }

  /** x and y leave the same rest. */
  ghost predicate Congruent(x: int, y: int, m: nat) {
    m > 0 && (x - y) % m == 0
  }

  /** A step multiplies by a, modulo a * 2^16 - 1. */
  lemma StepMultiplies(a: nat, x: u32)
    requires Multiplier(a)
    ensures Congruent(MwcStep(a, x), a * x, Modulus(a))
  {
    var lo, hi := x % 0x1_0000, x / 0x1_0000;
    NoOverflow(a, x);
    assert a * x == a * (0x1_0000 * hi + lo) == a * 0x1_0000 * hi + a * lo;
    assert MwcStep(a, x) - a * x == -hi * Modulus(a) by {
      assert -hi * Modulus(a) == -hi * (a * 0x1_0000) + hi;
      assert hi * (a * 0x1_0000) == a * 0x1_0000 * hi;
    }
    MultipleMod(-hi, Modulus(a));
  }

  lemma CongruentTrans(x: int, y: int, z: int, m: nat)
    requires Congruent(x, y, m) && Congruent(y, z, m)
    ensures Congruent(x, z, m)
  {
    DivMod(x - y, m);
    DivMod(y - z, m);
    var j, k := (x - y) / m, (y - z) / m;
    assert x - z == (j + k) * m;
    MultipleMod(j + k, m);
  }

  lemma MulAssoc(x: int, y: int, z: int)
    ensures x * (y * z) == x * y * z
  {
  }

  lemma CongruentScale(a: int, x: int, y: int, m: nat)
    requires Congruent(x, y, m)
    ensures Congruent(a * x, a * y, m)
  {
    DivMod(x - y, m);
    var j := (x - y) / m;
    assert a * x - a * y == a * (j * m) == (a * j) * m;
    MultipleMod(a * j, m);
  }

  /** After n calls the state is a^n times the seed. */
  lemma {:induction false} RunMultiplies(a: nat, x: u32, n: nat)
    requires Multiplier(a)
    ensures MwcRun(a, x, n) < WORD32
    ensures Congruent(MwcRun(a, x, n), Pow(a, n) * x, Modulus(a))
    decreases n
  {
    RunInRange(a, x, n);
    assert a > 0 && Modulus(a) > 0;
    hide Congruent, MwcStep, Modulus, Multiplier;
    if n == 0 {
      CongruentRefl(x, Modulus(a));
    } else {
      var y := MwcRun(a, x, n - 1);
      RunMultiplies(a, x, n - 1);
      StepMultiplies(a, y);
      CongruentScale(a, y, Pow(a, n - 1) * x, Modulus(a));
      MulAssoc(a, Pow(a, n - 1), x);
      CongruentTrans(MwcStep(a, y), a * y, Pow(a, n) * x, Modulus(a));
    }
  }

  lemma CongruentRefl(x: int, m: nat)
    requires m > 0
    ensures Congruent(x, x, m)
  {
    MultipleMod(0, m);
  }

  lemma RunInRange(a: nat, x: u32, n: nat)
    ensures MwcRun(a, x, n) < WORD32
  {
  }

  /** Two calls bring any 32-bit seed into [0, m]. */
  lemma SettlesInTwo(a: nat, x: u32)
    requires Multiplier(a)
    ensures MwcRun(a, x, 2) <= Modulus(a)
  {
    NoOverflow(a, x);
    var y: u32 := MwcStep(a, x);
    assert MwcRun(a, x, 1) == y && MwcRun(a, x, 2) == MwcStep(a, y);
    NoOverflow(a, y);
    SecondStep(a, y % 0x1_0000, y / 0x1_0000);
  }

  lemma SecondStep(a: int, lo: int, hi: int)
    requires a > 0 && 0 <= lo <= 0xFFFF && hi * 0x1_0000 + lo <= (a + 1) * 0xFFFF
    ensures a * lo + hi <= a * 0x1_0000 - 1
  {
    if hi < a {
      MulMono(lo, 0xFFFF, a);
    } else {
      assert hi == a && lo <= 0xFFFF - a;
      MulMono(lo, 0xFFFF - a, a);
      MulMono(1, a, a);
      assert (0xFFFF - a) * a == 0xFFFF * a - a * a;
    }
  }

  /** The step's inverse on [0, m]. */
  function MwcBack(a: nat, y: nat): nat
    requires a > 0
  {
    y % a * 0x1_0000 + y / a
  }

  lemma StepStaysIn(a: nat, x: nat)
    requires Multiplier(a) && x <= Modulus(a)
    ensures x < WORD32 && x / 0x1_0000 < a && MwcStep(a, x) <= Modulus(a)
    ensures MwcBack(a, MwcStep(a, x)) == x
  {
    assert a <= 0x1_0000;
    var lo, hi := x % 0x1_0000, x / 0x1_0000;
    NoOverflow(a, x);
    MulMono(lo, 0xFFFF, a);
    DivUnique(a * lo + hi, a, lo);
  }

  lemma BackStaysIn(a: nat, y: nat)
    requires Multiplier(a) && y <= Modulus(a)
    ensures MwcBack(a, y) <= Modulus(a)
    ensures MwcStep(a, MwcBack(a, y)) == y
  {
    DivMod(y, a);
    var lo, hi := y / a, y % a;
    if lo < 0 {
      MulMono(lo, -1, a);
    } else if lo >= 0x1_0000 {
      MulMono(0x1_0000, lo, a);
    }
    assert MwcBack(a, y) == hi * 0x1_0000 + lo;
    assert MwcBack(a, y) % 0x1_0000 == lo && MwcBack(a, y) / 0x1_0000 == hi;
    assert a <= 0x1_0000;
    NoOverflow(a, MwcBack(a, y));
  }

  /** If b and m are coprime and b * x is a multiple of m, so is x. */
  lemma Bezout(b: int, m: nat, u: int, v: int, x: int, k: int)
    requires m > 0 && u * b + v * m == 1 && b * x == m * k
    ensures x % m == 0
  {
    assert x == (u * b + v * m) * x;
    assert (u * b + v * m) * x == u * (b * x) + v * x * m;
    assert u * (m * k) == u * k * m;
    assert x == (u * k + v * x) * m;
    MultipleMod(u * k + v * x, m);
  }

  /** A fixed point has a low half of all zeros or all ones, for any a with u (a - 1) + v (2^16 - 1) = 1. */
  lemma FixedPoints(a: nat, x: nat, u: int, v: int)
    requires Multiplier(a) && x <= Modulus(a) && u * (a - 1) + v * 0xFFFF == 1
    ensures MwcStep(a, x) == x <==> x == 0 || x == Modulus(a)
  {
    StepStaysIn(a, x);
    NoOverflow(a, x);
    var lo, hi := x % 0x1_0000, x / 0x1_0000;
    if MwcStep(a, x) == x {
      assert (a - 1) * lo == 0xFFFF * hi;
      Bezout(a - 1, 0xFFFF, u, v, lo, hi);
      if lo == 0xFFFF {
        assert hi == a - 1;
      }
    } else if x == Modulus(a) {
      TopIsFixed(a);
    }
  }

  lemma TopIsFixed(a: nat)
    requires Multiplier(a)
    ensures MwcStep(a, Modulus(a)) == Modulus(a)
  {
    DivUnique(Modulus(a), 0x1_0000, a - 1);
    StepStaysIn(a, Modulus(a));
    NoOverflow(a, Modulus(a));
  }

  /** For both multipliers of rand, 0 and m are the only fixed points. */
  lemma OnlyFixedPoints(x: nat)
    ensures x <= Modulus(18000) ==> (MwcStep(18000, x) == x <==> x == 0 || x == Modulus(18000))
    ensures x <= Modulus(36969) ==> (MwcStep(36969, x) == x <==> x == 0 || x == Modulus(36969))
  {
    BothMultipliers();
    if x <= Modulus(18000) {
      FixedPoints(18000, x, 18704, -5137);
    }
    if x <= Modulus(36969) {
      FixedPoints(36969, x, -3643, 2055);
    }
  }

  /** States strictly inside (0, m) never reach 0 or m: the generator does not die. */
  lemma {:induction false} NeverDies(a: nat, x: nat, n: nat)
    requires Multiplier(a) && 0 < x < Modulus(a)
    ensures 0 < MwcRun(a, x, n) < Modulus(a)
    decreases n
  {
    if n > 0 {
      hide MwcStep, MwcBack, Multiplier;
      var y := MwcRun(a, x, n - 1);
      NeverDies(a, x, n - 1);
      assert MwcRun(a, x, n) == MwcStep(a, y);
      InsideStaysInside(a, y);
    }
  }

  lemma InsideStaysInside(a: nat, y: nat)
    requires Multiplier(a) && 0 < y < Modulus(a)
    ensures 0 < MwcStep(a, y) < Modulus(a)
  {
    assert MwcStep(a, 0) == 0;
    hide MwcStep, MwcBack, Multiplier, Modulus;
    StepStaysIn(a, y);
    StepStaysIn(a, 0);
    TopIsFixed(a);
    StepStaysIn(a, Modulus(a));
  }

  /** So, from the second call on, a seed that is no multiple of m gives exactly the powers of a times it, mod m. */
  lemma StateIsPower(a: nat, x: u32, n: nat)
    requires Multiplier(a) && n >= 2 && x % Modulus(a) != 0
    ensures MwcRun(a, x, n) == Pow(a, n) * x % Modulus(a) && MwcRun(a, x, n) > 0
  {
    var m, y := Modulus(a), MwcRun(a, x, 2);
    SettlesInTwo(a, x);
    RunSplit(a, x, n - 2);
    NotCongruentToZero(a, x);
    NeverDies(a, y, n - 2);
    RunMultiplies(a, x, n);
    RestUnique(MwcRun(a, x, n), Pow(a, n) * x, m);
  }

  /** The two states of rand. */
  lemma RandStatesArePowers(w: u32, z: u32, n: nat)
    requires n >= 2 && w % 1179647999 != 0 && z % 2422800383 != 0
    ensures MwcRun(18000, w, n) == Pow(18000, n) * w % 1179647999 && MwcRun(18000, w, n) > 0
    ensures MwcRun(36969, z, n) == Pow(36969, n) * z % 2422800383 && MwcRun(36969, z, n) > 0
  {
    hide MwcRun, Pow;
    assert Modulus(18000) == 1179647999 && Modulus(36969) == 2422800383;
    StateIsPower(18000, w, n);
    StateIsPower(36969, z, n);
  }

  lemma {:induction false} RunSplit(a: nat, x: nat, n: nat)
    ensures MwcRun(a, x, n + 2) == MwcRun(a, MwcRun(a, x, 2), n)
    decreases n
  {
    if n > 0 {
      RunSplit(a, x, n - 1);
    }
  }

  lemma RestUnique(x: int, y: int, m: nat)
    requires Congruent(x, y, m) && 0 <= x < m
    ensures x == y % m
  {
    DivMod(x - y, m);
    var k := (x - y) / m;
    DivUnique(y, m, -k);
  }

  /** a is invertible modulo m, so a seed outside the multiples of m stays outside. */
  lemma NotCongruentToZero(a: nat, x: u32)
    requires Multiplier(a) && x % Modulus(a) != 0
    ensures 0 < MwcRun(a, x, 2) < Modulus(a)
  {
    var m, y := Modulus(a), MwcRun(a, x, 2);
    SettlesInTwo(a, x);
    RunMultiplies(a, x, 2);
    if y == 0 || y == m {
      assert Congruent(y, 0, m) by {
        MultipleMod(1, m);
      }
      Congruent2(y, Pow(a, 2) * x, m);
      SquareOf(a, x);
      CongruentScale(0x1_0000 * 0x1_0000, a * a * x, 0, m);
      Undone(a, x, m);
    }
  }

  lemma SquareOf(a: nat, x: nat)
    ensures Pow(a, 2) * x == a * a * x
  {
    assert Pow(a, 2) == a * Pow(a, 1) && Pow(a, 1) == a * Pow(a, 0);
  }

  /** 2^16 is the inverse of a modulo m = a * 2^16 - 1. */
  lemma Undone(a: nat, x: nat, m: nat)
    requires m + 1 == a * 0x1_0000 && m > 0 && Congruent(0x1_0000 * 0x1_0000 * (a * a * x), 0, m)
    ensures x % m == 0
  {
    var c := m + 1;
    assert 0x1_0000 * 0x1_0000 * (a * a * x) == c * c * x by {
      assert c * c == a * 0x1_0000 * (a * 0x1_0000) == a * a * (0x1_0000 * 0x1_0000);
      MulAssoc(0x1_0000 * 0x1_0000, a * a, x);
    }
    assert c * c * x == (m + 2) * x * m + x by {
      assert c * c == (m + 2) * m + 1;
      assert ((m + 2) * m + 1) * x == (m + 2) * m * x + x;
      assert (m + 2) * m * x == (m + 2) * x * m;
    }
    RestUnique2((m + 2) * x, x, m);
  }

  lemma Congruent2(y: int, z: int, m: nat)
    requires Congruent(y, z, m) && Congruent(y, 0, m)
    ensures Congruent(z, 0, m)
  {
    DivMod(y - z, m);
    DivMod(y, m);
    assert z == (y / m - (y - z) / m) * m;
    MultipleMod(y / m - (y - z) / m, m);
  }

  lemma RestUnique2(k: int, x: int, m: nat)
    requires Congruent(k * m + x, 0, m)
    ensures x % m == 0
  {
    DivMod(k * m + x, m);
    assert x == ((k * m + x) / m - k) * m;
    MultipleMod((k * m + x) / m - k, m);
  }

  /** Shifting a word left by 16 drops its high half. */
  lemma ShiftWraps(x: nat)
    ensures x * 0x1_0000 % WORD32 == x % 0x1_0000 * 0x1_0000
  {
    DivMod(x, 0x1_0000);
    DivUnique(x * 0x1_0000, WORD32, x / 0x1_0000);
  }

  /** The whole generator: two multiply-with-carry states, combined. */
  class Rand {
    var rndMW: u32
    var rndMZ: u32

    constructor (w: u32, z: u32)
      ensures rndMW == w && rndMZ == z
    {
      rndMW, rndMZ := w, z;
    }

    /** The value before it is mixed with the clock. */
    method Next() returns (result: u32)
      modifies this
      ensures rndMW == MwcStep(18000, old(rndMW)) == 18000 * (old(rndMW) % 0x1_0000) + old(rndMW) / 0x1_0000
      ensures rndMZ == MwcStep(36969, old(rndMZ)) == 36969 * (old(rndMZ) % 0x1_0000) + old(rndMZ) / 0x1_0000
      ensures result == (rndMZ % 0x1_0000 * 0x1_0000 + rndMW) % WORD32
    {
      BothMultipliers();
      NoOverflow(18000, rndMW);
      NoOverflow(36969, rndMZ);
      ShiftWraps(MwcStep(36969, rndMZ));
      hide MwcStep;
      rndMW := (18000 * (rndMW % 0x1_0000) + rndMW / 0x1_0000) % WORD32;
      rndMZ := (36969 * (rndMZ % 0x1_0000) + rndMZ / 0x1_0000) % WORD32;
      result := (rndMZ * 0x1_0000 % WORD32 + rndMW) % WORD32;
    }
  }
}

/** The PRBS9 test payload of emi.c (section 4.1.5 of Vol 6 Part F of the Bluetooth Core Specification): a 9-bit
    shift register against the linear recurrence it must produce. */
module Prbs9 {
  import opened Arith

  /** The sequence the specification asks for: nine ones, then s[t + 9] = s[t + 4] xor s[t]. */
  function Stream(t: nat): bool {
    if t < 9 then true else Stream(t - 5) != Stream(t - 9)
  }

  /** One step of the register. */
  function Next(x: bv16): bv16 {
    (x >> 1) | (((x << 4) ^ (x << 8)) & 0x100)
  }

  function State(t: nat): bv16 {
    if t == 0 then 0x1FF else Next(State(t - 1))
  }

  function Bit(x: bv16, mask: bv16): bool {
    x & mask != 0
  }

  // ----- the register holds a window of the sequence -----

  /** Register bit j at time t is the sequence at t + j. */
  ghost predicate Window(x: bv16, t: nat) {
    && x < 0x200
    && Bit(x, 0x1) == Stream(t) && Bit(x, 0x2) == Stream(t + 1) && Bit(x, 0x4) == Stream(t + 2)
    && Bit(x, 0x8) == Stream(t + 3) && Bit(x, 0x10) == Stream(t + 4) && Bit(x, 0x20) == Stream(t + 5)
    && Bit(x, 0x40) == Stream(t + 6) && Bit(x, 0x80) == Stream(t + 7) && Bit(x, 0x100) == Stream(t + 8)
  }

  lemma NextShifts(x: bv16)
    requires x < 0x200
    ensures var y := Next(x);
            && y < 0x200
            && Bit(y, 0x1) == Bit(x, 0x2) && Bit(y, 0x2) == Bit(x, 0x4) && Bit(y, 0x4) == Bit(x, 0x8)
            && Bit(y, 0x8) == Bit(x, 0x10) && Bit(y, 0x10) == Bit(x, 0x20) && Bit(y, 0x20) == Bit(x, 0x40)
            && Bit(y, 0x40) == Bit(x, 0x80) && Bit(y, 0x80) == Bit(x, 0x100)
            && Bit(y, 0x100) == (Bit(x, 0x10) != Bit(x, 0x1))
  {
  }

  lemma {:induction false} StateIsWindow(t: nat)
    ensures Window(State(t), t)
    decreases t
  {
    hide Bit, Next;
    if t == 0 {
      AllOnes();
    } else {
      StateIsWindow(t - 1);
      NextShifts(State(t - 1));
      assert Stream(t + 8) == (Stream(t + 3) != Stream(t - 1));
    }
  }

  lemma AllOnes()
    ensures forall j | 0 <= j < 9 :: Stream(j)
    ensures Bit(0x1FF, 0x1) && Bit(0x1FF, 0x2) && Bit(0x1FF, 0x4) && Bit(0x1FF, 0x8) && Bit(0x1FF, 0x10)
    ensures Bit(0x1FF, 0x20) && Bit(0x1FF, 0x40) && Bit(0x1FF, 0x80) && Bit(0x1FF, 0x100)
  {
  }

  // ----- no nine zeros -----

  lemma {:induction false} StateNeverZero(t: nat)
    ensures 0 < State(t) < 0x200
    decreases t
  {
    if t > 0 {
      StateNeverZero(t - 1);
      NonZeroNext(State(t - 1));
    }
  }

  lemma NonZeroNext(x: bv16)
    requires 0 < x < 0x200
    ensures 0 < Next(x) < 0x200
  {
  }

  lemma NonZeroHasBit(x: bv16)
    requires 0 < x < 0x200
    ensures Bit(x, 0x1) || Bit(x, 0x2) || Bit(x, 0x4) || Bit(x, 0x8) || Bit(x, 0x10) || Bit(x, 0x20)
         || Bit(x, 0x40) || Bit(x, 0x80) || Bit(x, 0x100)
  {
  }

  /** No nine consecutive zeros anywhere in the sequence. */
  lemma NoNineZeros(t: nat)
    ensures exists j :: t <= j < t + 9 && Stream(j)
  {
    hide Bit, State;
    StateIsWindow(t);
    StateNeverZero(t);
    NonZeroHasBit(State(t));
    assert Stream(t) || Stream(t + 1) || Stream(t + 2) || Stream(t + 3) || Stream(t + 4) || Stream(t + 5)
        || Stream(t + 6) || Stream(t + 7) || Stream(t + 8);
  }

  // ----- period -----

  function Next8(x: bv16): bv16 {
    Next(Next(Next(Next(Next(Next(Next(Next(x))))))))
  }

  function Next64(x: bv16): bv16 {
    Next8(Next8(Next8(Next8(Next8(Next8(Next8(Next8(x))))))))
  }

  lemma StateAfter8(t: nat)
    ensures State(t + 8) == Next8(State(t))
  {
    hide Next;
    assert State(t + 2) == Next(Next(State(t)));
    assert State(t + 4) == Next(Next(State(t + 2)));
    assert State(t + 6) == Next(Next(State(t + 4)));
    assert State(t + 8) == Next(Next(State(t + 6)));
  }

  lemma StateAfter64(t: nat)
    ensures State(t + 64) == Next64(State(t))
  {
    hide Next8, State;
    StateAfter8(t);
    StateAfter8(t + 8);
    StateAfter8(t + 16);
    StateAfter8(t + 24);
    StateAfter8(t + 32);
    StateAfter8(t + 40);
    StateAfter8(t + 48);
    StateAfter8(t + 56);
  }

  lemma Waypoints()
    ensures Next64(0x1FF) == 0x1E7 && Next64(0x1E7) == 0x002 && Next64(0x002) == 0x051 && Next64(0x051) == 0x00C
    ensures Next64(0x00C) == 0x1E6 && Next64(0x1E6) == 0x02A && Next64(0x02A) == 0x057 && Next64(0x057) == 0x0FF
  {
  }

  /** The register is back after 511 steps, and neither after 7 nor after 73. */
  lemma StateReturns()
    ensures State(511) == State(0) && State(7) != State(0) && State(73) != State(0)
  {
    hide Next64, State;
    Waypoints();
    StateAfter64(0);
    StateAfter64(64);
    StateAfter64(128);
    StateAfter64(192);
    StateAfter64(256);
    StateAfter64(320);
    StateAfter64(384);
    StateAfter64(448);
    assert State(0) == 0x1FF by {
      StateZero();
    }
    assert State(512) == 0x0FF;
    OneBack();
    ShortReturns();
  }

  lemma StateZero()
    ensures State(0) == 0x1FF
  {
  }

  /** The only state whose successor is 0x0FF is 0x1FF. */
  lemma OneBack()
    requires State(512) == 0x0FF
    ensures State(511) == 0x1FF
  {
    StateNeverZero(511);
    assert State(512) == Next(State(511));
    BackFrom(State(511));
  }

  lemma BackFrom(x: bv16)
    requires x < 0x200 && Next(x) == 0x0FF
    ensures x == 0x1FF
  {
  }

  lemma ShortReturns()
    requires State(64) == 0x1E7
    ensures State(7) == 0x183 && State(73) == 0x0D9
  {
    SevenSteps();
    StateAfter8(64);
    assert Next8(0x1E7) == 0x1B3;
    assert State(73) == Next(State(72));
  }

  lemma SevenSteps()
    ensures State(7) == 0x183
  {
    assert State(3) == 0x03F;
    assert State(5) == Next(Next(State(3)));
    assert State(7) == Next(Next(State(5)));
  }

  ghost predicate Period(p: nat) {
    p > 0 && forall t: nat :: Stream(t + p) == Stream(t)
  }

  /** A register state that recurs after p steps from the start makes p a period of the sequence. */
  lemma {:induction false} ReturnIsPeriod(p: nat, t: nat)
    requires State(p) == State(0)
    ensures State(t + p) == State(t)
    decreases t
  {
    if t > 0 {
      ReturnIsPeriod(p, t - 1);
    }
  }

  lemma PeriodIsReturn(p: nat)
    ensures Period(p) <==> p > 0 && State(p) == State(0)
  {
    if Period(p) {
      StateIsWindow(p);
      StateIsWindow(0);
      SameWindow(p);
    } else if p > 0 && State(p) == State(0) {
      forall t: nat ensures Stream(t + p) == Stream(t) {
        ReturnIsPeriod(p, t);
        StateIsWindow(t);
        StateIsWindow(t + p);
      }
    }
  }

  lemma SameWindow(p: nat)
    requires Period(p) && Window(State(p), p) && Window(State(0), 0)
    ensures State(p) == State(0)
  {
    hide Bit, Stream, State;
    var x, y := State(p), State(0);
    forall j: nat | j < 9 ensures Stream(p + j) == Stream(j) {
      assert Stream(j + p) == Stream(j);
    }
    assert Stream(p + 0) == Stream(0) && Stream(p + 1) == Stream(1) && Stream(p + 2) == Stream(2);
    assert Stream(p + 3) == Stream(3) && Stream(p + 4) == Stream(4) && Stream(p + 5) == Stream(5);
    assert Stream(p + 6) == Stream(6) && Stream(p + 7) == Stream(7) && Stream(p + 8) == Stream(8);
    SameBits(x, y);
  }

  lemma SameBits(x: bv16, y: bv16)
    requires x < 0x200 && y < 0x200
    requires Bit(x, 0x1) == Bit(y, 0x1) && Bit(x, 0x2) == Bit(y, 0x2) && Bit(x, 0x4) == Bit(y, 0x4)
    requires Bit(x, 0x8) == Bit(y, 0x8) && Bit(x, 0x10) == Bit(y, 0x10) && Bit(x, 0x20) == Bit(y, 0x20)
    requires Bit(x, 0x40) == Bit(y, 0x40) && Bit(x, 0x80) == Bit(y, 0x80) && Bit(x, 0x100) == Bit(y, 0x100)
    ensures x == y
  {
  }

  lemma {:induction false} PeriodMultiple(p: nat, k: nat, t: nat)
    requires Period(p)
    ensures Stream(t + k * p) == Stream(t)
    decreases k
  {
    if k > 0 {
      PeriodMultiple(p, k - 1, t);
      assert t + k * p == t + (k - 1) * p + p;
    }
  }

  lemma PeriodRest(a: nat, b: nat)
    requires Period(a) && Period(b) && a % b > 0
    ensures Period(a % b)
  {
    var k, r := a / b, a % b;
    DivMod(a, b);
    forall t: nat ensures Stream(t + r) == Stream(t) {
      PeriodMultiple(b, k, t + r);
      assert t + r + k * b == t + a;
    }
  }

  /** Euclid's algorithm on two periods ends in a period that divides both. */
  lemma {:induction false} CommonPeriod(a: nat, b: nat) returns (g: nat)
    requires Period(a) && Period(b)
    ensures Period(g) && a % g == 0 && b % g == 0 && g <= b
    decreases b
  {
    if a % b == 0 {
      return b;
    }
    PeriodRest(a, b);
    g := CommonPeriod(b, a % b);
    DividesSum(a, b, g);
  }

  lemma DividesSum(a: nat, b: nat, g: nat)
    requires b > 0 && g > 0 && b % g == 0 && a % b % g == 0
    ensures a % g == 0
  {
    DivMod(a, b);
    DivMod(b, g);
    DivMod(a % b, g);
    var q, j, k := a / b, b / g, a % b / g;
    assert q * (j * g) == q * j * g;
    assert a == (q * j + k) * g;
    MultipleMod(q * j + k, g);
  }

  lemma DivisorsOf511(g: nat)
    requires 1 <= g < 511 && 511 % g == 0
    ensures g == 1 || g == 7 || g == 73
  {
  }

  /** The sequence repeats with period 511, and with no period that is not a multiple of 511: the register runs
      through every non-zero 9-bit state. */
  lemma PeriodExactly(p: nat)
    requires p > 0
    ensures Period(p) <==> p % 511 == 0
  {
    StateReturns();
    PeriodIsReturn(511);
    if p % 511 == 0 {
      forall t: nat ensures Stream(t + p) == Stream(t) {
        PeriodMultiple(511, p / 511, t);
        assert p / 511 * 511 == p;
      }
    } else if Period(p) {
      PeriodRest(p, 511);
      var g := CommonPeriod(511, p % 511);
      DivisorsOf511(g);
      PeriodIsReturn(7);
      PeriodIsReturn(73);
      if g == 1 {
        forall t: nat ensures Stream(t + 7) == Stream(t) {
          PeriodMultiple(1, 7, t);
        }
      }
    }
  }

  // ----- the bytes -----

  /** BIT(j) of a byte. */
  function Mask(j: nat): bv8
    requires j < 8
  {
    match j
    case 0 => 0x01 case 1 => 0x02 case 2 => 0x04 case 3 => 0x08
    case 4 => 0x10 case 5 => 0x20 case 6 => 0x40 case _ => 0x80
  }

  /** Bit j, least significant first. */
  predicate ByteBit(d: bv8, j: nat)
    requires j < 8
  {
    (d >> j) & 1 != 0
  }

  /** The mask picks out the bit that the shift brings to the bottom. */
  lemma MaskIsBit(d: bv8, j: nat)
    requires j < 8
    ensures ByteBit(d, j) == (d & Mask(j) != 0)
  {
    match j
    case 0 => case 1 => case 2 => case 3 =>
    case 4 => case 5 => case 6 => case _ =>
  }

  lemma SetOneBit(d: bv8, j: nat, k: nat)
    requires j < 8 && k < 8
    ensures ByteBit(d | Mask(j), k) == (j == k || ByteBit(d, k))
    ensures !ByteBit(0, k)
  {
    hide ByteBit;
    MaskIsBit(d | Mask(j), k);
    MaskIsBit(d, k);
    MaskIsBit(0, k);
  }

  lemma SetBit(d: bv8, j: nat)
    requires j < 8
    ensures forall k: nat | k < 8 :: ByteBit(d | Mask(j), k) == (j == k || ByteBit(d, k))
  {
    forall k: nat | k < 8 ensures ByteBit(d | Mask(j), k) == (j == k || ByteBit(d, k)) {
      SetOneBit(d, j, k);
    }
  }

  /** Bit j of byte i, least significant first, is the sequence at 8 i + j. */
  ghost predicate HoldsByte(d: bv8, i: nat) {
    forall j: nat | j < 8 :: ByteBit(d, j) == Stream(8 * i + j)
  }

  /** The sequence starts with nine ones, five zeros, four ones, a zero and five ones. */
  lemma FirstBits()
    ensures forall t: nat | t < 24 :: Stream(t) <==> t < 9 || 14 <= t < 18 || 19 <= t
  {
    assert forall t: nat | t < 14 :: Stream(t) <==> t < 9;
    assert forall t: nat | t < 19 :: Stream(t) <==> t < 9 || 14 <= t < 18;
  }

  /** And so the first three bytes are 0xFF, 0xC1 and 0xFB. */
  lemma FirstBytes(d: bv8, i: nat)
    requires i < 3
    ensures HoldsByte(d, i) <==> d == [0xFF, 0xC1, 0xFB][i]
  {
    hide Stream, ByteBit;
    FirstBits();
    var want: bv8 := [0xFF, 0xC1, 0xFB][i];
    assert HoldsByte(want, i) by {
      BitsOfFirstBytes();
    }
    if HoldsByte(d, i) {
      forall j: nat | j < 8 ensures ByteBit(d, j) == ByteBit(want, j) {
      }
      SameByte(d, want);
    }
  }

  lemma BitsOfFirstBytes()
    ensures forall j: nat | j < 8 :: ByteBit(0xFF, j)
    ensures forall j: nat | j < 8 :: ByteBit(0xC1, j) <==> j == 0 || j >= 6
    ensures forall j: nat | j < 8 :: ByteBit(0xFB, j) <==> j != 2
  {
    hide ByteBit;
    forall j: nat | j < 8
      ensures ByteBit(0xFF, j) && (ByteBit(0xC1, j) <==> j == 0 || j >= 6) && (ByteBit(0xFB, j) <==> j != 2)
    {
      MaskIsBit(0xFF, j);
      MaskIsBit(0xC1, j);
      MaskIsBit(0xFB, j);
    }
  }

  lemma SameByte(d: bv8, d': bv8)
    requires forall j: nat | j < 8 :: ByteBit(d, j) == ByteBit(d', j)
    ensures d == d'
  {
    hide ByteBit;
    forall j: nat | j < 8 ensures (d & Mask(j) != 0) == (d' & Mask(j) != 0) {
      MaskIsBit(d, j);
      MaskIsBit(d', j);
    }
    SameMasked(d, d');
  }

  lemma SameMasked(d: bv8, d': bv8)
    requires forall j: nat | j < 8 :: (d & Mask(j) != 0) == (d' & Mask(j) != 0)
    ensures d == d'
  {
    assert (d & Mask(0) != 0) == (d' & Mask(0) != 0) && (d & Mask(1) != 0) == (d' & Mask(1) != 0);
    assert (d & Mask(2) != 0) == (d' & Mask(2) != 0) && (d & Mask(3) != 0) == (d' & Mask(3) != 0);
    assert (d & Mask(4) != 0) == (d' & Mask(4) != 0) && (d & Mask(5) != 0) == (d' & Mask(5) != 0);
    assert (d & Mask(6) != 0) == (d' & Mask(6) != 0) && (d & Mask(7) != 0) == (d' & Mask(7) != 0);
  }

  method RfPhyTestPrbs9(p: array<bv8>, n: int)
    requires n <= p.Length
    modifies p
    ensures forall i | 0 <= i < n :: HoldsByte(p[i], i)
    ensures forall i | 0 <= i < p.Length && i >= n :: p[i] == old(p[i])
  {
    var x := 0x1FF;
    var i := 0;
    while i < n
      invariant 0 <= i && (i <= n || i == 0)
      invariant x == State(8 * i)
      invariant forall k | 0 <= k < i :: HoldsByte(p[k], k)
      invariant forall k | i <= k < p.Length :: p[k] == old(p[k])
    {
      var d := 0;
      d, x := OneByte(x, i);
      p[i] := d;
      i := i + 1;
    }
  }

  /** The inner loop: eight register steps collected into a byte. */
  method OneByte(start: bv16, ghost i: nat) returns (d: bv8, x: bv16)
    requires start == State(8 * i)
    ensures HoldsByte(d, i) && x == State(8 * (i + 1))
  {
    hide Bit, Next, ByteBit;
    d, x := 0, start;
    forall k: nat | k < 8 ensures !ByteBit(0, k) {
      SetOneBit(0, 0, k);
    }
    for j := 0 to 8
      invariant x == State(8 * i + j)
      invariant forall k: nat | k < j :: ByteBit(d, k) == Stream(8 * i + k)
      invariant forall k: nat | j <= k < 8 :: !ByteBit(d, k)
    {
      StateIsWindow(8 * i + j);
      LowBit(x);
      assert (x & 1 != 0) == Stream(8 * i + j);
      SetBit(d, j);
      ghost var before := d;
      if x & 1 != 0 {
        d := d | Mask(j);
        assert forall k: nat | k < 8 :: ByteBit(d, k) == (j == k || ByteBit(before, k));
      }
      assert ByteBit(d, j) == Stream(8 * i + j);
      assert forall k: nat | k < j :: ByteBit(d, k) == ByteBit(before, k);
      x := Next(x);
    }
  }

  lemma LowBit(x: bv16)
    ensures Bit(x, 0x1) == (x & 1 != 0)
  {
  }
}

/** The 48 MHz RC calibration of clock.c: a bisection of trim register 0x33 towards a cycle count of 250, against an
    oscillator of which only the count for each trim is assumed. */
module Calibration {
  import opened Arith

  const TARGET: nat := 250
  const START: nat := 0x80

  /** The 11-bit cycle count of registers 0xcf and 0xce. */
  type Count = c: nat | c < 0x800

  type Oscillator = nat -> Count

  /** How far the count at this trim is from the target. */
  function Miss(osc: Oscillator, trim: nat): nat {
    var c := osc(trim);
    if c > TARGET then c - TARGET else TARGET - c
  }

  function NextTrim(osc: Oscillator, trim: int, f: nat): int
    requires trim >= 0
  {
    if osc(trim) > TARGET then trim - f else trim + f
  }

  /** The trims whose counts the search compares, from `trim` on with step f. */
  function Probes(osc: Oscillator, trim: nat, f: nat): seq<nat>
    requires InRange(trim, f)
    decreases f
  {
    if f == 0 then [] else
      StaysInRange(osc, trim, f);
      [trim] + Probes(osc, NextTrim(osc, trim, f), f / 2)
  }

  /** The seven trims the calibration compares. */
  function AllProbes(osc: Oscillator): seq<nat> {
    Probes(osc, START, 64)
  }

  /** The room the remaining halving steps may use up. */
  predicate InRange(trim: int, f: nat) {
    (f == 0 || f in {64, 32, 16, 8, 4, 2, 1}) && 2 * f <= trim <= 256 - 2 * f && 1 <= trim <= 255
  }

  lemma StaysInRange(osc: Oscillator, trim: nat, f: nat)
    requires InRange(trim, f) && f > 0
    ensures InRange(NextTrim(osc, trim, f), f / 2)
  {
  }

  /** Probe k is nearest to the target, and the first that is. */
  ghost predicate FirstNearest(osc: Oscillator, probes: seq<nat>, k: nat) {
    && k < |probes|
    && (forall j | 0 <= j < k :: Miss(osc, probes[k]) < Miss(osc, probes[j]))
    && (forall j | k < j < |probes| :: Miss(osc, probes[k]) <= Miss(osc, probes[j]))
  }

  /** The first probe nearest to the target, if it is nearer than `limit`; else 0. */
  ghost predicate IsBest(osc: Oscillator, probes: seq<nat>, limit: nat, trim: int) {
    if forall p <- probes :: Miss(osc, p) >= limit then trim == 0
    else trim > 0 && Miss(osc, trim) < limit && exists k: nat :: FirstNearest(osc, probes, k) && probes[k] == trim
  }

  /** What the search remembers of the probes seen so far. */
  ghost predicate Tracks(osc: Oscillator, seen: seq<nat>, d2: nat, cap: int) {
    if forall p <- seen :: Miss(osc, p) >= 100 then d2 == 100 && cap == 0
    else cap > 0 && Miss(osc, cap) == d2 < 100 && exists k: nat :: FirstNearest(osc, seen, k) && seen[k] == cap
  }

  lemma TracksStep(osc: Oscillator, seen: seq<nat>, d2: nat, cap: int, p: nat)
    requires Tracks(osc, seen, d2, cap) && p > 0
    ensures var d := Miss(osc, p);
            if d2 > d then Tracks(osc, seen + [p], d, p) else Tracks(osc, seen + [p], d2, cap)
  {
    hide Miss;
    var seen' := seen + [p];
    assert seen'[|seen|] == p;
    assert forall q <- seen :: q in seen';
    assert forall q <- seen' :: q in seen || q == p;
    if d2 < 100 {
      var k: nat :| FirstNearest(osc, seen, k) && seen[k] == cap;
      if d2 <= Miss(osc, p) {
        assert FirstNearest(osc, seen', k) && seen'[k] == cap;
      } else {
        assert FirstNearest(osc, seen', |seen|);
      }
    } else if Miss(osc, p) < 100 {
      assert FirstNearest(osc, seen', |seen|);
    }
  }

  lemma TracksIsBest(osc: Oscillator, seen: seq<nat>, d2: nat, cap: int)
    requires Tracks(osc, seen, d2, cap)
    ensures IsBest(osc, seen, 100, cap)
  {
  }

  lemma TracksNothing(osc: Oscillator)
    ensures Tracks(osc, [], 100, 0)
  {
  }

  lemma ProbesStep(osc: Oscillator, seen: seq<nat>, trim: nat, f: nat)
    requires InRange(trim, f) && f > 0
    ensures InRange(NextTrim(osc, trim, f), f / 2)
    ensures seen + Probes(osc, trim, f) == seen + [trim] + Probes(osc, NextTrim(osc, trim, f), f / 2)
  {
    StaysInRange(osc, trim, f);
  }

  lemma ProbesEnd(osc: Oscillator, trim: nat)
    requires InRange(trim, 0)
    ensures Probes(osc, trim, 0) == []
  {
  }

  predicate EvenTrim(t: int) {
    2 <= t <= 254 && t % 2 == 0
  }

  /** Every compared trim is even. */
  lemma {:induction false} ProbesAreEven(osc: Oscillator, trim: nat, f: nat)
    requires InRange(trim, f) && f > 0 && trim % (2 * f) == 0
    ensures forall p <- Probes(osc, trim, f) :: EvenTrim(p)
    decreases f
  {
    StaysInRange(osc, trim, f);
    if f > 1 {
      NextMultiple(osc, trim, f);
      ProbesAreEven(osc, NextTrim(osc, trim, f), f / 2);
    } else {
      ProbesEnd(osc, NextTrim(osc, trim, f));
    }
  }

  lemma NextMultiple(osc: Oscillator, trim: nat, f: nat)
    requires InRange(trim, f) && f > 1 && trim % (2 * f) == 0
    ensures f / 2 * 2 == f && trim % 2 == 0 && NextTrim(osc, trim, f) % f == 0
  {
    var q := trim / (2 * f);
    DivMod(trim, 2 * f);
    assert trim == q * f * 2 && trim - f == (2 * q - 1) * f && trim + f == (2 * q + 1) * f;
    MultipleMod(q * f, 2);
    MultipleMod(2 * q - 1, f);
    MultipleMod(2 * q + 1, f);
  }

  // ----- an oscillator that can be calibrated -----

  ghost predicate Monotone(osc: Oscillator) {
    forall s, t | 1 <= s <= t <= 255 :: osc(s) <= osc(t)
  }

  /** Neighbouring trims differ by at most `slope` counts. */
  ghost predicate Smooth(osc: Oscillator, slope: nat) {
    forall t {:trigger osc(t)} | 1 <= t < 255 :: osc(t + 1) <= osc(t) + slope
  }

  ghost predicate Crosses(osc: Oscillator) {
    osc(1) <= TARGET < osc(255)
  }

  /** x is the first trim that counts above the target. */
  ghost predicate IsCrossing(osc: Oscillator, x: nat) {
    1 < x <= 255 && osc(x - 1) <= TARGET < osc(x)
  }

  lemma {:induction false} CrossingExists(osc: Oscillator, t: nat) returns (x: nat)
    requires 1 <= t < 255 && osc(t) <= TARGET && Crosses(osc)
    ensures IsCrossing(osc, x)
    decreases 255 - t
  {
    if osc(t + 1) > TARGET {
      x := t + 1;
    } else {
      x := CrossingExists(osc, t + 1);
    }
  }

  lemma CrossingSplits(osc: Oscillator, x: nat, t: nat)
    requires Monotone(osc) && IsCrossing(osc, x) && 1 <= t <= 255
    ensures osc(t) > TARGET <==> t >= x
  {
    if t < x {
      assert osc(t) <= osc(x - 1);
    } else {
      assert osc(x) <= osc(t);
    }
  }

  /** The bracket the bisection keeps: the crossing lies in (trim - 2 f, trim + 2 f]. The last compared probe ends up
      within two steps of it. */
  lemma {:induction false} LastProbeBrackets(osc: Oscillator, trim: nat, f: nat, x: nat)
    requires InRange(trim, f) && f > 0 && Monotone(osc) && IsCrossing(osc, x)
    requires trim - 2 * f < x <= trim + 2 * f
    ensures var probes := Probes(osc, trim, f);
            probes != [] && probes[|probes| - 1] - 2 < x <= probes[|probes| - 1] + 2
    decreases f
  {
    StaysInRange(osc, trim, f);
    if f > 1 {
      CrossingSplits(osc, x, trim);
      LastProbeBrackets(osc, NextTrim(osc, trim, f), f / 2, x);
    } else {
      assert Probes(osc, NextTrim(osc, trim, f), f / 2) == [];
    }
  }

  // ----- what the search finds -----

  /** The bisection passes an even trim over only for a compared one that is at least as near to the target. */
  lemma {:induction false} ProbesCoverEvens(osc: Oscillator, trim: nat, f: nat, e: nat)
    requires InRange(trim, f) && f > 0 && trim % (2 * f) == 0 && Monotone(osc)
    requires e % 2 == 0 && trim - 2 * f < e < trim + 2 * f
    ensures exists p <- Probes(osc, trim, f) :: Miss(osc, p) <= Miss(osc, e)
    decreases f
  {
    hide Probes;
    ProbesHead(osc, trim, f);
    if e == trim || (osc(trim) > TARGET && trim < e) || (osc(trim) <= TARGET && e < trim) {
      FartherOff(osc, trim, f, e);
      assert trim in Probes(osc, trim, f);
    } else {
      assert f > 1 by {
        Parity(trim, f, e);
      }
      NextMultiple(osc, trim, f);
      ProbesCoverEvens(osc, NextTrim(osc, trim, f), f / 2, e);
    }
  }

  lemma ProbesHead(osc: Oscillator, trim: nat, f: nat)
    requires InRange(trim, f) && f > 0
    ensures InRange(NextTrim(osc, trim, f), f / 2)
    ensures Probes(osc, trim, f) == [trim] + Probes(osc, NextTrim(osc, trim, f), f / 2)
  {
    StaysInRange(osc, trim, f);
  }

  lemma Parity(trim: nat, f: nat, e: nat)
    requires f > 0 && trim % (2 * f) == 0 && e % 2 == 0 && e != trim && trim - 2 * f < e < trim + 2 * f
    ensures f > 1
  {
  }

  lemma FartherOff(osc: Oscillator, trim: nat, f: nat, e: nat)
    requires Monotone(osc) && InRange(trim, f) && trim - 2 * f < e < trim + 2 * f
    requires e == trim || (osc(trim) > TARGET && trim < e) || (osc(trim) <= TARGET && e < trim)
    ensures Miss(osc, trim) <= Miss(osc, e)
  {
    if trim < e {
      assert osc(trim) <= osc(e);
    } else if e < trim {
      assert osc(e) <= osc(trim);
    }
  }

  /** The nearest of all 127 even trims, or 0 if none of them is within 100 counts. */
  ghost predicate BestEven(osc: Oscillator, trim: int) {
    && (trim == 0 <==> forall e | EvenTrim(e) :: Miss(osc, e) >= 100)
    && (trim != 0 ==> EvenTrim(trim) && forall e | EvenTrim(e) :: Miss(osc, trim) <= Miss(osc, e))
  }

  /** For every monotone count function the seven comparisons are as good as comparing all even trims. */
  lemma SearchIsExhaustive(osc: Oscillator, trim: int)
    requires Monotone(osc) && IsBest(osc, AllProbes(osc), 100, trim)
    ensures BestEven(osc, trim)
  {
    hide AllProbes, Miss, Monotone, IsBest, BestEven;
    forall e | EvenTrim(e) ensures exists p <- AllProbes(osc) :: Miss(osc, p) <= Miss(osc, e) {
      SearchCovers(osc, e);
    }
    AllProbesAreEven(osc);
    BestOfCover(osc, AllProbes(osc), trim);
  }

  lemma AllProbesAreEven(osc: Oscillator)
    ensures forall p <- AllProbes(osc) :: EvenTrim(p)
  {
    ProbesAreEven(osc, START, 64);
  }

  lemma SearchCovers(osc: Oscillator, e: nat)
    requires Monotone(osc) && EvenTrim(e)
    ensures exists p <- AllProbes(osc) :: Miss(osc, p) <= Miss(osc, e)
  {
    ProbesCoverEvens(osc, START, 64, e);
  }

  /** The best of some even trims is the best of all, if those cover the others. */
  lemma BestOfCover(osc: Oscillator, probes: seq<nat>, trim: int)
    requires IsBest(osc, probes, 100, trim) && forall p <- probes :: EvenTrim(p)
    requires forall e | EvenTrim(e) :: exists p <- probes :: Miss(osc, p) <= Miss(osc, e)
    ensures BestEven(osc, trim)
  {
    hide Miss, IsBest;
    BestOfProbes(osc, probes, trim);
    forall e | EvenTrim(e)
      ensures trim == 0 ==> Miss(osc, e) >= 100
      ensures trim != 0 ==> Miss(osc, trim) <= Miss(osc, e)
    {
      var p :| p in probes && Miss(osc, p) <= Miss(osc, e);
    }
  }

  lemma BestOfProbes(osc: Oscillator, probes: seq<nat>, trim: int)
    requires IsBest(osc, probes, 100, trim)
    ensures trim == 0 ==> forall p <- probes :: Miss(osc, p) >= 100
    ensures trim != 0 ==> trim > 0 && trim in probes && Miss(osc, trim) < 100
    ensures trim != 0 ==> forall p <- probes :: Miss(osc, trim) <= Miss(osc, p)
  {
    hide Miss;
  }

  ghost predicate Calibratable(osc: Oscillator, slope: nat) {
    Monotone(osc) && Smooth(osc, slope) && Crosses(osc)
  }

  /** Accuracy: for every monotone count function that crosses the target in steps of at most `slope`, with
      slope < 100, the search settles on an even trim within `slope` of the target. */
  lemma CalibrationIsAccurate(osc: Oscillator, slope: nat, trim: int)
    requires Calibratable(osc, slope) && slope < 100 && BestEven(osc, trim)
    ensures EvenTrim(trim) && Miss(osc, trim) <= slope
  {
    hide Monotone, Smooth, Crosses, IsCrossing, Miss, EvenTrim, BestEven;
    assert osc(1) <= TARGET by {
      CrossesFromBelow(osc);
    }
    var x := CrossingExists(osc, 1);
    var e := EvenSide(osc, x);
    CrossingIsNear(osc, slope, x);
    BestBeats(osc, trim, e);
  }

  lemma CrossesFromBelow(osc: Oscillator)
    requires Crosses(osc)
    ensures osc(1) <= TARGET
  {
  }

  /** The even one of the two trims beside the crossing. */
  lemma EvenSide(osc: Oscillator, x: nat) returns (e: nat)
    requires IsCrossing(osc, x)
    ensures x > 0 && EvenTrim(e) && (e == x || e == x - 1)
  {
    e := if x % 2 == 0 then x else x - 1;
  }

  lemma BestBeats(osc: Oscillator, trim: int, e: nat)
    requires BestEven(osc, trim) && EvenTrim(e) && Miss(osc, e) < 100
    ensures EvenTrim(trim) && Miss(osc, trim) <= Miss(osc, e)
  {
    hide Miss;
  }

  lemma CrossingIsNear(osc: Oscillator, slope: nat, x: nat)
    requires Smooth(osc, slope) && IsCrossing(osc, x)
    ensures x > 0 && Miss(osc, x) <= slope && Miss(osc, x - 1) <= slope
  {
    hide Smooth;
    assert osc(x - 1 + 1) <= osc(x - 1) + slope by {
      SmoothAt(osc, slope, x - 1);
    }
  }

  lemma SmoothAt(osc: Oscillator, slope: nat, t: nat)
    requires Smooth(osc, slope) && 1 <= t < 255
    ensures osc(t + 1) <= osc(t) + slope
  {
  }

  ghost predicate AccurateUpTo(slope: nat) {
    forall osc: Oscillator, trim: int | Calibratable(osc, slope) && IsBest(osc, AllProbes(osc), 100, trim) ::
      trim > 0 && Miss(osc, trim) <= slope
  }

  /** A count that jumps by 100 on either side of an odd trim at the target. */
  function StepCount(t: nat): Count {
    if t < 127 then 150 else if t == 127 then 250 else 350
  }

  /** It crosses the target, and yet the calibration stores 0. */
  lemma StepCountDefeats()
    ensures Calibratable(StepCount, 100) && IsBest(StepCount, AllProbes(StepCount), 100, 0)
  {
    hide Miss, AllProbes, StepCount, Monotone, Smooth;
    StepCountShape();
    AllProbesAreEven(StepCount);
    forall p <- AllProbes(StepCount) ensures Miss(StepCount, p) >= 100 {
      EvenStepIsFar(p);
    }
  }

  lemma StepCountShape()
    ensures Monotone(StepCount) && Smooth(StepCount, 100) && Crosses(StepCount)
  {
    hide *;
    StepCountRises();
    StepCountIsSmooth();
    StepCountCrosses();
  }

  lemma StepCountCrosses()
    ensures Crosses(StepCount)
  {
  }

  lemma StepCountRises()
    ensures Monotone(StepCount)
  {
    forall s, t | 1 <= s <= t <= 255 ensures StepCount(s) <= StepCount(t) {
    }
  }

  lemma StepCountIsSmooth()
    ensures Smooth(StepCount, 100)
  {
    forall t | 1 <= t < 255 ensures StepCount(t + 1) <= StepCount(t) + 100 {
    }
  }

  lemma EvenStepIsFar(t: nat)
    requires EvenTrim(t)
    ensures Miss(StepCount, t) == 100
  {
  }

  lemma SmoothGrows(osc: Oscillator, slope: nat, slope': nat)
    requires Smooth(osc, slope) && slope <= slope'
    ensures Smooth(osc, slope')
  {
  }

  /** The bound on the slope is exact. */
  lemma AccurateExactly(slope: nat)
    ensures AccurateUpTo(slope) <==> slope < 100
  {
    hide AllProbes, IsBest, Monotone, Crosses, BestEven, Smooth, StepCount;
    if slope < 100 {
      forall osc: Oscillator, trim: int | Calibratable(osc, slope) && IsBest(osc, AllProbes(osc), 100, trim)
        ensures trim > 0 && Miss(osc, trim) <= slope
      {
        SearchIsExhaustive(osc, trim);
        CalibrationIsAccurate(osc, slope, trim);
      }
    } else {
      StepCountDefeats();
      SmoothGrows(StepCount, 100, slope);
      assert Calibratable(StepCount, slope);
    }
  }

  // ----- the driver -----

  lemma PromiseKept(osc: Oscillator, trim: int)
    requires IsBest(osc, AllProbes(osc), 100, trim)
    ensures Monotone(osc) ==> BestEven(osc, trim)
    ensures forall slope: nat | Calibratable(osc, slope) && slope < 100 ::
      EvenTrim(trim) && Miss(osc, trim) <= slope
  {
    hide IsBest, BestEven, Smooth, Crosses, Miss, AllProbes, Monotone;
    if Monotone(osc) {
      SearchIsExhaustive(osc, trim);
      forall slope: nat | Calibratable(osc, slope) && slope < 100
        ensures EvenTrim(trim) && Miss(osc, trim) <= slope
      {
        CalibrationIsAccurate(osc, slope, trim);
      }
    }
  }

  class RcOscillator {
    const count: Oscillator
    var trim: int                // analog register 0x33
    ghost var written: seq<int>  // every value written to it

    constructor (count: Oscillator)
      ensures this.count == count && written == []
    {
      this.count := count;
      trim, written := 0, [];
    }

    method WriteTrim(v: int)
      modifies this
      ensures trim == v && written == old(written) + [v]
    {
      trim, written := v, written + [v];
    }

    /** The count is read as three high bits and a low byte. */
    method ReadCount() returns (c: nat)
      requires trim >= 0
      ensures c == count(trim)
    {
      var hi, lo := count(trim) / 256 % 8, count(trim) % 256;
      c := hi * 256 + lo;
    }

    /** The last value written is the best compared probe, or 0 when none came within 100.  For a monotone count that
        is the best of all even trims, and within the slope of the target if the count crosses it gently enough.
        The trims the oscillator ran at before are the compared ones, all even, and one more in 1..255. */
    method Rc48mCal()
      modifies this
      ensures IsBest(count, AllProbes(count), 100, trim)
      ensures Monotone(count) ==> BestEven(count, trim)
      ensures forall slope: nat | Calibratable(count, slope) && slope < 100 ::
        EvenTrim(trim) && Miss(count, trim) <= slope
      ensures exists x :: 1 <= x <= 255 && written == old(written) + AllProbes(count) + [x] + [trim]
      ensures forall p <- AllProbes(count) :: EvenTrim(p)
    {
      hide Tracks, IsBest, Probes, BestEven, Calibratable, Monotone, EvenTrim;
      WriteTrim(0x80);
      var calCnt := ReadCount();
      var f, tempV, tempD, tempD2, tempCap := 64, 0, 0, 100, 0;
      ghost var seen: seq<nat> := [];
      assert Tracks(count, seen, tempD2, tempCap) by {
        TracksNothing(count);
      }
      while f >= 1
        invariant f >= 0 && InRange(trim, f)
        invariant trim >= 0 && calCnt == count(trim)
        invariant seen + Probes(count, trim, f) == AllProbes(count)
        invariant tempD2 >= 0 && Tracks(count, seen, tempD2, tempCap)
        invariant written == old(written) + seen + [trim]
        decreases f
      {
        ProbesStep(count, seen, trim, f);
        TracksStep(count, seen, tempD2, tempCap, trim);
        tempV := trim;
        if calCnt > 250 {
          tempD := calCnt - 250;
        } else {
          tempD := 250 - calCnt;
        }
        if calCnt > 250 {
          WriteTrim(tempV - f);
        } else {
          WriteTrim(tempV + f);
        }
        f := f / 2;
        calCnt := ReadCount();
        seen := seen + [tempV];
        if tempD2 > tempD {
          tempD2 := tempD;
          tempCap := tempV;
        }
      }
      ProbesEnd(count, trim);
      assert seen == seen + Probes(count, trim, 0) == AllProbes(count);
      TracksIsBest(count, AllProbes(count), tempD2, tempCap);
      AllProbesAreEven(count);
      assert 1 <= trim <= 255 && written == old(written) + AllProbes(count) + [trim];
      WriteTrim(tempCap);
      PromiseKept(count, trim);
    }
  }
}

/** The ADC sampling of adc.c: eight raw words are clipped, insertion-sorted as they arrive, and the middle four
    averaged and scaled to millivolts. */
module Adc {
  import opened Arith

  const SAMPLES: nat := 8

  // ----- clipping -----

  /** Bit 13 is the sign: negative readings count as 0, others keep their 13 value bits. */
  function Clip(raw: bv32): (c: nat)
    ensures c <= 0x1FFF
  {
    if raw & 0x2000 != 0 then 0 else
      ValueBits(raw);
      (raw & 0x1FFF) as nat
  }

  lemma ValueBits(raw: bv32)
    ensures (raw & 0x1FFF) as nat <= 0x1FFF
  {
    assert raw & 0x1FFF <= 0x1FFF;
  }

  /** A reading is its 13 low bits, unless the bit above them is set; the bits further up do not matter. */
  lemma ClipMeans(value: bv32, rest: bv32)
    requires value < 0x2000
    ensures Clip(value | (rest << 14)) == value as nat
    ensures Clip(value | 0x2000 | (rest << 14)) == 0
  {
  }

  function Clipped(raws: seq<bv32>): (cs: seq<nat>)
    ensures |cs| == |raws|
  {
    seq(|raws|, i requires 0 <= i < |raws| => Clip(raws[i]))
  }

  // ----- order statistics -----

  ghost predicate Sorted(s: seq<nat>) {
    forall i, j | 0 <= i < j < |s| :: s[i] <= s[j]
  }

  /** How many samples are at most v. */
  ghost function CountUpTo(s: seq<nat>, v: int): nat {
    if s == [] then 0 else (if s[|s| - 1] <= v then 1 else 0) + CountUpTo(s[..|s| - 1], v)
  }

  ghost predicate SortedFrom(s: seq<nat>, xs: seq<nat>) {
    Sorted(s) && multiset(s) == multiset(xs)
  }

  lemma {:induction false} CountBounded(s: seq<nat>, v: int)
    ensures CountUpTo(s, v) <= |s|
    decreases |s|
  {
    if s != [] {
      CountBounded(s[..|s| - 1], v);
    }
  }

  lemma {:induction false} CountConcat(s: seq<nat>, t: seq<nat>, v: int)
    ensures CountUpTo(s + t, v) == CountUpTo(s, v) + CountUpTo(t, v)
    decreases |t|
  {
    if t == [] {
      assert s + t == s;
    } else {
      assert (s + t)[..|s + t| - 1] == s + t[..|t| - 1];
      CountConcat(s, t[..|t| - 1], v);
    }
  }

  /** Counting does not see the order. */
  lemma {:induction false} CountOfMultiset(s: seq<nat>, t: seq<nat>, v: int)
    requires multiset(s) == multiset(t)
    ensures CountUpTo(s, v) == CountUpTo(t, v)
    decreases |s|
  {
    if s == [] {
      assert |multiset(t)| == 0;
    } else {
      hide CountUpTo;
      var n := |s| - 1;
      var x := s[n];
      assert s == s[..n] + [x];
      assert x in multiset(t);
      var k :| 0 <= k < |t| && t[k] == x;
      CountWithout(t, k, v);
      CountWithout(s, n, v);
      assert s[..n] + s[n + 1..] == s[..n];
      CountOfMultiset(s[..n], t[..k] + t[k + 1..], v);
    }
  }

  /** Taking one element out. */
  lemma CountWithout(t: seq<nat>, k: nat, v: int)
    requires k < |t|
    ensures CountUpTo(t, v) == CountUpTo(t[..k] + t[k + 1..], v) + if t[k] <= v then 1 else 0
    ensures multiset(t[..k] + t[k + 1..]) == multiset(t) - multiset{t[k]}
  {
    assert t == t[..k] + ([t[k]] + t[k + 1..]);
    CountConcat(t[..k], [t[k]] + t[k + 1..], v);
    CountConcat([t[k]], t[k + 1..], v);
    CountConcat(t[..k], t[k + 1..], v);
    assert [t[k]][..0] == [];
  }

  /** In a sorted sequence the k-th element is at most v exactly when more than k elements are. */
  lemma {:induction false} KthByCount(s: seq<nat>, k: nat, v: int)
    requires Sorted(s) && k < |s|
    ensures s[k] <= v <==> CountUpTo(s, v) > k
    decreases |s|
  {
    var n := |s| - 1;
    CountBounded(s[..n], v);
    if s[n] <= v {
      AllCounted(s, v);
    } else if k < n {
      KthByCount(s[..n], k, v);
    }
  }

  lemma {:induction false} AllCounted(s: seq<nat>, v: int)
    requires forall i | 0 <= i < |s| :: s[i] <= v
    ensures CountUpTo(s, v) == |s|
    decreases |s|
  {
    if s != [] {
      AllCounted(s[..|s| - 1], v);
    }
  }

  lemma {:induction false} CountMonotone(xs: seq<nat>, ys: seq<nat>, v: int)
    requires |xs| == |ys| && forall i | 0 <= i < |xs| :: xs[i] <= ys[i]
    ensures CountUpTo(ys, v) <= CountUpTo(xs, v)
    decreases |xs|
  {
    if xs != [] {
      CountMonotone(xs[..|xs| - 1], ys[..|ys| - 1], v);
    }
  }

  // ----- insertion sort -----

  /** x goes in front of the larger elements at the end of s. */
  function Insert(s: seq<nat>, x: nat): (t: seq<nat>)
    ensures |t| == |s| + 1
  {
    if s == [] || s[|s| - 1] <= x then s + [x]
    else Insert(s[..|s| - 1], x) + [s[|s| - 1]]
  }

  /** The samples inserted in order of arrival. */
  function SortSamples(xs: seq<nat>): (s: seq<nat>)
    ensures |s| == |xs|
  {
    if xs == [] then [] else Insert(SortSamples(xs[..|xs| - 1]), xs[|xs| - 1])
  }

  lemma {:induction false} InsertSorts(s: seq<nat>, x: nat)
    requires Sorted(s)
    ensures Sorted(Insert(s, x)) && multiset(Insert(s, x)) == multiset(s) + multiset{x}
    ensures forall v | v in Insert(s, x) :: v in s || v == x
    decreases |s|
  {
    if s == [] || s[|s| - 1] <= x {
      SortedSnoc(s, x);
    } else {
      var n := |s| - 1;
      InsertSorts(s[..n], x);
      assert s == s[..n] + [s[n]];
      SortedSnoc(Insert(s[..n], x), s[n]);
    }
  }

  lemma SortedSnoc(s: seq<nat>, x: nat)
    requires Sorted(s) && forall v <- s :: v <= x
    ensures Sorted(s + [x])
  {
    forall i | 0 <= i < |s| ensures s[i] <= x {
      assert s[i] in s;
    }
  }

  /** Every prefix of the arrivals is kept sorted and complete. */
  lemma {:induction false} SortSamplesSorts(xs: seq<nat>)
    ensures SortedFrom(SortSamples(xs), xs)
    decreases |xs|
  {
    if xs != [] {
      var n := |xs| - 1;
      SortSamplesSorts(xs[..n]);
      InsertSorts(SortSamples(xs[..n]), xs[n]);
      assert xs == xs[..n] + [xs[n]];
    }
  }

  // ----- the trimmed mean -----

  /** The average of the middle four of the sorted samples. */
  function Mean(xs: seq<nat>): nat
    requires |xs| == SAMPLES
  {
    var s := SortSamples(xs);
    (s[2] + s[3] + s[4] + s[5]) / 4
  }

  /** Every sorted order of the samples is the one the sort arrives at. */
  lemma SortedOrderIsUnique(t: seq<nat>, xs: seq<nat>, k: nat)
    requires SortedFrom(t, xs) && k < |t| == |xs|
    ensures t[k] == SortSamples(xs)[k]
  {
    hide SortSamples;
    var s := SortSamples(xs);
    SortSamplesSorts(xs);
    KthByCount(s, k, t[k]);
    KthByCount(t, k, t[k]);
    CountOfMultiset(s, t, t[k]);
    KthByCount(s, k, s[k]);
    KthByCount(t, k, s[k]);
    CountOfMultiset(s, t, s[k]);
  }

  /** Which samples are averaged: however the eight are put in order, the third to the sixth; and rounded down. */
  lemma MeanOfMiddleFour(xs: seq<nat>, t: seq<nat>)
    requires |xs| == |t| == SAMPLES && SortedFrom(t, xs)
    ensures 4 * Mean(xs) <= t[2] + t[3] + t[4] + t[5] < 4 * Mean(xs) + 4
  {
    hide SortSamples, SortedFrom;
    SortedOrderIsUnique(t, xs, 2);
    SortedOrderIsUnique(t, xs, 3);
    SortedOrderIsUnique(t, xs, 4);
    SortedOrderIsUnique(t, xs, 5);
  }

  lemma MeanOfSorted(xs: seq<nat>, s: seq<nat>)
    requires |xs| == SAMPLES && s == SortSamples(xs)
    ensures (s[2] + s[3] + s[4] + s[5]) / 4 == Mean(xs)
  {
  }

  lemma MeanOfAnyOrder(xs: seq<nat>)
    requires |xs| == SAMPLES
    ensures forall t: seq<nat> | |t| == SAMPLES && SortedFrom(t, xs) ::
      4 * Mean(xs) <= t[2] + t[3] + t[4] + t[5] < 4 * Mean(xs) + 4
  {
    hide Mean, SortedFrom;
    forall t: seq<nat> | |t| == SAMPLES && SortedFrom(t, xs)
      ensures 4 * Mean(xs) <= t[2] + t[3] + t[4] + t[5] < 4 * Mean(xs) + 4
    {
      MeanOfMiddleFour(xs, t);
    }
  }

  lemma SortedIsMonotone(xs: seq<nat>, ys: seq<nat>, k: nat)
    requires |xs| == |ys| && k < |xs|
    requires forall v :: CountUpTo(ys, v) <= CountUpTo(xs, v)
    ensures SortSamples(xs)[k] <= SortSamples(ys)[k]
  {
    var s, t := SortSamples(xs), SortSamples(ys);
    SortSamplesSorts(xs);
    SortSamplesSorts(ys);
    KthByCount(t, k, t[k]);
    CountOfMultiset(t, ys, t[k]);
    CountOfMultiset(s, xs, t[k]);
    KthByCount(s, k, t[k]);
  }

  lemma MeanByCount(xs: seq<nat>, ys: seq<nat>)
    requires |xs| == |ys| == SAMPLES
    requires forall v :: CountUpTo(ys, v) <= CountUpTo(xs, v)
    ensures Mean(xs) <= Mean(ys)
  {
    hide SortSamples, CountUpTo;
    SortedIsMonotone(xs, ys, 2);
    SortedIsMonotone(xs, ys, 3);
    SortedIsMonotone(xs, ys, 4);
    SortedIsMonotone(xs, ys, 5);
  }

  /** The mean is monotone in every single sample. */
  lemma MeanIsMonotone(xs: seq<nat>, ys: seq<nat>)
    requires |xs| == |ys| == SAMPLES && forall i | 0 <= i < SAMPLES :: xs[i] <= ys[i]
    ensures Mean(xs) <= Mean(ys)
  {
    hide Mean;
    forall v ensures CountUpTo(ys, v) <= CountUpTo(xs, v) {
      CountMonotone(xs, ys, v);
    }
    MeanByCount(xs, ys);
  }

  /** The mean does not depend on the order of arrival. */
  lemma MeanIgnoresOrder(xs: seq<nat>, ys: seq<nat>)
    requires |xs| == |ys| == SAMPLES && multiset(xs) == multiset(ys)
    ensures Mean(xs) == Mean(ys)
  {
    hide Mean;
    forall v ensures CountUpTo(ys, v) == CountUpTo(xs, v) {
      CountOfMultiset(xs, ys, v);
    }
    MeanByCount(xs, ys);
    MeanByCount(ys, xs);
  }

  /** All samples but those at i and j lie in [lo, hi]. */
  ghost predicate AllButTwo(xs: seq<nat>, i: nat, j: nat, lo: nat, hi: nat) {
    forall k | 0 <= k < |xs| && k != i && k != j :: lo <= xs[k] <= hi
  }

  /** How many of the first n positions are neither i nor j. */
  function Others(i: nat, j: nat, n: nat): nat {
    if n == 0 then 0 else (if n - 1 == i || n - 1 == j then 0 else 1) + Others(i, j, n - 1)
  }

  lemma {:induction false} CountAllButTwo(xs: seq<nat>, i: nat, j: nat, lo: nat, hi: nat)
    requires AllButTwo(xs, i, j, lo, hi)
    ensures Others(i, j, |xs|) <= CountUpTo(xs, hi)
    ensures CountUpTo(xs, lo - 1) <= |xs| - Others(i, j, |xs|)
    decreases |xs|
  {
    if xs != [] {
      CountAllButTwo(xs[..|xs| - 1], i, j, lo, hi);
    }
  }

  lemma {:induction false} AtLeastAllButTwo(i: nat, j: nat, n: nat)
    ensures Others(i, j, n) >= n - (if i < n then 1 else 0) - (if j < n && j != i then 1 else 0)
    decreases n
  {
    if n > 0 {
      AtLeastAllButTwo(i, j, n - 1);
    }
  }

  /** Robustness: however wild two of the eight samples are, the mean stays within the range of the other six. */
  lemma MeanIsRobust(xs: seq<nat>, i: nat, j: nat, lo: nat, hi: nat)
    requires |xs| == SAMPLES && AllButTwo(xs, i, j, lo, hi)
    ensures lo <= Mean(xs) <= hi
  {
    var s := SortSamples(xs);
    SortSamplesSorts(xs);
    CountAllButTwo(xs, i, j, lo, hi);
    AtLeastAllButTwo(i, j, SAMPLES);
    CountOfMultiset(s, xs, hi);
    CountOfMultiset(s, xs, lo - 1);
    KthByCount(s, 5, hi);
    KthByCount(s, 2, lo - 1);
    assert s[2] <= s[3] <= s[4] <= s[5];
  }

  lemma SortNone()
    ensures SortSamples([]) == []
  {
  }

  lemma SortOneMore(xs: seq<nat>, i: nat)
    requires i < |xs|
    ensures SortSamples(xs[..i + 1]) == Insert(SortSamples(xs[..i]), xs[i])
  {
    assert xs[..i + 1][..i] == xs[..i];
  }

  lemma {:induction false} InsertAt(s: seq<nat>, p: nat, x: nat)
    requires p <= |s| && (p == 0 || s[p - 1] <= x) && forall k | p <= k < |s| :: s[k] > x
    ensures Insert(s, x) == s[..p] + [x] + s[p..]
    decreases |s|
  {
    if p < |s| {
      var n := |s| - 1;
      InsertAt(s[..n], p, x);
      assert s[..n][p..] + [s[n]] == s[p..];
    } else {
      assert s[..p] == s && s[p..] == [];
    }
  }

  /** A sequence that is s with x moved in at p, all larger elements after it, is the insertion. */
  lemma InsertPlaces(t: seq<nat>, s: seq<nat>, p: nat, x: nat)
    requires p <= |s| && (p == 0 || s[p - 1] <= x) && forall k | p <= k < |s| :: s[k] > x
    requires |t| == |s| + 1 && t[p] == x
    requires (forall k | 0 <= k < p :: t[k] == s[k]) && forall k | p < k <= |s| :: t[k] == s[k - 1]
    ensures t == Insert(s, x)
  {
    InsertAt(s, p, x);
    assert t == s[..p] + [x] + s[p..];
  }

  lemma MeanOfClipped(raw: seq<bv32>)
    requires |raw| == SAMPLES
    ensures Mean(Clipped(raw)) <= 0x1FFF
  {
    MeanIsRobust(Clipped(raw), 0, 0, 0, 0x1FFF);
  }

  /** The scaled product fits a signed 32-bit integer, and the result is below full scale. */
  lemma Millivolts(code: nat, scale: nat, vref: nat)
    requires code <= 0x1FFF && scale in {1, 2, 4, 8} && 0 < vref <= 32767
    ensures code * scale * vref < 0x8000_0000
    ensures code * scale * vref / 0x2000 < scale * vref
  {
    var p := scale * vref;
    MulMono(code, 0x1FFF, p);
    MulMono(scale, 8, vref);
    MulMono(1, scale, vref);
    assert code * scale * vref == code * p;
  }

  // ----- the driver -----

  class AdcDriver {
    var adcCode: nat
    var adcPreScale: nat
    var adcVref: nat

    constructor (vref: nat)
      ensures adcVref == vref && adcPreScale == 1
    {
      adcCode, adcPreScale, adcVref := 0, 1, vref;
    }

    predicate GoodScale()
      reads this
    {
      adcPreScale in {1, 2, 4, 8} && 0 < adcVref <= 32767
    }

    /** The four scaling factors 1, 1/2, 1/4 and 1/8 are undone by multiplying with 1, 2, 4 and 8. */
    method SetAinPreScaler(vScl: nat)
      requires vScl <= 3
      modifies this`adcPreScale
      ensures adcPreScale == [1, 2, 4, 8][vScl]
    {
      adcPreScale := ((1 as bv8) << vScl) as nat;
    }

    /** One arrival: sample i moves down past the larger ones before it. */
    static method InsertSample(a: array<nat>, i: nat)
      requires i < a.Length
      modifies a
      ensures a[..i + 1] == Insert(old(a[..i]), old(a[i]))
      ensures forall k | i < k < a.Length :: a[k] == old(a[k])
    {
      hide Insert;
      ghost var s := a[..i];
      if i > 0 {
        if a[i] < a[i - 1] {
          var temp := a[i];
          a[i] := a[i - 1];
          var j: int := i - 1;
          while j >= 0 && a[j] > temp
            invariant -1 <= j < i
            invariant forall k | 0 <= k <= j :: a[k] == s[k]
            invariant forall k | j + 2 <= k <= i :: a[k] == s[k - 1]
            invariant forall k | i < k < a.Length :: a[k] == old(a[k])
            invariant forall k | j < k < i :: s[k] > temp
          {
            a[j + 1] := a[j];
            j := j - 1;
          }
          a[j + 1] := temp;
          InsertPlaces(a[..i + 1], s, j + 1, temp);
          return;
        }
      }
      InsertPlaces(a[..i + 1], s, i, a[i]);
    }

    /** The clipping of one reading. */
    static method ClipSample(raw: bv32) returns (c: nat)
      ensures c == Clip(raw)
    {
      if raw & 0x2000 != 0 {
        c := 0;
      } else {
        ValueBits(raw);
        c := (raw & 0x1FFF) as nat;
      }
    }

    /** The sort: every reading is clipped and moved to its place as it arrives. */
    static method SortReadings(raw: seq<bv32>) returns (a: array<nat>)
      requires |raw| == SAMPLES
      ensures fresh(a) && a.Length == SAMPLES && a[..] == SortSamples(Clipped(raw))
    {
      hide Insert, SortSamples, Clip;
      SortNone();
      a := new nat[SAMPLES](_ => 0);
      for i := 0 to SAMPLES
        invariant a[..i] == SortSamples(Clipped(raw)[..i])
      {
        var sample := ClipSample(raw[i]);
        a[i] := sample;
        SortOneMore(Clipped(raw), i);
        InsertSample(a, i);
      }
      assert Clipped(raw)[..SAMPLES] == Clipped(raw) && a[..SAMPLES] == a[..];
    }

    method SampleAndGetResult(raw: seq<bv32>) returns (mv: nat)
      requires |raw| == SAMPLES && GoodScale()
      modifies this`adcCode
      ensures adcCode == Mean(Clipped(raw))
      ensures forall t: seq<nat> | |t| == SAMPLES && SortedFrom(t, Clipped(raw)) ::
        4 * adcCode <= t[2] + t[3] + t[4] + t[5] < 4 * adcCode + 4
      ensures adcCode * adcPreScale * adcVref < 0x8000_0000
      ensures mv == adcCode * adcPreScale * adcVref / 0x2000 < adcPreScale * adcVref
    {
      hide SortSamples, SortedFrom, Clipped, Mean;
      var a := SortReadings(raw);
      MeanOfSorted(Clipped(raw), a[..]);
      adcCode := (a[2] + a[3] + a[4] + a[5]) / 4;
      MeanOfAnyOrder(Clipped(raw));
      MeanOfClipped(raw);
      Millivolts(adcCode, adcPreScale, adcVref);
      mv := adcCode * adcPreScale * adcVref / 0x2000;
    }
  }
}

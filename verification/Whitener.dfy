/** The feedback register of random.c that whitens the low bits of ADC samples: no information is lost, neither of
    the samples nor of the register. */
module Whitener {

  /** The 16 state bits, bit 0 (the newest) first. */
  type Bits = b: seq<bool> | |b| == 16 witness seq(16, _ => false)

  function Xor(a: bool, b: bool): bool {
    a != b
  }

  function Taps(b: Bits): bool {
    Xor(Xor(b[15], b[13]), Xor(b[4], b[0]))
  }

  function Feed(b: Bits, x: bool): bool {
    Xor(x, Taps(b))
  }

  function Step(b: Bits, x: bool): Bits {
    [Feed(b, x)] + b[..15]
  }

  function Run(b: Bits, xs: seq<bool>): Bits
    decreases |xs|
  {
    if xs == [] then b else Step(Run(b, xs[..|xs| - 1]), xs[|xs| - 1])
  }

  lemma RunOfNone(b: Bits)
    ensures Run(b, []) == b
  {
  }

  lemma RunOneMore(b: Bits, xs: seq<bool>, i: nat)
    requires i < |xs|
    ensures Run(b, xs[..i + 1]) == Step(Run(b, xs[..i]), xs[i])
  {
    assert xs[..i + 1][..i] == xs[..i];
  }

  function Reverse(xs: seq<bool>): (ys: seq<bool>)
    ensures |ys| == |xs|
  {
    seq(|xs|, i requires 0 <= i < |xs| => xs[|xs| - 1 - i])
  }

  lemma ReverseTwice(xs: seq<bool>)
    ensures Reverse(Reverse(xs)) == xs
  {
  }

  // ----- samples in, result out -----

  /** The bits fed into the register along a run. */
  function Feeds(b: Bits, xs: seq<bool>): (fs: seq<bool>)
    ensures |fs| == |xs|
    decreases |xs|
  {
    if xs == [] then [] else
      var xs' := xs[..|xs| - 1];
      Feeds(b, xs') + [Feed(Run(b, xs'), xs[|xs| - 1])]
  }

  /** The samples that would have fed these bits. */
  function Samples(b: Bits, fs: seq<bool>): (xs: seq<bool>)
    ensures |xs| == |fs|
    decreases |fs|
  {
    if fs == [] then [] else
      var xs' := Samples(b, fs[..|fs| - 1]);
      xs' + [Feed(Run(b, xs'), fs[|fs| - 1])]
  }

  /** After n samples the n newest bits are the ones fed in, newest first. */
  lemma {:induction false} RunShiftsIn(b: Bits, xs: seq<bool>)
    requires |xs| <= 16
    ensures Run(b, xs) == Reverse(Feeds(b, xs)) + b[..16 - |xs|]
    decreases |xs|
  {
    if xs != [] {
      hide Feed, Run, Feeds, Reverse;
      var n := |xs| - 1;
      var fs, f := Feeds(b, xs[..n]), Feed(Run(b, xs[..n]), xs[n]);
      RunShiftsIn(b, xs[..n]);
      assert xs == xs[..n] + [xs[n]];
      FeedsAppend(b, xs[..n], xs[n]);
      ReverseGrow(fs, f);
      RunAppend(b, xs[..n], xs[n]);
      ShiftJoin(b, Reverse(fs), f);
    } else {
      RunOfNone(b);
      assert Reverse(Feeds(b, xs)) == [] && b[..16] == b;
    }
  }

  lemma RunAppend(b: Bits, xs: seq<bool>, x: bool)
    ensures Run(b, xs + [x]) == [Feed(Run(b, xs), x)] + Run(b, xs)[..15]
  {
    assert (xs + [x])[..|xs|] == xs;
  }

  lemma ShiftJoin(b: Bits, r: seq<bool>, f: bool)
    requires |r| < 16
    ensures [f] + (r + b[..16 - |r|])[..15] == [f] + r + b[..15 - |r|]
  {
  }

  lemma ReverseGrow(fs: seq<bool>, f: bool)
    ensures Reverse(fs + [f]) == [f] + Reverse(fs)
  {
  }

  lemma FeedTwice(b: Bits, x: bool)
    ensures Feed(b, Feed(b, x)) == x
  {
  }

  lemma {:induction false} FeedsOfSamples(b: Bits, fs: seq<bool>)
    ensures Feeds(b, Samples(b, fs)) == fs
    decreases |fs|
  {
    if fs == [] {
      NoSamples(b);
    } else {
      hide *;
      var n := |fs| - 1;
      var xs := Samples(b, fs[..n]);
      var r := Run(b, xs);
      FeedsOfSamples(b, fs[..n]);
      assert fs == fs[..n] + [fs[n]];
      SamplesGrow(b, fs[..n], fs[n]);
      FeedsAppend(b, xs, Feed(r, fs[n]));
      FeedTwice(r, fs[n]);
    }
  }

  lemma FeedsAppend(b: Bits, xs: seq<bool>, x: bool)
    ensures Feeds(b, xs + [x]) == Feeds(b, xs) + [Feed(Run(b, xs), x)]
  {
    assert (xs + [x])[..|xs|] == xs;
  }

  lemma {:induction false} SamplesOfFeeds(b: Bits, xs: seq<bool>)
    ensures Samples(b, Feeds(b, xs)) == xs
    decreases |xs|
  {
    if xs == [] {
      NoSamples(b);
    } else {
      hide *;
      var n := |xs| - 1;
      var fs, r := Feeds(b, xs[..n]), Run(b, xs[..n]);
      SamplesOfFeeds(b, xs[..n]);
      assert xs == xs[..n] + [xs[n]];
      FeedsAppend(b, xs[..n], xs[n]);
      SamplesGrow(b, fs, Feed(r, xs[n]));
      FeedTwice(r, xs[n]);
    }
  }

  lemma NoSamples(b: Bits)
    ensures Samples(b, Feeds(b, [])) == [] && Feeds(b, Samples(b, [])) == []
  {
  }

  lemma SamplesGrow(b: Bits, fs: seq<bool>, f: bool)
    ensures Samples(b, fs + [f]) == Samples(b, fs) + [Feed(Run(b, Samples(b, fs)), f)]
  {
    assert (fs + [f])[..|fs|] == fs;
  }

  /** From any fixed state the 16 samples and the 16-bit result determine each other. */
  lemma SamplesAndResultOneToOne(b: Bits, xs: seq<bool>, result: Bits)
    requires |xs| == 16
    ensures Run(b, xs) == result <==> xs == Samples(b, Reverse(result))
  {
    RunShiftsIn(b, xs);
    assert Run(b, xs) == Reverse(Feeds(b, xs));
    ReverseTwice(Feeds(b, xs));
    ReverseTwice(result);
    SamplesOfFeeds(b, xs);
    FeedsOfSamples(b, Reverse(result));
  }

  // ----- state in, state out -----

  function Back(t: Bits, x: bool): Bits {
    t[1..] + [Xor(Xor(t[0], x), Xor(t[14], Xor(t[5], t[1])))]
  }

  function RunBack(t: Bits, xs: seq<bool>): Bits
    decreases |xs|
  {
    if xs == [] then t else RunBack(Back(t, xs[|xs| - 1]), xs[..|xs| - 1])
  }

  lemma BackUndoesStep(b: Bits, x: bool)
    ensures Back(Step(b, x), x) == b && Step(Back(b, x), x) == b
  {
    var t := Step(b, x);
    assert t[1..] == b[..15];
    assert Back(t, x) == b[..15] + [b[15]];
    assert Back(b, x)[..15] == b[1..];
  }

  /** For any fixed samples, however many, the map from starting state to final state is a bijection. */
  lemma {:induction false} RunIsBijective(b: Bits, xs: seq<bool>)
    ensures RunBack(Run(b, xs), xs) == b && Run(RunBack(b, xs), xs) == b
    decreases |xs|
  {
    if xs != [] {
      var n := |xs| - 1;
      BackUndoesStep(Run(b, xs[..n]), xs[n]);
      RunIsBijective(b, xs[..n]);
      BackUndoesStep(b, xs[n]);
      RunIsBijective(Back(b, xs[n]), xs[..n]);
    }
  }

  // ----- the register -----

  function Bit(r: bv32, mask: bv32): bool {
    r & mask != 0
  }

  /** Bits 0..15 of the 32-bit union. */
  function LowBits(r: bv32): Bits {
    [Bit(r, 0x1), Bit(r, 0x2), Bit(r, 0x4), Bit(r, 0x8), Bit(r, 0x10), Bit(r, 0x20), Bit(r, 0x40), Bit(r, 0x80),
     Bit(r, 0x100), Bit(r, 0x200), Bit(r, 0x400), Bit(r, 0x800), Bit(r, 0x1000), Bit(r, 0x2000), Bit(r, 0x4000),
     Bit(r, 0x8000)]
  }

  /** The register after the tapped bits are folded into bit 16 and everything is shifted up by one. */
  function Made(r: bv32): bv32 {
    var bit16 := ((r >> 16) ^ (r >> 15) ^ (r >> 13) ^ (r >> 4) ^ r) & 1;
    var s := (r & 0xFFFE_FFFF) | (bit16 << 16);
    if bit16 != 0 then (s << 1) + 1 else s << 1
  }

  /** Bits 1..15 of t are bits 0..14 of r. */
  ghost predicate ShiftedUp(r: bv32, t: bv32) {
    && Bit(t, 0x2) == Bit(r, 0x1) && Bit(t, 0x4) == Bit(r, 0x2) && Bit(t, 0x8) == Bit(r, 0x4)
    && Bit(t, 0x10) == Bit(r, 0x8) && Bit(t, 0x20) == Bit(r, 0x10) && Bit(t, 0x40) == Bit(r, 0x20)
    && Bit(t, 0x80) == Bit(r, 0x40) && Bit(t, 0x100) == Bit(r, 0x80) && Bit(t, 0x200) == Bit(r, 0x100)
    && Bit(t, 0x400) == Bit(r, 0x200) && Bit(t, 0x800) == Bit(r, 0x400) && Bit(t, 0x1000) == Bit(r, 0x800)
    && Bit(t, 0x2000) == Bit(r, 0x1000) && Bit(t, 0x4000) == Bit(r, 0x2000) && Bit(t, 0x8000) == Bit(r, 0x4000)
  }

  /** Bit 0 of t is bit 16 of r with the tapped bits folded in. */
  ghost predicate FedFrom(r: bv32, t: bv32) {
    Bit(t, 0x1) == Xor(Bit(r, 0x1_0000), Xor(Xor(Bit(r, 0x8000), Bit(r, 0x2000)), Xor(Bit(r, 0x10), Bit(r, 0x1))))
  }

  lemma MadeShifts(r: bv32)
    ensures ShiftedUp(r, Made(r))
  {
  }

  lemma MadeFeeds(r: bv32)
    ensures FedFrom(r, Made(r))
  {
  }

  /** Which single bits come back in from below: 0, 4, 13, 15 and the sample. */
  lemma FedBackExactly(k: nat)
    requires k < 32
    ensures Made(1 << k) & 1 == if k in {0, 4, 13, 15, 16} then 1 else 0
  {
  }

  lemma ShiftedUpBits(r: bv32, t: bv32)
    requires ShiftedUp(r, t)
    ensures LowBits(t)[1..] == LowBits(r)[..15]
  {
    hide Bit;
  }

  lemma FedBit(r: bv32, t: bv32)
    requires FedFrom(r, t)
    ensures LowBits(t)[0] == Feed(LowBits(r), Bit(r, 0x1_0000))
  {
    hide Bit;
  }

  /** On the low half, the register does one step with bit 16 as the sample. */
  lemma MadeIsStep(r: bv32)
    ensures LowBits(Made(r)) == Step(LowBits(r), Bit(r, 0x1_0000))
  {
    hide Made, Bit, LowBits, ShiftedUp, FedFrom, Feed;
    MadeShifts(r);
    ShiftedUpBits(r, Made(r));
    MadeFeeds(r);
    FedBit(r, Made(r));
    assert LowBits(Made(r)) == [LowBits(Made(r))[0]] + LowBits(Made(r))[1..];
  }

  /** The register masked to 16 bits, with the low bit of the sample on top. */
  function Loaded(r: bv32, sample: bv32): bv32 {
    if sample & 1 != 0 then (r & 0xFFFF) | 0x1_0000 else r & 0xFFFF
  }

  lemma LoadedBits(r: bv32, sample: bv32)
    ensures LowBits(Loaded(r, sample)) == LowBits(r) && Bit(Loaded(r, sample), 0x1_0000) == (sample & 1 != 0)
  {
    hide LowBits;
    LoadedMask(r, sample);
    MaskedBits(r, Loaded(r, sample));
  }

  lemma LoadedMask(r: bv32, sample: bv32)
    ensures Loaded(r, sample) & 0xFFFF == r & 0xFFFF
    ensures Bit(Loaded(r, sample), 0x1_0000) == (sample & 1 != 0)
  {
  }

  lemma MaskedBits(r: bv32, t: bv32)
    requires t & 0xFFFF == r & 0xFFFF
    ensures LowBits(t) == LowBits(r)
  {
    MaskedBitsEqual(r, t);
    hide Bit;
  }

  ghost predicate SameLowBits(r: bv32, t: bv32) {
    && Bit(t, 0x1) == Bit(r, 0x1) && Bit(t, 0x2) == Bit(r, 0x2) && Bit(t, 0x4) == Bit(r, 0x4)
    && Bit(t, 0x8) == Bit(r, 0x8) && Bit(t, 0x10) == Bit(r, 0x10) && Bit(t, 0x20) == Bit(r, 0x20)
    && Bit(t, 0x40) == Bit(r, 0x40) && Bit(t, 0x80) == Bit(r, 0x80) && Bit(t, 0x100) == Bit(r, 0x100)
    && Bit(t, 0x200) == Bit(r, 0x200) && Bit(t, 0x400) == Bit(r, 0x400) && Bit(t, 0x800) == Bit(r, 0x800)
    && Bit(t, 0x1000) == Bit(r, 0x1000) && Bit(t, 0x2000) == Bit(r, 0x2000) && Bit(t, 0x4000) == Bit(r, 0x4000)
    && Bit(t, 0x8000) == Bit(r, 0x8000)
  }

  lemma MaskedBitsEqual(r: bv32, t: bv32)
    requires t & 0xFFFF == r & 0xFFFF
    ensures SameLowBits(r, t)
  {
    hide Bit;
    MaskedBit(r, t, 0x1); MaskedBit(r, t, 0x2); MaskedBit(r, t, 0x4); MaskedBit(r, t, 0x8);
    MaskedBit(r, t, 0x10); MaskedBit(r, t, 0x20); MaskedBit(r, t, 0x40); MaskedBit(r, t, 0x80);
    MaskedBit(r, t, 0x100); MaskedBit(r, t, 0x200); MaskedBit(r, t, 0x400); MaskedBit(r, t, 0x800);
    MaskedBit(r, t, 0x1000); MaskedBit(r, t, 0x2000); MaskedBit(r, t, 0x4000); MaskedBit(r, t, 0x8000);
  }

  lemma MaskedBit(r: bv32, t: bv32, mask: bv32)
    requires t & 0xFFFF == r & 0xFFFF && mask & 0xFFFF == mask
    ensures Bit(t, mask) == Bit(r, mask)
  {
    AndAssoc(r, 0xFFFF, mask);
    AndAssoc(t, 0xFFFF, mask);
    assert 0xFFFF & mask == mask;
  }

  lemma AndAssoc(x: bv32, y: bv32, z: bv32)
    ensures (x & y) & z == x & (y & z)
  {
  }

  /** The cast (unsigned short)r; it keeps exactly the state bits. */
  function Low16(r: bv32): (t: bv16)
    ensures t as bv32 == r & 0xFFFF
  {
    (r & 0xFFFF) as bv16
  }

  lemma Low16IsState(r: bv32)
    ensures LowBits(Low16(r) as bv32) == LowBits(r)
  {
    MaskedBits(r, r & 0xFFFF);
  }

  lemma BitsDetermine(r: bv32, t: bv32)
    requires SameLowBits(r, t)
    ensures r & 0xFFFF == t & 0xFFFF
  {
  }

  lemma SameListSameBits(r: bv32, t: bv32)
    requires LowBits(r) == LowBits(t)
    ensures SameLowBits(r, t)
  {
    hide Bit;
    var b, c := LowBits(r), LowBits(t);
    assert b[0] == c[0] && b[1] == c[1] && b[2] == c[2] && b[3] == c[3];
    assert b[4] == c[4] && b[5] == c[5] && b[6] == c[6] && b[7] == c[7];
    assert b[8] == c[8] && b[9] == c[9] && b[10] == c[10] && b[11] == c[11];
    assert b[12] == c[12] && b[13] == c[13] && b[14] == c[14] && b[15] == c[15];
  }

  lemma LowBitsDetermine(r: bv32, t: bv16)
    requires LowBits(r) == LowBits(t as bv32)
    ensures Low16(r) == t
  {
    hide *;
    LowBitsMask(r, t as bv32);
    CastDetermines(r, t);
  }

  lemma LowBitsMask(r: bv32, t: bv32)
    requires LowBits(r) == LowBits(t)
    ensures r & 0xFFFF == t & 0xFFFF
  {
    hide *;
    SameListSameBits(r, t);
    BitsDetermine(r, t);
  }

  lemma CastDetermines(r: bv32, t: bv16)
    requires r & 0xFFFF == (t as bv32) & 0xFFFF
    ensures Low16(r) == t
  {
  }

  /** The whitener loses nothing of the samples: whatever word the register starts from, every 16-bit result comes
      from exactly one choice of the 16 low bits. */
  lemma EveryResultOnce(start: bv32, end: bv32, xs: seq<bool>, t: bv16)
    requires |xs| == 16 && LowBits(end) == Run(LowBits(start), xs)
    ensures Low16(end) == t <==> xs == Samples(LowBits(start), Reverse(LowBits(t as bv32)))
  {
    hide LowBits, Low16, Run, Samples, Reverse;
    SamplesAndResultOneToOne(LowBits(start), xs, LowBits(t as bv32));
    Low16IsState(end);
    if LowBits(end) == LowBits(t as bv32) {
      LowBitsDetermine(end, t);
    }
  }

  class Sampler {
    var rng: bv32

    constructor ()
      ensures rng == 0xFFFF
    {
      rng := 0xFFFF;
    }

    /** The statements of rng_made on the 32-bit word: bit 16 holds the sample, takes in the tapped bits and comes
        back in from below as the word is shifted. */
    static method Make(word: bv32) returns (r: bv32)
      ensures r == Made(word)
    {
      r := word;
      var bit16 := ((r >> 16) ^ (r >> 15) ^ (r >> 13) ^ (r >> 4) ^ r) & 1;
      r := (r & 0xFFFE_FFFF) | (bit16 << 16);
      if bit16 != 0 {
        r := (r << 1) + 1;
      } else {
        r := r << 1;
      }
    }

    method RngMade() returns (result: bv16)
      modifies this
      ensures LowBits(rng) == Step(LowBits(old(rng)), Bit(old(rng), 0x1_0000))
      ensures ShiftedUp(old(rng), rng) && FedFrom(old(rng), rng)
      ensures result == Low16(rng)
    {
      hide LowBits, Step, Made, Bit, Low16, ShiftedUp, FedFrom;
      MadeIsStep(rng);
      MadeShifts(rng);
      MadeFeeds(rng);
      rng := Make(rng);
      result := Low16(rng);
    }

    /** Mask the register to 16 bits and put the sample's low bit on top. */
    static method Load(word: bv32, sample: bv32) returns (r: bv32)
      ensures r == Loaded(word, sample)
    {
      r := word & 0x0000_FFFF;
      if sample & 1 != 0 {
        r := r | 0x1_0000;
      }
    }

    /** One result from 16 samples: the run of the register over their low bits. */
    method AdcRngResult(adcDat: seq<bv32>) returns (result: bv16)
      requires |adcDat| == 16
      modifies this
      ensures LowBits(rng) == Run(LowBits(old(rng)), seq(16, i requires 0 <= i < 16 => adcDat[i] & 1 != 0))
      ensures result == Low16(rng)
    {
      hide LowBits, Step, Run, Bit, Low16, Loaded, ShiftedUp, FedFrom;
      ghost var xs := seq(16, i requires 0 <= i < 16 => adcDat[i] & 1 != 0);
      RunOfNone(LowBits(rng));
      assert xs[..0] == [];
      result := 0;
      for i := 0 to 16
        invariant LowBits(rng) == Run(LowBits(old(rng)), xs[..i])
        invariant i > 0 ==> result == Low16(rng)
      {
        RunOneMore(LowBits(old(rng)), xs, i);
        LoadedBits(rng, adcDat[i]);
        rng := Load(rng, adcDat[i]);
        result := RngMade();
      }
      assert xs[..16] == xs;
    }
  }
}

/** The cell protocols carried down to the chip's bytes: an accepted region of flash behaves as its words,
    nothing outside it changes, and the value cell is a variable on the real chip as well. */
module CellsOnChip {
  import opened Arith
  import opened Bytes
  import opened NorChip
  import opened FlashDriver
  import opened Cells
  import opened MeshExtend
  import ValueCell
  import LimitedCell
  import RecordCell

  /** Region [adr, adr + 4 n) lies on the chip and the guard lets the driver write it. */
  ghost predicate Writable(l: Layout, adr: u32, n: nat) {
    l.Valid() && n > 0 && adr + 4 * n <= CAPACITY && l.Accepts(adr, 4 * n)
  }

  /** Which regions those are: the ones clear of the firmware, and the four bytes at boot + 8. */
  lemma WritableExactly(l: Layout, adr: u32, n: nat)
    requires l.Valid() && n > 0
    ensures Writable(l, adr, n) <==> l.Clear(adr, 4 * n) || (adr == l.Boot() + 8 && n == 1)
  {
    FirmwareRange(l);
    if adr + 4 * n <= CAPACITY {
      AcceptsExactly(l, adr, 4 * n);
    }
  }

  ghost predicate SameOutside(m: Mem, m': Mem, adr: nat, len: nat) {
    forall i | 0 <= i < CAPACITY && !(adr <= i < adr + len) :: m'[i] == m[i]
  }

  /** Word operations that keep to a region of n words; only a whole sector can be erased. */
  predicate Inside(adr: u32, n: nat, op: WordOp) {
    match op
    case Put(slot, data) => |data| % 4 == 0 && slot + |data| / 4 <= n
    case Wipe => adr % SECTOR == 0 && 4 * n == SECTOR
  }

  // ----- one operation -----

  lemma AndRangeOnWords(m: Mem, adr: nat, n: nat, slot: nat, data: seq<bv8>)
    requires adr + 4 * n <= CAPACITY && |data| % 4 == 0 && slot + |data| / 4 <= n
    ensures RegionWords(AndRange(m, adr + 4 * slot, data), adr, n) == ApplyWord(RegionWords(m, adr, n), Put(slot, data))
  {
    hide ToWord, AndRange;
    forall i | 0 <= i < n
      ensures RegionWords(AndRange(m, adr + 4 * slot, data), adr, n)[i]
              == ApplyWord(RegionWords(m, adr, n), Put(slot, data))[i]
    {
      AndRangeOnWord(m, adr, slot, data, i);
    }
  }

  lemma AndRangeOnWord(m: Mem, adr: nat, slot: nat, data: seq<bv8>, i: nat)
    requires |data| % 4 == 0 && adr + 4 * i + 4 <= CAPACITY
    ensures var a, m' := adr + 4 * i, AndRange(m, adr + 4 * slot, data);
            ToWord(m'[a..a + 4]) ==
            if slot <= i < slot + |data| / 4
            then ToWord(m[a..a + 4]) & ToWord(data[4 * (i - slot)..4 * (i - slot) + 4])
            else ToWord(m[a..a + 4])
  {
    hide ToWord, AndRange;
    var base, a, k := adr + 4 * slot, adr + 4 * i, 4 * (i - slot);
    if slot <= i < slot + |data| / 4 {
      assert k + 4 <= |data| && a == base + k;
      AndRangeCovers(m, base, data, k);
    } else {
      assert a + 4 <= base || base + |data| <= a;
      AndRangeMisses(m, base, data, a);
    }
  }

  lemma AndRangeCovers(m: Mem, base: nat, data: seq<bv8>, k: nat)
    requires k + 4 <= |data| && base + k + 4 <= CAPACITY
    ensures ToWord(AndRange(m, base, data)[base + k..base + k + 4])
            == ToWord(m[base + k..base + k + 4]) & ToWord(data[k..k + 4])
  {
    hide ToWord, AndRange;
    var m', a := AndRange(m, base, data), base + k;
    var b, c := m[a..a + 4], data[k..k + 4];
    AndRangeAt(m, base, data, k);
    AndRangeAt(m, base, data, k + 1);
    AndRangeAt(m, base, data, k + 2);
    AndRangeAt(m, base, data, k + 3);
    AndIsBytewise(b, c, m'[a..a + 4]);
  }

  lemma AndRangeAt(m: Mem, base: nat, data: seq<bv8>, k: nat)
    requires k < |data| && base + k < CAPACITY
    ensures AndRange(m, base, data)[base + k] == m[base + k] & data[k]
  {
  }

  lemma AndRangeMisses(m: Mem, base: nat, data: seq<bv8>, a: nat)
    requires a + 4 <= CAPACITY && (a + 4 <= base || base + |data| <= a)
    ensures AndRange(m, base, data)[a..a + 4] == m[a..a + 4]
  {
  }

  lemma EraseOnWords(m: Mem, adr: nat)
    requires adr % SECTOR == 0 && adr + SECTOR <= CAPACITY
    ensures SectorWords(EraseSector(m, adr), adr) == Blank(1024)
    ensures SameOutside(m, EraseSector(m, adr), adr, SECTOR)
  {
    var m' := EraseSector(m, adr);
    forall i | 0 <= i < 1024
      ensures ToWord(m'[adr + 4 * i..adr + 4 * i + 4]) == BLANK
    {
      var b := m'[adr + 4 * i..adr + 4 * i + 4];
      forall k | 0 <= k < 4 ensures b[k] == 0xFF {
        assert (adr + 4 * i + k) / SECTOR == adr / SECTOR;
      }
      BlankBytes(b);
    }
  }

  lemma BlankBytes(b: seq<bv8>)
    requires |b| == 4 && b[0] == 0xFF && b[1] == 0xFF && b[2] == 0xFF && b[3] == 0xFF
    ensures ToWord(b) == BLANK
  {
  }

  /** The guard passes every operation inside an accepted region. */
  lemma InsideIsAccepted(l: Layout, adr: u32, n: nat, k: nat, len: nat)
    requires Writable(l, adr, n) && k + len <= n && len > 0
    ensures l.Accepts(adr + 4 * k, 4 * len)
  {
  }

  lemma OpOnChip(l: Layout, m: Mem, adr: u32, n: nat, op: WordOp)
    requires Writable(l, adr, n) && Inside(adr, n, op)
    ensures var m' := ApplyAll(m, ChipOpsOf(l, adr, op));
            RegionWords(m', adr, n) == ApplyWord(RegionWords(m, adr, n), op) && SameOutside(m, m', adr, 4 * n)
  {
    hide ApplyWord, Layout.Accepts, RegionWords;
    match op
    case Put(slot, data) =>
      var a := adr + 4 * slot;
      assert Low32(a) == a;
      PutIsAndRange(l, m, adr, n, slot, data);
      AndRangeOnWords(m, adr, n, slot, data);
    case Wipe =>
      assert l.Accepts(adr, 1) by {
        SectorEraseAccepted(l, adr);
      }
      assert adr % CAPACITY == adr;
      ApplyOne(m, Erase(adr));
      EraseOnWords(m, adr);
      assert ApplyWord(RegionWords(m, adr, n), Wipe) == Blank(n) by {
        WipeBlanks(RegionWords(m, adr, n));
      }
  }

  lemma SectorEraseAccepted(l: Layout, adr: u32)
    requires Writable(l, adr, 1024)
    ensures l.Accepts(adr, 1)
  {
  }

  lemma PutIsAndRange(l: Layout, m: Mem, adr: u32, n: nat, slot: nat, data: seq<bv8>)
    requires Writable(l, adr, n) && Inside(adr, n, Put(slot, data))
    ensures ApplyAll(m, ChipOpsOf(l, adr, Put(slot, data))) == AndRange(m, adr + 4 * slot, data)
  {
    hide AndRange, PageOps, WriteDataOps, Layout.Accepts, Layout.Valid;
    var a := adr + 4 * slot;
    assert Low32(a) == a;
    if data == [] {
      EmptyWrite(l, Low32(a));
      AndRangeNone(m, a);
    } else {
      InsideIsAccepted(l, adr, n, slot, |data| / 4);
      WriteDataIsWritePage(l, a, data);
      PageOpsAreLinear(m, a, data);
    }
  }

  lemma EmptyWrite(l: Layout, addr: u32)
    ensures WriteDataOps(l, addr, []) == []
  {
    assert PageOps(addr, []) == [];
  }

  // ----- a list of operations -----

  lemma {:induction false} OpsOnChip(l: Layout, m: Mem, adr: u32, n: nat, ops: seq<WordOp>)
    requires Writable(l, adr, n) && forall op <- ops :: Inside(adr, n, op)
    ensures var m' := ApplyAll(m, ChipOps(l, adr, ops));
            RegionWords(m', adr, n) == ApplyWords(RegionWords(m, adr, n), ops) && SameOutside(m, m', adr, 4 * n)
    decreases |ops|
  {
    if ops != [] {
      hide ApplyWord, ChipOpsOf, RegionWords, Writable, Inside;
      OpOnChip(l, m, adr, n, ops[0]);
      var m1 := ApplyAll(m, ChipOpsOf(l, adr, ops[0]));
      OpsOnChip(l, m1, adr, n, ops[1..]);
      ApplyAllConcat(m, ChipOpsOf(l, adr, ops[0]), ChipOps(l, adr, ops[1..]));
    }
  }

  function Command(adr: u32, op: WordOp): Op {
    match op case Put(slot, data) => Program(adr + 4 * slot, data) case Wipe => Erase(adr)
  }

  /** Operations that the driver need not split: an erase, or data inside one page. */
  predicate InPage(adr: u32, n: nat, op: WordOp) {
    Inside(adr, n, op) && (op.Put? ==> op.data != [] && (adr + 4 * op.slot) % PAGE + |op.data| <= PAGE)
  }

  /** Each such operation is exactly one command on the chip. So cutting a call between two of its operations is
      cutting it between two chip commands, and every erase of the protocol is one of the chip. */
  lemma {:induction false} OneCommandEach(l: Layout, adr: u32, n: nat, ops: seq<WordOp>)
    requires Writable(l, adr, n) && forall op <- ops :: InPage(adr, n, op)
    ensures |ChipOps(l, adr, ops)| == |ops|
    ensures forall k | 0 <= k < |ops| :: ChipOps(l, adr, ops)[k] == Command(adr, ops[k])
    decreases |ops|
  {
    if ops != [] {
      hide ChipOpsOf, InPage, Writable;
      CommandOf(l, adr, n, ops[0]);
      OneCommandEach(l, adr, n, ops[1..]);
    }
  }

  lemma CommandOf(l: Layout, adr: u32, n: nat, op: WordOp)
    requires Writable(l, adr, n) && InPage(adr, n, op)
    ensures ChipOpsOf(l, adr, op) == [Command(adr, op)]
  {
    hide WriteDataOps, EraseOps, InPage, Writable;
    match op
    case Put(slot, data) => PutIsOneCommand(l, adr, n, slot, data);
    case Wipe => WipeIsOneCommand(l, adr, n);
  }

  lemma WipeIsOneCommand(l: Layout, adr: u32, n: nat)
    requires Writable(l, adr, n) && InPage(adr, n, Wipe)
    ensures EraseOps(l, adr) == [Erase(adr)]
  {
    assert n == 1024 && adr % CAPACITY == adr;
    hide Layout.Accepts;
    SectorEraseAccepted(l, adr);
  }

  lemma PutIsOneCommand(l: Layout, adr: u32, n: nat, slot: nat, data: seq<bv8>)
    requires Writable(l, adr, n) && InPage(adr, n, Put(slot, data))
    ensures WriteDataOps(l, Low32(adr + 4 * slot), data) == [Program(adr + 4 * slot, data)]
  {
    hide WriteDataOps, Layout.Accepts, Layout.Valid, PageOps;
    var a := adr + 4 * slot;
    assert Low32(a) == a;
    InsideIsAccepted(l, adr, n, slot, |data| / 4);
    WriteDataIsWritePage(l, a, data);
    OnePageOps(a, data);
  }

  lemma OnePageOps(a: u32, data: seq<bv8>)
    requires a < CAPACITY && data != [] && a % PAGE + |data| <= PAGE
    ensures PageOps(a, data) == [Program(a, data)]
  {
  }

  /** An aligned word never crosses a page. */
  lemma WordInPage(adr: u32, n: nat, op: WordOp)
    requires adr % 4 == 0 && Inside(adr, n, op) && (op.Put? ==> |op.data| == 4)
    ensures InPage(adr, n, op)
  {
    if op.Put? {
      var k := adr / 4 + op.slot;
      DivMod(k, 64);
      assert adr + 4 * op.slot == 4 * k == k / 64 * PAGE + 4 * (k % 64);
      DivUnique(4 * k, PAGE, k / 64);
    }
  }

  // ----- the value cell on the chip -----

  /** The chip after one event of the value cell at adr. */
  function ExecOnChip(l: Layout, m: Mem, adr: u32, flag: bv32, e: ValueCell.Event): Mem
    requires adr + SECTOR <= CAPACITY
  {
    ApplyAll(m, ChipOps(l, adr, ValueCell.EventOps(SectorWords(m, adr), flag, e)))
  }

  function ExecAllOnChip(l: Layout, m: Mem, adr: u32, flag: bv32, es: seq<ValueCell.Event>): Mem
    requires adr + SECTOR <= CAPACITY
    decreases |es|
  {
    if es == [] then m else ExecAllOnChip(l, ExecOnChip(l, m, adr, flag, es[0]), adr, flag, es[1..])
  }

  lemma EventOpsInside(ws: Sector, adr: u32, flag: bv32, v: Option<bv32>, e: ValueCell.Event)
    requires adr % SECTOR == 0 && ValueCell.Holds(ws, flag, v) && (!e.Read? ==> Admissible(flag, e.dat))
    ensures forall op <- ValueCell.EventOps(ws, flag, e) :: InPage(adr, 1024, op)
  {
    hide InPage, ToBytes;
    WipeIsInPage(adr);
    if !e.Read? {
      ValueCell.WriteOpsForm(ws, flag, v, e.dat);
      WordIsInPage(adr, ValueCell.FirstUnmarked(ws, flag), ToBytes(flag));
      WordIsInPage(adr, ValueCell.NextSlot(ws, flag, v), ToBytes(e.dat));
    }
  }

  lemma WipeIsInPage(adr: u32)
    requires adr % SECTOR == 0
    ensures InPage(adr, 1024, Wipe)
  {
  }

  lemma WordIsInPage(adr: u32, slot: nat, word: seq<bv8>)
    requires adr % SECTOR == 0 && slot < SLOTS && |word| == 4
    ensures InPage(adr, 1024, Put(slot, word))
  {
    WordInPage(adr, 1024, Put(slot, word));
  }

  /** On the chip, too, any run of writes, reads and resets leaves exactly the variable in the sector, and every
      byte outside it as it was. */
  lemma {:induction false} ValueCellOnChip(l: Layout, m: Mem, adr: u32, flag: bv32, v: Option<bv32>,
                              es: seq<ValueCell.Event>)
    requires Writable(l, adr, 1024) && adr % SECTOR == 0
    requires ValueCell.Holds(SectorWords(m, adr), flag, v) && ValueCell.AdmissibleRun(flag, es)
    ensures var m' := ExecAllOnChip(l, m, adr, flag, es);
            && ValueCell.Holds(SectorWords(m', adr), flag, ValueCell.VarRun(v, es))
            && ValueCell.ReadResult(SectorWords(m', adr), flag) == ValueOr(ValueCell.VarRun(v, es), flag)
            && SameOutside(m, m', adr, SECTOR)
    decreases |es|
  {
    assert adr + SECTOR <= CAPACITY;
    hide ValueCell.Holds, ValueCell.EventOps, ValueCell.ReadResult, Inside, RegionWords, Writable;
    if es == [] {
      ValueCell.ReadStep(SectorWords(m, adr), flag, v);
    } else {
      var ws := SectorWords(m, adr);
      var m1 := ExecOnChip(l, m, adr, flag, es[0]);
      EventOpsInside(ws, adr, flag, v, es[0]);
      OpsOnChip(l, m, adr, 1024, ValueCell.EventOps(ws, flag, es[0]));
      ValueCell.EventStep(ws, flag, v, es[0]);
      ValueCellOnChip(l, m1, adr, flag, ValueCell.VarStep(v, es[0]), es[1..]);
    }
  }

  function CountErases(ops: seq<Op>): nat
    decreases |ops|
  {
    if ops == [] then 0 else (if ops[0].Erase? then 1 else 0) + CountErases(ops[1..])
  }

  /** Sector erases the chip carries out over a run. */
  function WearOnChip(l: Layout, m: Mem, adr: u32, flag: bv32, es: seq<ValueCell.Event>): nat
    requires adr + SECTOR <= CAPACITY
    decreases |es|
  {
    if es == [] then 0 else
      CountErases(ChipOps(l, adr, ValueCell.EventOps(SectorWords(m, adr), flag, es[0])))
      + WearOnChip(l, ExecOnChip(l, m, adr, flag, es[0]), adr, flag, es[1..])
  }

  lemma {:induction false} ErasesAreWipes(l: Layout, adr: u32, n: nat, ops: seq<WordOp>)
    requires Writable(l, adr, n) && forall op <- ops :: InPage(adr, n, op)
    ensures CountErases(ChipOps(l, adr, ops)) == ValueCell.CountWipes(ops)
    decreases |ops|
  {
    if ops != [] {
      hide ChipOpsOf, InPage, Writable;
      CommandOf(l, adr, n, ops[0]);
      ErasesAreWipes(l, adr, n, ops[1..]);
      assert ChipOps(l, adr, ops)[1..] == ChipOps(l, adr, ops[1..]);
    }
  }

  lemma {:induction false} WearIsOnChip(l: Layout, m: Mem, adr: u32, flag: bv32, v: Option<bv32>,
                              es: seq<ValueCell.Event>)
    requires Writable(l, adr, 1024) && adr % SECTOR == 0
    requires ValueCell.Holds(SectorWords(m, adr), flag, v) && ValueCell.AdmissibleRun(flag, es)
    ensures WearOnChip(l, m, adr, flag, es) == ValueCell.Wear(SectorWords(m, adr), flag, es)
    decreases |es|
  {
    if es != [] {
      assert adr + SECTOR <= CAPACITY && adr % 4 == 0;
      hide ValueCell.Holds, ValueCell.EventOps, Inside, RegionWords, Writable, CountErases, ChipOps;
      var ws := SectorWords(m, adr);
      EventOpsInside(ws, adr, flag, v, es[0]);
      OpsOnChip(l, m, adr, 1024, ValueCell.EventOps(ws, flag, es[0]));
      ErasesAreWipes(l, adr, 1024, ValueCell.EventOps(ws, flag, es[0]));
      ValueCell.EventStep(ws, flag, v, es[0]);
      WearIsOnChip(l, ExecOnChip(l, m, adr, flag, es[0]), adr, flag, ValueCell.VarStep(v, es[0]), es[1..]);
    }
  }

  /** n >= 1 writes without resets to a blank sector make the chip erase it exactly (n - 1) / 1024 times. */
  lemma ExactWearOnChip(l: Layout, m: Mem, adr: u32, flag: bv32, es: seq<ValueCell.Event>)
    requires Writable(l, adr, 1024) && adr % SECTOR == 0 && SectorWords(m, adr) == Blank(1024)
    requires ValueCell.AdmissibleRun(flag, es) && (forall e <- es :: !e.CutWrite?) && Written(es) != []
    ensures WearOnChip(l, m, adr, flag, es) == (|Written(es)| - 1) / 1024
  {
    hide ValueCell.Holds, RegionWords, Writable;
    ValueCell.BlankHoldsNone(flag);
    WearIsOnChip(l, m, adr, flag, None, es);
    ValueCell.ExactWear(flag, es);
  }

  // ----- the write-limited cell on the chip -----

  function LimitedRun(l: Layout, m: Mem, adr: u32, num: nat, flag: bv32, es: seq<LimitedCell.Event>): Mem
    requires adr + 4 * num <= CAPACITY
    decreases |es|
  {
    if es == [] then m else
      var ops := LimitedCell.EventOps(RegionWords(m, adr, num), flag, es[0]);
      LimitedRun(l, ApplyAll(m, ChipOps(l, adr, ops)), adr, num, flag, es[1..])
  }

  /** Over any run of attempts, reads and resets the region on the chip goes through the protocol's states, and no
      byte outside its num words changes. */
  lemma {:induction false} LimitedCellOnChip(l: Layout, m: Mem, adr: u32, num: nat, flag: bv32, s: LimitedCell.State,
                                             es: seq<LimitedCell.Event>)
    requires Writable(l, adr, num) && LimitedCell.AdmissibleRun(flag, es)
    requires LimitedCell.Holds(RegionWords(m, adr, num), flag, s)
    ensures var m' := LimitedRun(l, m, adr, num, flag, es);
            && RegionWords(m', adr, num) == LimitedCell.ExecAll(RegionWords(m, adr, num), flag, es)
            && LimitedCell.Holds(RegionWords(m', adr, num), flag, LimitedCell.RunState(s, num, es))
            && SameOutside(m, m', adr, 4 * num)
    decreases |es|
  {
    assert adr + 4 * num <= CAPACITY;
    if es != [] {
      hide LimitedCell.Holds, LimitedCell.EventOps, LimitedCell.StoresWord, RegionWords, Writable, Inside, ApplyWords;
      var ws := RegionWords(m, adr, num);
      var ops := LimitedCell.EventOps(ws, flag, es[0]);
      LimitedCell.EventStep(ws, flag, s, es[0]);
      forall op | op in ops ensures Inside(adr, num, op) {
        OneWordIsInside(adr, num, op);
      }
      OpsOnChip(l, m, adr, num, ops);
      LimitedCellOnChip(l, ApplyAll(m, ChipOps(l, adr, ops)), adr, num, flag, s.Next(num, es[0]), es[1..]);
    }
  }

  lemma OneWordIsInside(adr: u32, n: nat, op: WordOp)
    requires op.Put? && op.slot < n && |op.data| == 4
    ensures Inside(adr, n, op)
  {
  }

  // ----- the record cell on the chip -----

  /** The part of a record that runs out of the sector, at the start of the next one. */
  predicate PastEnd(op: WordOp) {
    op.Put? && op.slot == SLOTS && 0 < |op.data| < PAGE && |op.data| % 4 == 0
  }

  /** The commands of a write stay inside the sector and its pages, or start right behind it - the latter only if the
      record does not fit. */
  lemma RecordOpsShape(ws: Sector, adr: u32, flag: bv32, len: nat, s: RecordCell.State, e: RecordCell.Event)
    requires adr % SECTOR == 0 && RecordCell.ValidLen(len) && RecordCell.Holds(ws, flag, len / 4, s)
    requires !e.Read? ==> RecordCell.GoodRecord(flag, len, e.dat)
    ensures var ops := RecordCell.EventOps(ws, flag, len, e);
            && (forall op <- ops :: InPage(adr, 1024, op) || PastEnd(op))
            && (e.Read? || s.Target(len / 4) + len / 4 <= SLOTS ==> forall op <- ops :: InPage(adr, 1024, op))
  {
    hide RecordCell.WriteOps, RecordCell.GoodRecord, InPage, PastEnd, ToBytes;
    if e.Read? {
      WipeIsInPage(adr);
    } else {
      assert |e.dat| == len by {
        GoodLength(flag, len, e.dat);
      }
      TargetInside(ws, flag, len / 4, s);
      hide RecordCell.Steps, RecordCell.Holds;
      RecordCell.StepsForm(ws, flag, s, e.dat);
      PagesShape(adr, s.Target(len / 4), e.dat);
      if s.live.Some? {
        WordIsInPage(adr, s.slot, ToBytes(flag));
      }
    }
  }

  lemma TargetInside(ws: Sector, flag: bv32, d: nat, s: RecordCell.State)
    requires RecordCell.Holds(ws, flag, d, s)
    ensures s.slot < SLOTS && s.Target(d) < SLOTS
  {
  }

  lemma GoodLength(flag: bv32, len: nat, rec: seq<bv8>)
    requires RecordCell.GoodRecord(flag, len, rec)
    ensures |rec| == len
  {
  }

  lemma PagesShape(adr: u32, slot: nat, rec: seq<bv8>)
    requires adr % SECTOR == 0 && RecordCell.ValidLen(|rec|) && slot < SLOTS
    ensures var ops := RecordCell.PutPages(slot, rec);
            && (forall op <- ops :: InPage(adr, 1024, op) || PastEnd(op))
            && (slot + |rec| / 4 <= SLOTS ==> forall op <- ops :: InPage(adr, 1024, op))
            && (slot + |rec| / 4 > SLOTS ==>
                  && RecordCell.Room(slot) == 4 * (SLOTS - slot) < |rec|
                  && InPage(adr, 1024, ops[0]) && PastEnd(ops[1]))
  {
    var n := RecordCell.Room(slot);
    PageColumn(adr, slot);
    PageEnd(slot);
    if n < |rec| {
      PageColumn(adr, slot + n / 4);
    }
  }

  /** Where the page of a slot ends. */
  lemma PageEnd(slot: nat)
    requires slot < SLOTS
    ensures var e := slot + RecordCell.Room(slot) / 4; e % 64 == 0 && slot < e <= SLOTS
  {
    var k := slot / 64;
    assert slot == k * 64 + slot % 64;
    DivUnique(4 * slot, 256, k);
    assert slot + RecordCell.Room(slot) / 4 == (k + 1) * 64;
    MultipleMod(k + 1, 64);
  }

  lemma PageColumn(adr: u32, slot: nat)
    requires adr % SECTOR == 0
    ensures (adr + 4 * slot) % PAGE == 4 * slot % PAGE == PAGE - RecordCell.Room(slot)
    ensures 4 * (slot + RecordCell.Room(slot) / 4) % PAGE == 0
  {
    var k := 4 * slot / PAGE;
    var q := adr / SECTOR;
    DivMod(4 * slot, PAGE);
    DivMod(adr, SECTOR);
    assert adr == q * 16 * PAGE;
    DivUnique(adr + 4 * slot, PAGE, q * 16 + k);
    assert 4 * (slot + RecordCell.Room(slot) / 4) == (k + 1) * PAGE;
    MultipleMod(k + 1, PAGE);
  }

  /** The chip commands of flash_write_long_val are those of the page-by-page protocol; if the record fits, there is one
      for each of its operations. */
  lemma RecordCommands(l: Layout, ws: Sector, adr: u32, flag: bv32, s: RecordCell.State, rec: seq<bv8>)
    requires adr % SECTOR == 0 && adr + SECTOR <= CAPACITY
    requires RecordCell.GoodRecord(flag, |rec|, rec) && RecordCell.Holds(ws, flag, |rec| / 4, s)
    ensures ChipOps(l, adr, RecordCell.WriteOps(ws, flag, rec)) == ChipOps(l, adr, RecordCell.Steps(ws, flag, rec))
    ensures Writable(l, adr, 1024) && s.Target(|rec| / 4) + |rec| / 4 <= SLOTS ==>
      |ChipOps(l, adr, RecordCell.Steps(ws, flag, rec))| == |RecordCell.Steps(ws, flag, rec)|
  {
    TargetInside(ws, flag, |rec| / 4, s);
    hide RecordCell.WriteOps, RecordCell.Steps, RecordCell.Holds, RecordCell.PutPages, ChipOpsOf, InPage, PastEnd,
         Writable, ToBytes;
    var slot := s.Target(|rec| / 4);
    RecordOpsShape(ws, adr, flag, |rec|, s, Write(rec));
    if Writable(l, adr, 1024) && slot + |rec| / 4 <= SLOTS {
      OneCommandEach(l, adr, 1024, RecordCell.Steps(ws, flag, rec));
    }
    RecordCell.StepsForm(ws, flag, s, rec);
    RecordCell.WriteOpsForm(ws, flag, s, rec);
    PagesCommands(l, adr, slot, rec);
    ChipOpsOne(l, adr, Put(slot, rec));
    if s.live.Some? {
      var mark := Put(s.slot, ToBytes(flag));
      ChipOpsConcat(l, adr, [mark], [Put(slot, rec)]);
      ChipOpsConcat(l, adr, [mark], RecordCell.PutPages(slot, rec));
      assert [mark] + [Put(slot, rec)] == [mark, Put(slot, rec)];
    } else {
      assert [] + RecordCell.PutPages(slot, rec) == RecordCell.PutPages(slot, rec);
    }
  }

  lemma PagesCommands(l: Layout, adr: u32, slot: nat, rec: seq<bv8>)
    requires adr % SECTOR == 0 && adr + SECTOR <= CAPACITY && slot < SLOTS && RecordCell.ValidLen(|rec|)
    ensures ChipOps(l, adr, RecordCell.PutPages(slot, rec)) == ChipOpsOf(l, adr, Put(slot, rec))
  {
    hide ChipOpsOf;
    var n := RecordCell.Room(slot);
    if n < |rec| {
      var first, second := Put(slot, rec[..n]), Put(slot + n / 4, rec[n..]);
      ChipOpsOne(l, adr, first);
      ChipOpsOne(l, adr, second);
      ChipOpsConcat(l, adr, [first], [second]);
      assert [first] + [second] == [first, second];
      SplitCommands(l, adr, slot, rec, n);
    } else {
      ChipOpsOne(l, adr, Put(slot, rec));
    }
  }

  lemma SplitCommands(l: Layout, adr: u32, slot: nat, rec: seq<bv8>, n: nat)
    requires adr % SECTOR == 0 && adr + SECTOR <= CAPACITY && slot < SLOTS && n == RecordCell.Room(slot) < |rec| < 256
    ensures ChipOpsOf(l, adr, Put(slot, rec))
            == ChipOpsOf(l, adr, Put(slot, rec[..n])) + ChipOpsOf(l, adr, Put(slot + n / 4, rec[n..]))
  {
    hide WritePageOps;
    var a := adr + 4 * slot;
    PageColumn(adr, slot);
    assert Low32(a) == a && Low32(a + n) == a + n;
    assert ChunkLen(a, |rec|) == n == ChunkLen(a, n);
    assert rec[..n][..n] == rec[..n];
  }

  // ----- past the end -----

  /** What runs out of the sector is written if the guard accepts it there, and dropped if not. */
  lemma PastEndOnChip(l: Layout, m: Mem, adr: u32, op: WordOp)
    requires l.Valid() && adr % SECTOR == 0 && adr + SECTOR <= CAPACITY && PastEnd(op)
    ensures var m' := ApplyAll(m, ChipOpsOf(l, adr, op));
            && m' == (if l.Accepts(adr + SECTOR, |op.data|) then AndRange(m, adr + SECTOR, op.data) else m)
            && SameOutside(m, m', adr + SECTOR, |op.data|)
            && SectorWords(m', adr) == SectorWords(m, adr)
  {
    hide AndRange, PageOps, Layout.Accepts, Layout.Valid;
    var a := adr + SECTOR;
    assert Low32(a) == a;
    OnePageData(l, a, op.data);
    if l.Accepts(a, |op.data|) {
      AcceptedRange(l, a, |op.data|);
      PageOpsAreLinear(m, a, op.data);
    }
    OutsideAndRange(m, a, op.data);
    WordsKept(m, ApplyAll(m, ChipOpsOf(l, adr, op)), adr);
  }

  lemma OnePageData(l: Layout, a: u32, data: seq<bv8>)
    requires a % SECTOR == 0 && 0 < |data| < PAGE
    ensures WriteDataOps(l, a, data) == if l.Accepts(a, |data|) then PageOps(a, data) else []
  {
    hide PageOps;
    assert a % PAGE == 0;
  }

  lemma OutsideAndRange(m: Mem, a: nat, data: seq<bv8>)
    ensures SameOutside(m, AndRange(m, a, data), a, |data|)
  {
  }

  lemma WordsKept(m: Mem, m': Mem, adr: nat)
    requires adr + SECTOR <= CAPACITY && forall i | adr <= i < adr + SECTOR :: m'[i] == m[i]
    ensures SectorWords(m', adr) == SectorWords(m, adr)
  {
    hide ToWord;
    forall i | 0 <= i < 1024 ensures m'[adr + 4 * i..adr + 4 * i + 4] == m[adr + 4 * i..adr + 4 * i + 4] {
    }
  }

  lemma PastEndOnWords(ws: Sector, op: WordOp)
    requires PastEnd(op)
    ensures ApplyWord(ws, op) == ws
  {
  }

  /** Longest record. */
  const REACH: nat := 252

  /** Operations inside the sector or right behind it: the sector behaves as its words. */
  lemma {:induction false} OpsOnChipOrPast(l: Layout, m: Mem, adr: u32, ops: seq<WordOp>)
    requires Writable(l, adr, 1024) && adr % SECTOR == 0
    requires forall op <- ops :: InPage(adr, 1024, op) || PastEnd(op)
    ensures var m' := ApplyAll(m, ChipOps(l, adr, ops));
            && SectorWords(m', adr) == ApplyWords(SectorWords(m, adr), ops)
            && SameOutside(m, m', adr, SECTOR + REACH)
    decreases |ops|
  {
    if ops != [] {
      assert l.Valid() && adr + SECTOR <= CAPACITY;
      hide ApplyWord, ChipOpsOf, RegionWords, Writable, InPage, PastEnd;
      var m1 := ApplyAll(m, ChipOpsOf(l, adr, ops[0]));
      OneOpOnChip(l, m, adr, ops[0]);
      OpsOnChipOrPast(l, m1, adr, ops[1..]);
      ApplyAllConcat(m, ChipOpsOf(l, adr, ops[0]), ChipOps(l, adr, ops[1..]));
    }
  }

  lemma OneOpOnChip(l: Layout, m: Mem, adr: u32, op: WordOp)
    requires Writable(l, adr, 1024) && adr % SECTOR == 0 && (InPage(adr, 1024, op) || PastEnd(op))
    ensures var m' := ApplyAll(m, ChipOpsOf(l, adr, op));
            && SectorWords(m', adr) == ApplyWord(SectorWords(m, adr), op)
            && SameOutside(m, m', adr, SECTOR + REACH)
  {
    assert l.Valid() && adr + SECTOR <= CAPACITY;
    if PastEnd(op) {
      assert |op.data| <= REACH;
      hide ApplyWord, ChipOpsOf, RegionWords, Writable, PastEnd, InPage;
      PastEndOnChip(l, m, adr, op);
      PastEndOnWords(SectorWords(m, adr), op);
    } else {
      hide ApplyWord, ChipOpsOf, RegionWords, Writable, PastEnd;
      OpOnChip(l, m, adr, 1024, op);
    }
  }

  // ----- runs -----

  ghost function RecordRun(l: Layout, m: Mem, adr: u32, flag: bv32, len: nat, es: seq<RecordCell.Event>): Mem
    requires adr + SECTOR <= CAPACITY && RecordCell.GoodRun(flag, len, es)
    decreases |es|
  {
    if es == [] then m else
      var ops := RecordCell.EventOps(SectorWords(m, adr), flag, len, es[0]);
      RecordRun(l, ApplyAll(m, ChipOps(l, adr, ops)), adr, flag, len, es[1..])
  }

  /** Over any run of writes, reads and resets the sector on the chip goes through the protocol's states and reads as
      the state's record, also when records run out of it.  Nothing changes further out than they reach, and nothing at
      all outside the sector if they all fit. */
  lemma {:induction false} RecordCellOnChip(l: Layout, m: Mem, adr: u32, flag: bv32, len: nat, s: RecordCell.State,
                                            es: seq<RecordCell.Event>)
    requires Writable(l, adr, 1024) && adr % SECTOR == 0 && RecordCell.GoodRun(flag, len, es)
    requires RecordCell.Holds(SectorWords(m, adr), flag, len / 4, s)
    ensures var m' := RecordRun(l, m, adr, flag, len, es);
            && SectorWords(m', adr) == RecordCell.ExecAll(SectorWords(m, adr), flag, len, es)
            && RecordCell.Holds(SectorWords(m', adr), flag, len / 4, RecordCell.RunState(s, len / 4, es))
            && RecordCell.ReadRecord(SectorWords(m', adr), flag, len) == RecordCell.RunState(s, len / 4, es).live
            && SameOutside(m, m', adr, SECTOR + REACH)
            && (RecordCell.RoomFor(s, len / 4, es) ==> SameOutside(m, m', adr, SECTOR))
    decreases |es|
  {
    assert adr + SECTOR <= CAPACITY;
    hide RecordCell.Holds, RecordCell.EventOps, RecordCell.ReadRecord, RecordCell.GoodRecord, RegionWords, Writable,
         InPage, PastEnd, ApplyWords;
    var ws := SectorWords(m, adr);
    if es == [] {
      RecordCell.ReadStep(ws, flag, len, s);
    } else {
      var ops := RecordCell.EventOps(ws, flag, len, es[0]);
      var m1 := ApplyAll(m, ChipOps(l, adr, ops));
      RecordCell.EventStep(ws, flag, len, s, es[0]);
      RecordOpsShape(ws, adr, flag, len, s, es[0]);
      OpsOnChipOrPast(l, m, adr, ops);
      if RecordCell.RoomFor(s, len / 4, es) {
        forall op | op in ops ensures Inside(adr, 1024, op) {
          InPageIsInside(adr, 1024, op);
        }
        OpsOnChip(l, m, adr, 1024, ops);
      }
      RecordCellOnChip(l, m1, adr, flag, len, s.Next(len / 4, es[0]), es[1..]);
    }
  }

  lemma InPageIsInside(adr: u32, n: nat, op: WordOp)
    requires InPage(adr, n, op)
    ensures Inside(adr, n, op)
  {
  }

  /** The first K records: up to K writes to an erased sector, cut or not, with any reads among them, change nothing
      outside it, and a read delivers the state's record - without cuts the last record written. */
  lemma FirstRecordsOnChip(l: Layout, m: Mem, adr: u32, flag: bv32, len: nat, es: seq<RecordCell.Event>)
    requires Writable(l, adr, 1024) && adr % SECTOR == 0 && SectorWords(m, adr) == Blank(SLOTS)
    requires RecordCell.GoodRun(flag, len, es) && RecordCell.WriteCount(es) <= RecordCell.Capacity(len / 4)
    ensures var m' := RecordRun(l, m, adr, flag, len, es);
            var r := RecordCell.ReadRecord(SectorWords(m', adr), flag, len);
            && SameOutside(m, m', adr, SECTOR)
            && r == RecordCell.RunState(RecordCell.State(0, None), len / 4, es).live
            && ((forall e <- es :: !e.CutWrite?) && Written(es) != [] ==>
                  r == Some(WordsOf(Written(es)[|Written(es)| - 1])))
  {
    assert adr + SECTOR <= CAPACITY;
    hide RecordCell.Holds, RecordCell.ReadRecord, RecordCell.Capacity, RecordCell.ExecAll, RecordCell.GoodRecord,
         RecordCell.SlotStart, RecordCell.RoomFor, RegionWords, Writable, Blank, WordsOf, RecordRun;
    var s := RecordCell.State(0, None);
    RecordCell.BlankHolds(flag, len / 4);
    RecordCell.SlotStartStep(0, len / 4);
    RecordCell.RoomWithinCapacity(s, len / 4, 0, es);
    RecordCellOnChip(l, m, adr, flag, len, s, es);
    RecordCell.WrittenAreWrites(es);
    if (forall e <- es :: !e.CutWrite?) && Written(es) != [] {
      RecordCell.ReadBackExactly(flag, len, es);
    }
  }

  /** If d divides 1024 no run whatever changes anything outside the sector. */
  lemma FillingSlotsOnChip(l: Layout, m: Mem, adr: u32, flag: bv32, len: nat, es: seq<RecordCell.Event>)
    requires Writable(l, adr, 1024) && adr % SECTOR == 0 && SectorWords(m, adr) == Blank(SLOTS)
    requires RecordCell.GoodRun(flag, len, es) && SLOTS % (len / 4) == 0
    ensures var m' := RecordRun(l, m, adr, flag, len, es);
            && SameOutside(m, m', adr, SECTOR)
            && RecordCell.ReadRecord(SectorWords(m', adr), flag, len)
               == RecordCell.RunState(RecordCell.State(0, None), len / 4, es).live
  {
    hide RecordCell.Holds, RecordCell.ReadRecord, RecordCell.ExecAll, RecordCell.GoodRecord, RecordCell.RoomFor,
         RegionWords, Blank, RecordRun;
    var s := RecordCell.State(0, None);
    RecordCell.BlankHolds(flag, len / 4);
    RecordCell.RoomIfSlotsFill(s, len / 4, es);
    RecordCellOnChip(l, m, adr, flag, len, s, es);
  }

  /** Write K + 1, exactly.  If d divides 1024 it stays in the sector.  Otherwise the rest of the record is meant for
      the first bytes of the next sector: where the guard accepts them, the write changes outside the sector what a
      linear write of the record would; where it refuses them, the record is cut off and nothing outside changes. */
  lemma OverflowOnChip(l: Layout, m: Mem, adr: u32, flag: bv32, len: nat, es: seq<RecordCell.Event>, rec: seq<bv8>,
                       slot: nat)
    requires Writable(l, adr, 1024) && adr % SECTOR == 0
    requires RecordCell.GoodRun(flag, len, es) && RecordCell.GoodRecord(flag, len, rec)
    requires RecordCell.Settled(len / 4, 0, es) && |Written(es)| == RecordCell.Capacity(len / 4)
    requires SectorWords(m, adr) == RecordCell.ExecAll(Blank(SLOTS), flag, len, es)
    requires slot == RecordCell.SlotStart(|Written(es)|, len / 4) && slot < SLOTS
    ensures var m' := ApplyAll(m, ChipOps(l, adr, RecordCell.WriteOps(SectorWords(m, adr), flag, rec)));
            && (4 * slot + len > SECTOR <==> SLOTS % (len / 4) != 0)
            && SameOutside(Spilled(l, m, adr, slot, rec), m', adr, SECTOR)
            && (SameOutside(m, m', adr, SECTOR) <==>
                  !Spills(l, adr, slot, len) || SameOutside(m, AndRange(m, adr + 4 * slot, rec), adr, SECTOR))
  {
    assert l.Valid() && adr + SECTOR <= CAPACITY;
    hide RecordCell.WriteOps, RecordCell.ExecAll, RecordCell.Capacity, RecordCell.Settled, RecordCell.GoodRun,
         RecordCell.GoodRecord, RecordCell.SlotStart, RegionWords, ChipOps, Writable, AndRange, Layout.Accepts,
         Layout.Valid, Written, Spills, Spilled, SameOutside, Inside;
    var mark := OverflowOps(SectorWords(m, adr), adr, flag, len, es, rec, slot);
    MarkThenRecord(l, m, adr, mark, slot, rec);
    OutsideExactly(l, m, ApplyAll(m, ChipOps(l, adr, [mark, Put(slot, rec)])), adr, slot, rec);
  }

  /** The operations of write K + 1. */
  lemma OverflowOps(ws: Sector, adr: u32, flag: bv32, len: nat, es: seq<RecordCell.Event>, rec: seq<bv8>, slot: nat)
    returns (mark: WordOp)
    requires adr % SECTOR == 0 && RecordCell.GoodRun(flag, len, es) && RecordCell.GoodRecord(flag, len, rec)
    requires RecordCell.Settled(len / 4, 0, es) && |Written(es)| == RecordCell.Capacity(len / 4)
    requires ws == RecordCell.ExecAll(Blank(SLOTS), flag, len, es)
    requires slot == RecordCell.SlotStart(|Written(es)|, len / 4)
    ensures |rec| == len && RecordCell.ValidLen(len) && Inside(adr, 1024, mark)
    ensures RecordCell.WriteOps(ws, flag, rec) == [mark, Put(slot, rec)]
    ensures 4 * slot + len > SECTOR <==> SLOTS % (len / 4) != 0
  {
    hide RecordCell.WriteOps, RecordCell.ExecAll, RecordCell.Capacity, RecordCell.Settled, RecordCell.SlotStart,
         WordsOf, ToBytes, Written, Inside;
    GoodLength(flag, len, rec);
    RecordCell.OverflowExactly(flag, len, es, rec);
    SomeCapacity(len / 4);
    mark := Put(RecordCell.SlotStart(|Written(es)| - 1, len / 4), ToBytes(flag));
    WordIsInPage(adr, mark.slot, ToBytes(flag));
    InPageIsInside(adr, 1024, mark);
  }

  lemma OutsideExactly(l: Layout, m: Mem, m': Mem, adr: u32, slot: nat, rec: seq<bv8>)
    requires adr + SECTOR < WORD32 && slot < SLOTS && |rec| < 256
    requires SameOutside(Spilled(l, m, adr, slot, rec), m', adr, SECTOR)
    ensures SameOutside(m, m', adr, SECTOR) <==>
            !Spills(l, adr, slot, |rec|) || SameOutside(m, AndRange(m, adr + 4 * slot, rec), adr, SECTOR)
  {
    hide Spills, AndRange;
  }

  /** Part of a record in this slot lies behind the sector, and the guard accepts it there. */
  predicate Spills(l: Layout, adr: u32, slot: nat, len: nat)
    requires adr + SECTOR < WORD32 && slot < SLOTS && len < 256
  {
    4 * slot + len > SECTOR && l.Accepts(adr + SECTOR, 4 * slot + len - SECTOR)
  }

  /** The memory as a linear write of such a record would leave it. */
  function Spilled(l: Layout, m: Mem, adr: u32, slot: nat, rec: seq<bv8>): Mem
    requires adr + SECTOR < WORD32 && slot < SLOTS && |rec| < 256
  {
    if Spills(l, adr, slot, |rec|) then AndRange(m, adr + 4 * slot, rec) else m
  }

  lemma MarkThenRecord(l: Layout, m: Mem, adr: u32, mark: WordOp, slot: nat, rec: seq<bv8>)
    requires Writable(l, adr, 1024) && adr % SECTOR == 0 && Inside(adr, 1024, mark)
    requires slot < SLOTS && RecordCell.ValidLen(|rec|)
    ensures var m' := ApplyAll(m, ChipOps(l, adr, [mark, Put(slot, rec)]));
            SameOutside(Spilled(l, m, adr, slot, rec), m', adr, SECTOR)
  {
    assert l.Valid() && adr + SECTOR <= CAPACITY;
    hide ChipOpsOf, Writable, Layout.Accepts, Layout.Valid, RegionWords, ApplyWord, Inside, AndRange, Spilled;
    var put := Put(slot, rec);
    var m1 := ApplyAll(m, ChipOpsOf(l, adr, mark));
    OpOnChip(l, m, adr, 1024, mark);
    ChipOpsOne(l, adr, mark);
    ChipOpsOne(l, adr, put);
    ChipOpsConcat(l, adr, [mark], [put]);
    assert [mark] + [put] == [mark, put];
    ApplyAllConcat(m, ChipOpsOf(l, adr, mark), ChipOpsOf(l, adr, put));
    RecordAlone(l, m1, adr, slot, rec);
    SpilledOutside(l, m, m1, adr, slot, rec);
  }

  lemma RecordAlone(l: Layout, m: Mem, adr: u32, slot: nat, rec: seq<bv8>)
    requires Writable(l, adr, 1024) && adr % SECTOR == 0 && slot < SLOTS && RecordCell.ValidLen(|rec|)
    ensures SameOutside(Spilled(l, m, adr, slot, rec), ApplyAll(m, ChipOpsOf(l, adr, Put(slot, rec))), adr, SECTOR)
  {
    if slot + |rec| / 4 <= SLOTS {
      hide ChipOpsOf, Writable, RegionWords, ApplyWord, AndRange;
      FitsInside(adr, slot, rec);
      OpOnChip(l, m, adr, 1024, Put(slot, rec));
    } else {
      hide ChipOpsOf, Writable, AndRange, SameOutside, Layout.Accepts;
      RecordRunsOut(l, m, adr, slot, rec);
    }
  }

  lemma RecordRunsOut(l: Layout, m: Mem, adr: u32, slot: nat, rec: seq<bv8>)
    requires Writable(l, adr, 1024) && adr % SECTOR == 0 && slot < SLOTS && RecordCell.ValidLen(|rec|)
    requires slot + |rec| / 4 > SLOTS
    ensures var m' := ApplyAll(m, ChipOpsOf(l, adr, Put(slot, rec)));
            if l.Accepts(adr + SECTOR, 4 * slot + |rec| - SECTOR)
            then SameOutside(AndRange(m, adr + 4 * slot, rec), m', adr, SECTOR) else SameOutside(m, m', adr, SECTOR)
  {
    assert l.Valid() && adr + SECTOR <= CAPACITY;
    PagesShape(adr, slot, rec);
    hide ChipOpsOf, Writable, Layout.Accepts, Layout.Valid, RegionWords, ApplyWord, AndRange, InPage, PastEnd,
         SameOutside, RecordCell.PutPages;
    var n := RecordCell.Room(slot);
    var first, second := Put(slot, rec[..n]), Put(slot + n / 4, rec[n..]);
    SplitCommands(l, adr, slot, rec, n);
    ApplyAllConcat(m, ChipOpsOf(l, adr, first), ChipOpsOf(l, adr, second));
    InPageIsInside(adr, 1024, first);
    OpOnChip(l, m, adr, 1024, first);
    var m1 := ApplyAll(m, ChipOpsOf(l, adr, first));
    PastEndOnChip(l, m1, adr, second);
    SecondPart(m, m1, adr, slot, rec, n);
  }

  lemma FitsInside(adr: u32, slot: nat, rec: seq<bv8>)
    requires RecordCell.ValidLen(|rec|) && slot + |rec| / 4 <= SLOTS
    ensures Inside(adr, 1024, Put(slot, rec))
  {
  }

  /** Behind the sector the second part alone does what the whole record would. */
  lemma SecondPart(m: Mem, m1: Mem, adr: nat, slot: nat, rec: seq<bv8>, n: nat)
    requires SameOutside(m, m1, adr, SECTOR) && n == SECTOR - 4 * slot <= |rec| && slot < SLOTS
    ensures SameOutside(AndRange(m, adr + 4 * slot, rec), AndRange(m1, adr + SECTOR, rec[n..]), adr, SECTOR)
  {
    var linear, part := AndRange(m, adr + 4 * slot, rec), AndRange(m1, adr + SECTOR, rec[n..]);
    hide AndRange;
    forall i | 0 <= i < CAPACITY && !(adr <= i < adr + SECTOR) ensures part[i] == linear[i] {
      AndRangeByte(m, adr + 4 * slot, rec, i);
      AndRangeByte(m1, adr + SECTOR, rec[n..], i);
    }
  }

  lemma SpilledOutside(l: Layout, m: Mem, m1: Mem, adr: u32, slot: nat, rec: seq<bv8>)
    requires SameOutside(m, m1, adr, SECTOR) && adr + SECTOR < WORD32 && slot < SLOTS && |rec| < 256
    ensures SameOutside(Spilled(l, m, adr, slot, rec), Spilled(l, m1, adr, slot, rec), adr, SECTOR)
  {
    hide AndRange, Spills;
    forall i | 0 <= i < CAPACITY && !(adr <= i < adr + SECTOR)
      ensures Spilled(l, m1, adr, slot, rec)[i] == Spilled(l, m, adr, slot, rec)[i]
    {
      AndRangeByte(m, adr + 4 * slot, rec, i);
      AndRangeByte(m1, adr + 4 * slot, rec, i);
    }
  }

  lemma SomeCapacity(d: nat)
    requires 0 < d < 64
    ensures RecordCell.Capacity(d) > 0
  {
  }
}

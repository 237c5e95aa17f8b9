/** What the address guard of flash.c protects: the firmware image the chip booted from. */
module FirmwareArea {
  import opened Arith
  import opened NorChip
  import opened FlashDriver
  import opened MeshExtend

  /** The driver calls that change flash. */
  datatype Call = WritePage(addr: u32, data: seq<bv8>) | WriteData(addr: u32, data: seq<bv8>) | SectorErase(addr: u32)

  function CallOps(l: Layout, call: Call): seq<Op> {
    match call
    case WritePage(addr, data) => WritePageOps(l, addr, data)
    case WriteData(addr, data) => WriteDataOps(l, addr, data)
    case SectorErase(addr) => EraseOps(l, addr)
  }

  function Effect(l: Layout, m: Mem, call: Call): Mem {
    ApplyAll(m, CallOps(l, call))
  }

  function RunCalls(l: Layout, m: Mem, calls: seq<Call>): Mem
    decreases |calls|
  {
    if calls == [] then m else RunCalls(l, Effect(l, m, calls[0]), calls[1..])
  }

  /** Firmware bytes keep their value, and the OTA flag at offsets 8..11 can only lose bits. */
  ghost predicate FirmwareKept(l: Layout, m: Mem, m': Mem) {
    forall i | 0 <= i < CAPACITY && l.InFirmware(i) ::
      (l.Protected(i) ==> m'[i] == m[i]) && m'[i] & m[i] == m'[i]
  }

  // ----- the guard alone -----

  /** A byte the driver may touch: on the chip and not in the protected part of the firmware. */
  predicate Safe(l: Layout, a: nat) {
    a < CAPACITY && !l.Protected(a)
  }

  /** The k-th byte of a transfer that starts at addr. */
  predicate SafeAt(l: Layout, addr: u32, k: nat) {
    Safe(l, Low32(addr + k))
  }

  /** The guard's 32-bit sum decides whether it keeps its word.  Ranges that do not reach the end of the address space
      are accepted exactly if they are on the chip and clear of the firmware, or the OTA flag; and of all accepted
      ranges exactly those consist of on-chip addresses outside the protected firmware. */
  lemma GuardSoundExactly(l: Layout, addr: u32, len: u32)
    requires l.Valid() && len > 0
    ensures addr + len < WORD32 ==> (l.Accepts(addr, len) <==> l.Admits(addr, len))
    ensures l.Accepts(addr, len) ==> ((forall k | 0 <= k < len :: SafeAt(l, addr, k)) <==> addr + len < WORD32)
  {
    if addr + len < WORD32 {
      AcceptsExactly(l, addr, len);
      if l.Accepts(addr, len) {
        AcceptedRange(l, addr, len);
        forall k | 0 <= k < len ensures SafeAt(l, addr, k) {
          assert Low32(addr + k) == addr + k;
        }
      }
    } else {
      assert !SafeAt(l, addr, WORD32 - 1 - addr);
    }
  }

  // ----- which bytes a list of programs changes -----

  ghost predicate AllPrograms(ops: seq<Op>) {
    forall op <- ops :: op.Program?
  }

  predicate HitsOp(op: Op, i: nat) {
    op.Program? && op.addr <= i < op.addr + |op.data|
  }

  ghost predicate Hits(ops: seq<Op>, i: nat) {
    exists op <- ops :: HitsOp(op, i)
  }

  lemma HitsConcat(ops: seq<Op>, ops': seq<Op>, i: nat)
    ensures Hits(ops + ops', i) <==> Hits(ops, i) || Hits(ops', i)
  {
    assert forall op :: op in ops + ops' <==> op in ops || op in ops';
  }

  /** Programs only clear bits, and only where they hit. */
  lemma {:induction false} ProgramsOnlyClear(m: Mem, ops: seq<Op>, i: nat)
    requires AllPrograms(ops) && i < CAPACITY
    ensures var m' := ApplyAll(m, ops); m'[i] & m[i] == m'[i] && (!Hits(ops, i) ==> m'[i] == m[i])
    decreases |ops|
  {
    if ops == [] {
      SelfCleared(m[i]);
    } else {
      var m1 := Apply(m, ops[0]);
      assert ops == [ops[0]] + ops[1..];
      HitsConcat([ops[0]], ops[1..], i);
      ProgramsOnlyClear(m1, ops[1..], i);
      ProgramClears(m, ops[0], i);
      ClearedTrans(m[i], m1[i], ApplyAll(m1, ops[1..])[i]);
    }
  }

  lemma ProgramClears(m: Mem, op: Op, i: nat)
    requires op.Program? && i < CAPACITY
    ensures Apply(m, op)[i] & m[i] == Apply(m, op)[i] && (!HitsOp(op, i) ==> Apply(m, op)[i] == m[i])
    ensures HitsOp(op, i) && op.data[i - op.addr] == 0 ==> Apply(m, op)[i] == 0
  {
    hide AndRange;
    AndRangeByte(m, op.addr, op.data, i);
    SelfCleared(m[i]);
    if HitsOp(op, i) {
      AndCleared(m[i], op.data[i - op.addr]);
    }
  }

  lemma SelfCleared(x: bv8)
    ensures x & x == x
  {
  }

  lemma AndCleared(x: bv8, y: bv8)
    ensures (x & y) & x == x & y && x & 0 == 0
  {
  }

  lemma ClearedTrans(x: bv8, y: bv8, z: bv8)
    requires y & x == y && z & y == z
    ensures z & x == z && (y == 0 ==> z == 0)
  {
  }

  ghost predicate AllZero(ops: seq<Op>) {
    forall op, j | op in ops && op.Program? && 0 <= j < |op.data| :: op.data[j] == 0
  }

  /** Programs of zeros clear every byte they hit. */
  lemma {:induction false} ZerosClear(m: Mem, ops: seq<Op>, i: nat)
    requires AllPrograms(ops) && AllZero(ops) && Hits(ops, i) && i < CAPACITY
    ensures ApplyAll(m, ops)[i] == 0
    decreases |ops|
  {
    var m1 := Apply(m, ops[0]);
    if HitsOp(ops[0], i) {
      ProgramClears(m, ops[0], i);
      ProgramsOnlyClear(m1, ops[1..], i);
      ClearedTrans(m1[i], m1[i], ApplyAll(m1, ops[1..])[i]);
    } else {
      assert ops == [ops[0]] + ops[1..];
      HitsConcat([ops[0]], ops[1..], i);
      ZerosClear(m1, ops[1..], i);
    }
  }

  // ----- harm -----

  /** No command hits a protected firmware byte. */
  ghost predicate Spares(l: Layout, ops: seq<Op>) {
    forall i | 0 <= i < CAPACITY && l.Protected(i) :: !Hits(ops, i)
  }

  lemma SparesConcat(l: Layout, ops: seq<Op>, ops': seq<Op>)
    ensures Spares(l, ops + ops') <==> Spares(l, ops) && Spares(l, ops')
  {
    forall i: nat ensures Hits(ops + ops', i) <==> Hits(ops, i) || Hits(ops', i) {
      HitsConcat(ops, ops', i);
    }
  }

  lemma SparingIsHarmless(l: Layout, m: Mem, ops: seq<Op>)
    requires AllPrograms(ops) && Spares(l, ops)
    ensures FirmwareKept(l, m, ApplyAll(m, ops))
  {
    forall i | 0 <= i < CAPACITY && l.InFirmware(i)
      ensures var m' := ApplyAll(m, ops); (l.Protected(i) ==> m'[i] == m[i]) && m'[i] & m[i] == m'[i]
    {
      ProgramsOnlyClear(m, ops, i);
    }
  }

  function Erased(): Mem {
    seq(CAPACITY, _ => 0xFF)
  }

  lemma HittingIsHarmful(l: Layout, ops: seq<Op>)
    requires AllPrograms(ops) && AllZero(ops) && !Spares(l, ops)
    ensures !FirmwareKept(l, Erased(), ApplyAll(Erased(), ops))
  {
    var i :| 0 <= i < CAPACITY && l.Protected(i) && Hits(ops, i);
    ZerosClear(Erased(), ops, i);
    assert Erased()[i] == 0xFF;
  }

  function Zeroes(n: nat): seq<bv8> {
    seq(n, _ => 0)
  }

  // ----- page writes -----

  /** Where the k-th byte of a transfer ends up on the chip. */
  function Target(addr: u32, k: nat): (i: nat)
    ensures i < CAPACITY
  {
    Low32(addr + k) % CAPACITY
  }

  /** The guard refuses the range, or none of its bytes ends up on protected firmware. */
  predicate WriteMisses(l: Layout, addr: u32, len: u32) {
    l.Accepts(addr, len) ==> forall k | 0 <= k < len :: !l.Protected(Target(addr, k))
  }

  lemma ChunkTarget(addr: u32, n: nat, k: nat)
    requires addr % PAGE + n <= PAGE && k < n
    ensures Target(addr, k) == addr % CAPACITY + k
  {
    var t, r := addr / CAPACITY, addr % CAPACITY;
    DivMod(addr, CAPACITY);
    PageOffset(addr);
    RoomInPage(addr, k);
    RoomInPage(r, k);
    hide Low32;
    SmallLow32(addr + k);
    DivUnique(addr + k, CAPACITY, t);
  }

  lemma SmallLow32(x: nat)
    requires x < WORD32
    ensures Low32(x) == x
  {
  }

  /** Staying in the page means staying below the next multiple of the page size. */
  lemma RoomInPage(a: nat, k: nat)
    requires a % PAGE + k < PAGE
    ensures a < WORD32 ==> a + k < WORD32
    ensures a < CAPACITY ==> a + k < CAPACITY
  {
    assert a == a / PAGE * PAGE + a % PAGE;
  }

  lemma TargetShift(addr: u32, n: nat, k: nat)
    ensures Target(Low32(addr + n), k) == Target(addr, n + k)
  {
    var y, r := addr + n, (addr + n) % WORD32;
    DivMod(y, WORD32);
    DivMod(r + k, WORD32);
    DivUnique(y + k, WORD32, y / WORD32 + (r + k) / WORD32);
  }

  ghost predicate Touches(addr: u32, len: nat, i: nat) {
    exists k :: 0 <= k < len && Target(addr, k) == i
  }

  lemma TouchesSplit(addr: u32, n: nat, len: nat, i: nat)
    requires n <= len
    ensures Touches(addr, len, i) <==> Touches(addr, n, i) || Touches(Low32(addr + n), len - n, i)
  {
    hide Target;
    var rest := Low32(addr + n);
    if k :| 0 <= k < len && Target(addr, k) == i {
      if k >= n {
        TargetShift(addr, n, k - n);
      }
    }
    if k :| 0 <= k < len - n && Target(rest, k) == i {
      TargetShift(addr, n, k);
    }
  }

  lemma ChunkHits(addr: u32, data: seq<bv8>, i: nat)
    requires addr % PAGE + |data| <= PAGE
    ensures Hits(ChunkOps(addr, data), i) <==> Touches(addr, |data|, i)
  {
    hide Target;
    forall k | 0 <= k < |data| ensures Target(addr, k) == addr % CAPACITY + k {
      ChunkTarget(addr, |data|, k);
    }
    var op := Program(addr % CAPACITY, data);
    assert data != [] ==> op in ChunkOps(addr, data);
    if HitsOp(op, i) {
      assert Target(addr, i - addr % CAPACITY) == i;
    }
  }

  /** The commands of a page write hit exactly the targets of its range. */
  lemma {:induction false} PageOpsHit(addr: u32, data: seq<bv8>, i: nat)
    ensures Hits(PageOps(addr, data), i) <==> Touches(addr, |data|, i)
    decreases |data|
  {
    hide ChunkOps, Touches, Hits;
    var n := ChunkLen(addr, |data|);
    ChunkHits(addr, data[..n], i);
    if n < |data| {
      PageOpsHit(Low32(addr + n), data[n..], i);
      HitsConcat(ChunkOps(addr, data[..n]), PageOps(Low32(addr + n), data[n..]), i);
      TouchesSplit(addr, n, |data|, i);
    } else {
      assert data[..n] == data;
    }
  }

  lemma {:induction false} PageOpsAreZero(addr: u32, n: nat)
    ensures AllPrograms(PageOps(addr, Zeroes(n))) && AllZero(PageOps(addr, Zeroes(n)))
    decreases n
  {
    var c := ChunkLen(addr, n);
    assert Zeroes(n)[..c] == Zeroes(c) && Zeroes(n)[c..] == Zeroes(n - c);
    if c < n {
      PageOpsAreZero(Low32(addr + c), n - c);
    }
  }

  lemma PageOpsArePrograms(addr: u32, data: seq<bv8>)
    ensures AllPrograms(PageOps(addr, data))
  {
    PageOpsStayInPage(addr, data);
  }

  lemma WritePageSpares(l: Layout, addr: u32, data: seq<bv8>)
    requires |data| < WORD32
    ensures AllPrograms(WritePageOps(l, addr, data))
    ensures Spares(l, WritePageOps(l, addr, data)) <==> WriteMisses(l, addr, |data|)
  {
    hide PageOps, Hits, Layout.Accepts, Layout.Protected, Target;
    if l.Accepts(addr, |data|) {
      PageOpsArePrograms(addr, data);
      forall i: nat ensures Hits(PageOps(addr, data), i) <==> Touches(addr, |data|, i) {
        PageOpsHit(addr, data, i);
      }
      if Spares(l, PageOps(addr, data)) {
        forall k | 0 <= k < |data| ensures !l.Protected(Target(addr, k)) {
          assert Touches(addr, |data|, Target(addr, k));
        }
      }
    } else {
      NothingHits();
    }
  }

  lemma NothingHits()
    ensures forall i: nat :: !Hits([], i)
  {
  }

  /** A page write of this range is harmless whatever the flash holds and whatever is written. */
  ghost predicate WriteHarmless(l: Layout, addr: u32, len: u32) {
    forall m: Mem, data: seq<bv8> | |data| == len :: FirmwareKept(l, m, Effect(l, m, WritePage(addr, data)))
  }

  /** The exact condition for page writes, wrapping ones included. */
  lemma WriteHarmlessExactly(l: Layout, addr: u32, len: u32)
    ensures WriteHarmless(l, addr, len) <==> WriteMisses(l, addr, len)
  {
    hide WriteMisses, FirmwareKept, WritePageOps, AllZero, Spares;
    if WriteMisses(l, addr, len) {
      forall m: Mem, data: seq<bv8> | |data| == len
        ensures FirmwareKept(l, m, Effect(l, m, WritePage(addr, data)))
      {
        WritePageSpares(l, addr, data);
        SparingIsHarmless(l, m, WritePageOps(l, addr, data));
      }
    } else {
      WritePageSpares(l, addr, Zeroes(len));
      WritePageIsZero(l, addr, len);
      HittingIsHarmful(l, WritePageOps(l, addr, Zeroes(len)));
      assert !FirmwareKept(l, Erased(), Effect(l, Erased(), WritePage(addr, Zeroes(len))));
    }
  }

  lemma WritePageIsZero(l: Layout, addr: u32, n: nat)
    ensures AllZero(WritePageOps(l, addr, Zeroes(n)))
  {
    PageOpsAreZero(addr, n);
  }

  /** A range that does not wrap misses the protected firmware whenever it is accepted. */
  lemma PlainWriteMisses(l: Layout, addr: u32, len: nat)
    requires l.Valid() && addr + len < WORD32
    ensures WriteMisses(l, addr, len)
  {
    if l.Accepts(addr, len) {
      AcceptedRange(l, addr, len);
      forall k | 0 <= k < len ensures !l.Protected(Target(addr, k)) {
        assert Target(addr, k) == addr + k;
      }
    }
  }

  /** A wrapping range that passes the guard and programs the first byte of firmware booted from address 0. */
  lemma WrappedWriteReachesFirmware(l: Layout, m: Mem, x: bv8, y: bv8)
    requires l.Valid() && l.Boot() == 0
    ensures l.Accepts(0xFFFF_FFFF, 2)
    ensures Effect(l, m, WritePage(0xFFFF_FFFF, [x, y]))[0] == m[0] & y
  {
    var data := [x, y];
    assert ChunkLen(0xFFFF_FFFF, 2) == 1 && data[..1] == [x] && data[1..] == [y];
    assert PageOps(0, [y]) == [Program(0, [y])];
    assert PageOps(0xFFFF_FFFF, data) == [Program(0xF_FFFF, [x])] + [Program(0, [y])];
    ApplyAllConcat(m, [Program(0xF_FFFF, [x])], [Program(0, [y])]);
    ApplyOne(m, Program(0xF_FFFF, [x]));
    ApplyOne(AndRange(m, 0xF_FFFF, [x]), Program(0, [y]));
  }

  // ----- data writes -----

  /** Every chunk flash_write_data passes on is refused or misses the protected firmware. */
  predicate WriteDataMisses(l: Layout, addr: u32, len: nat)
    decreases len
  {
    var n := ChunkLen(addr, len);
    (n < WORD32 ==> WriteMisses(l, addr, n)) && (n < len ==> WriteDataMisses(l, Low32(addr + n), len - n))
  }

  lemma {:induction false} WriteDataSpares(l: Layout, addr: u32, data: seq<bv8>)
    ensures AllPrograms(WriteDataOps(l, addr, data))
    ensures Spares(l, WriteDataOps(l, addr, data)) <==> WriteDataMisses(l, addr, |data|)
    decreases |data|
  {
    hide WritePageOps, WriteMisses, Spares;
    var n := ChunkLen(addr, |data|);
    WritePageSpares(l, addr, data[..n]);
    if n < |data| {
      WriteDataSpares(l, Low32(addr + n), data[n..]);
      SparesConcat(l, WritePageOps(l, addr, data[..n]), WriteDataOps(l, Low32(addr + n), data[n..]));
    } else {
      assert data[..n] == data;
    }
  }

  lemma {:induction false} WriteDataIsZero(l: Layout, addr: u32, n: nat)
    ensures AllZero(WriteDataOps(l, addr, Zeroes(n)))
    decreases n
  {
    hide WritePageOps;
    var c := ChunkLen(addr, n);
    assert Zeroes(n)[..c] == Zeroes(c) && Zeroes(n)[c..] == Zeroes(n - c);
    WritePageIsZero(l, addr, c);
    if c < n {
      WriteDataIsZero(l, Low32(addr + c), n - c);
    }
  }

  ghost predicate WriteDataHarmless(l: Layout, addr: u32, len: nat) {
    forall m: Mem, data: seq<bv8> | |data| == len :: FirmwareKept(l, m, Effect(l, m, WriteData(addr, data)))
  }

  /** The exact condition for data writes, also when the guard accepts only some of the chunks. */
  lemma WriteDataHarmlessExactly(l: Layout, addr: u32, len: nat)
    ensures WriteDataHarmless(l, addr, len) <==> WriteDataMisses(l, addr, len)
  {
    hide WriteDataMisses, FirmwareKept, WriteDataOps, AllZero, Spares;
    if WriteDataMisses(l, addr, len) {
      forall m: Mem, data: seq<bv8> | |data| == len
        ensures FirmwareKept(l, m, Effect(l, m, WriteData(addr, data)))
      {
        WriteDataSpares(l, addr, data);
        SparingIsHarmless(l, m, WriteDataOps(l, addr, data));
      }
    } else {
      WriteDataSpares(l, addr, Zeroes(len));
      WriteDataIsZero(l, addr, len);
      HittingIsHarmful(l, WriteDataOps(l, addr, Zeroes(len)));
      assert !FirmwareKept(l, Erased(), Effect(l, Erased(), WriteData(addr, Zeroes(len))));
    }
  }

  lemma {:induction false} PlainWriteDataMisses(l: Layout, addr: u32, len: nat)
    requires l.Valid() && addr + len < WORD32
    ensures WriteDataMisses(l, addr, len)
    decreases len
  {
    hide WriteMisses, Layout.Valid;
    var n := ChunkLen(addr, len);
    PlainWriteMisses(l, addr, n);
    if n < len {
      PlainWriteDataMisses(l, addr + n, len - n);
    }
  }

  // ----- erases -----

  /** The two erase addresses that pass the guard and hit firmware: the OTA flag's, which takes the first firmware
      sector with it, and the last one, whose 32-bit sum wraps, if the firmware reaches the last sector. */
  predicate EraseMisses(l: Layout, addr: u32) {
    l.fwSizeK == 0 || (addr != l.Boot() + 8 && !(addr == 0xFFFF_FFFF && l.FwEnd() > 0xF_F000))
  }

  ghost predicate EraseHarmless(l: Layout, addr: u32) {
    forall m: Mem :: FirmwareKept(l, m, Effect(l, m, SectorErase(addr)))
  }

  lemma EraseKeeps(l: Layout, m: Mem, addr: u32)
    requires l.Valid() && EraseMisses(l, addr)
    ensures FirmwareKept(l, m, Effect(l, m, SectorErase(addr)))
  {
    if l.Accepts(addr, 1) {
      ApplyOne(m, Erase(addr % CAPACITY));
      forall i | 0 <= i < CAPACITY && l.InFirmware(i)
        ensures EraseSector(m, addr % CAPACITY)[i] == m[i]
      {
        assert l.Boot() % SECTOR == 0 && l.FwEnd() % SECTOR == 0;
        AcceptedSector(l, addr, i);
      }
    }
    forall i | 0 <= i < CAPACITY ensures m[i] & m[i] == m[i] {
      SelfCleared(m[i]);
    }
  }

  lemma AcceptedSector(l: Layout, addr: u32, i: nat)
    requires l.Valid() && EraseMisses(l, addr) && l.Accepts(addr, 1) && l.InFirmware(i) && i < CAPACITY
    ensures i / SECTOR != addr % CAPACITY / SECTOR
  {
    var b, e := l.Boot() / SECTOR, l.FwEnd() / SECTOR;
    assert l.Boot() == b * SECTOR && l.FwEnd() == e * SECTOR;
    AcceptedErase(l, addr);
    hide Layout.Boot, Layout.FwEnd, Layout.Accepts, EraseMisses;
    SectorOrder(i, b);
    SectorOrder(i, e);
    SectorOrder(addr % CAPACITY, b);
    SectorOrder(addr % CAPACITY, e);
  }

  /** Where an accepted erase lands: in front of the firmware, or behind it, unless it is the last sector. */
  lemma AcceptedErase(l: Layout, addr: u32)
    requires l.Valid() && EraseMisses(l, addr) && l.Accepts(addr, 1) && l.fwSizeK > 0
    ensures var a := addr % CAPACITY;
            a < l.Boot() || a >= l.FwEnd() || (a == 0xF_FFFF && l.FwEnd() <= 0xF_F000)
  {
    assert l.Boot() <= 0x6_0000;
    if addr != 0xFFFF_FFFF {
      SmallLow32(addr + 1);
      hide Low32, Layout.Boot, Layout.FwEnd;
      assert addr % CAPACITY == addr;
    }
  }

  lemma SectorOrder(x: nat, k: nat)
    ensures x >= k * SECTOR <==> x / SECTOR >= k
  {
  }

  /** Of all erase addresses exactly those two are harmful. */
  lemma EraseHarmlessExactly(l: Layout, addr: u32)
    requires l.Valid()
    ensures EraseHarmless(l, addr) <==> EraseMisses(l, addr)
  {
    if EraseMisses(l, addr) {
      forall m: Mem ensures FirmwareKept(l, m, Effect(l, m, SectorErase(addr))) {
        EraseKeeps(l, m, addr);
      }
    } else {
      var m: Mem := seq(CAPACITY, _ => 0);
      var i := HarmfulErase(l, addr);
      ApplyOne(m, Erase(addr % CAPACITY));
      assert Effect(l, m, SectorErase(addr))[i] == 0xFF;
      assert !FirmwareKept(l, m, Effect(l, m, SectorErase(addr)));
    }
  }

  lemma HarmfulErase(l: Layout, addr: u32) returns (i: nat)
    requires l.Valid() && !EraseMisses(l, addr)
    ensures l.Accepts(addr, 1) && i < CAPACITY && l.Protected(i) && i / SECTOR == addr % CAPACITY / SECTOR
  {
    if addr == l.Boot() + 8 {
      i := l.Boot();
      var b := i / SECTOR;
      assert i == b * SECTOR && addr % CAPACITY == addr;
      hide Layout.Boot;
      DivUnique(i, SECTOR, b);
      DivUnique(addr, SECTOR, b);
    } else {
      i := 0xF_F000;
    }
  }

  // ----- runs -----

  /** The calls that are harmless by the conditions above. */
  predicate Regular(l: Layout, call: Call) {
    match call
    case WritePage(addr, data) => |data| < WORD32 ==> WriteMisses(l, addr, |data|)
    case WriteData(addr, data) => WriteDataMisses(l, addr, |data|)
    case SectorErase(addr) => EraseMisses(l, addr)
  }

  /** In particular, ranges that do not wrap round the 32-bit address space and sector-aligned erases. */
  predicate Plain(call: Call) {
    match call
    case WritePage(addr, data) => addr + |data| < WORD32
    case WriteData(addr, data) => addr + |data| < WORD32
    case SectorErase(addr) => addr % SECTOR == 0
  }

  lemma PlainIsRegular(l: Layout, call: Call)
    requires l.Valid() && Plain(call)
    ensures Regular(l, call)
  {
    match call
    case WritePage(addr, data) => PlainWriteMisses(l, addr, |data|);
    case WriteData(addr, data) => PlainWriteDataMisses(l, addr, |data|);
    case SectorErase(addr) => assert (l.Boot() + 8) % SECTOR == 8;
  }

  lemma CallKeeps(l: Layout, m: Mem, call: Call)
    requires l.Valid() && Regular(l, call)
    ensures FirmwareKept(l, m, Effect(l, m, call))
  {
    hide FirmwareKept, WritePageOps, WriteDataOps, EraseOps, Spares, WriteMisses, WriteDataMisses;
    match call
    case WritePage(addr, data) =>
      if |data| < WORD32 {
        WritePageSpares(l, addr, data);
        SparingIsHarmless(l, m, WritePageOps(l, addr, data));
      } else {
        NoPageOps(l, addr, data);
        KeptRefl(l, m);
      }
    case WriteData(addr, data) =>
      WriteDataSpares(l, addr, data);
      SparingIsHarmless(l, m, WriteDataOps(l, addr, data));
    case SectorErase(addr) => EraseKeeps(l, m, addr);
  }

  lemma NoPageOps(l: Layout, addr: u32, data: seq<bv8>)
    requires |data| >= WORD32
    ensures WritePageOps(l, addr, data) == []
  {
  }

  lemma KeptRefl(l: Layout, m: Mem)
    ensures FirmwareKept(l, m, m)
  {
  }

  lemma KeptTrans(l: Layout, m: Mem, m1: Mem, m2: Mem)
    requires FirmwareKept(l, m, m1) && FirmwareKept(l, m1, m2)
    ensures FirmwareKept(l, m, m2)
  {
    forall i | 0 <= i < CAPACITY && l.InFirmware(i)
      ensures m2[i] & m[i] == m2[i]
    {
      ClearedTrans(m[i], m1[i], m2[i]);
    }
  }

  /** The whole run: no sequence of such calls, accepted or refused, changes a protected firmware byte or sets a bit
      of the OTA flag. */
  lemma {:induction false} RunKeepsFirmware(l: Layout, m: Mem, calls: seq<Call>)
    requires l.Valid() && forall call <- calls :: Regular(l, call)
    ensures FirmwareKept(l, m, RunCalls(l, m, calls))
    decreases |calls|
  {
    hide FirmwareKept, CallOps, Regular;
    if calls == [] {
      KeptRefl(l, m);
    } else {
      var m1 := Effect(l, m, calls[0]);
      CallKeeps(l, m, calls[0]);
      RunKeepsFirmware(l, m1, calls[1..]);
      KeptTrans(l, m, m1, RunCalls(l, m1, calls[1..]));
    }
  }
}

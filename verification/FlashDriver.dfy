/** The flash driver of flash.c: what it sends over MSPI, and the firmware-area guard in front of it.

    The wire streams and the lists of chip commands are functions; the class `Flash` is the imperative
    driver, each of whose methods is proved to emit its stream and to have the chip carry out its commands. */
module FlashDriver {
  import opened Arith
  import opened Bytes
  import opened NorChip

  const FLASH_MAX_SIZE: nat := 1024 * 1024

  function Low32(x: nat): u32 {
    x % WORD32
  }

  // ----- streams -----

  function AddrBytes(addr: u32): seq<bv8> {
    [ToByte(addr / 0x1_0000 % 256), ToByte(addr / 0x100 % 256), ToByte(addr % 256)]
  }

  function Clocks(data: seq<bv8>): (es: seq<Wire>)
    ensures |es| == |data|
  {
    seq(|data|, i requires 0 <= i < |data| => Clock(data[i]))
  }

  function Zeros(n: nat): seq<bv8> {
    seq(n, _ => 0)
  }

  function CmdStream(cmd: bv8): seq<Wire> {
    [High, Low] + Clocks([cmd])
  }

  function HeaderStream(cmd: bv8, addr: u32, addrEn: bool): seq<Wire> {
    CmdStream(cmd) + Clocks(if addrEn then AddrBytes(addr) else [])
  }

  function WaitDoneStream(): seq<Wire> {
    CmdStream(READ_STATUS_CMD) + Clocks([0]) + [High]
  }

  function WriteRamStream(cmd: bv8, addr: u32, addrEn: bool, data: seq<bv8>): seq<Wire> {
    CmdStream(WRITE_ENABLE_CMD) + HeaderStream(cmd, addr, addrEn) + Clocks(data) + [High] + WaitDoneStream()
  }

  /** The stream up to the moment the n-th data byte is in the MSPI data register. */
  function ReadRamPrefix(cmd: bv8, addr: u32, addrEn: bool, dummyCnt: nat, n: nat): seq<Wire> {
    HeaderStream(cmd, addr, addrEn) + Clocks(Zeros(dummyCnt + 1 + n))
  }

  /** How many of len bytes fit between addr and the end of its page. */
  function ChunkLen(addr: u32, len: nat): (n: nat)
    ensures n <= len && addr % PAGE + n <= PAGE
    ensures len > 0 ==> n > 0
  {
    var ns := PAGE - addr % PAGE;
    if len > ns then ns else len
  }

  function PageStream(addr: u32, data: seq<bv8>): seq<Wire>
    decreases |data|
  {
    var n := ChunkLen(addr, |data|);
    if n == |data| then WriteRamStream(WRITE_CMD, addr, true, data)
    else WriteRamStream(WRITE_CMD, addr, true, data[..n]) + PageStream(Low32(addr + n), data[n..])
  }

  function EraseStream(addr: u32): seq<Wire> {
    WriteRamStream(SECT_ERASE_CMD, addr, true, [])
  }

  /** What the streams look like on the wire: write enable is 0x06, program 0x02, erase 0x20, read status 0x05. */
  lemma WriteOnWire(addr: u32, data: seq<bv8>)
    ensures WriteRamStream(WRITE_CMD, addr, true, data)
            == [High, Low, Clock(0x06), High, Low, Clock(0x02)] + Clocks(AddrBytes(addr)) + Clocks(data)
               + [High, High, Low, Clock(0x05), Clock(0), High]
    ensures EraseStream(addr)
            == [High, Low, Clock(0x06), High, Low, Clock(0x20)] + Clocks(AddrBytes(addr))
               + [High, High, Low, Clock(0x05), Clock(0), High]
  {
    hide ToByte, AddrBytes;
    OneFrameOnWire(WRITE_CMD, Clocks(AddrBytes(addr)), Clocks(data));
    OneFrameOnWire(SECT_ERASE_CMD, Clocks(AddrBytes(addr)), Clocks([]));
    assert Clocks(AddrBytes(addr)) + Clocks([]) == Clocks(AddrBytes(addr));
  }

  lemma OneFrameOnWire(cmd: bv8, address: seq<Wire>, rest: seq<Wire>)
    ensures CmdStream(WRITE_ENABLE_CMD) + (CmdStream(cmd) + address) + rest + [High] + WaitDoneStream()
            == [High, Low, Clock(0x06), High, Low, Clock(cmd)] + (address + rest)
               + [High, High, Low, Clock(0x05), Clock(0), High]
  {
    assert Clocks([cmd]) == [Clock(cmd)] && Clocks([0]) == [Clock(0)];
    assert Clocks([WRITE_ENABLE_CMD]) == [Clock(0x06)] && Clocks([READ_STATUS_CMD]) == [Clock(0x05)];
  }

  /** A read is command, address, the dummies, one zero to issue the clock, and one more for every byte taken. */
  lemma ReadOnWire(cmd: bv8, addr: u32, dummyCnt: nat, n: nat)
    ensures ReadRamPrefix(cmd, addr, true, dummyCnt, n)
            == [High, Low, Clock(cmd)] + Clocks(AddrBytes(addr)) + seq(dummyCnt + 1 + n, _ => Clock(0))
    ensures ReadRamPrefix(cmd, addr, false, dummyCnt, n)
            == [High, Low, Clock(cmd)] + seq(dummyCnt + 1 + n, _ => Clock(0))
    ensures READ_CMD == 0x03
  {
    hide ToByte, AddrBytes;
    assert Clocks([cmd]) == [Clock(cmd)] && Clocks([]) == [];
    assert Clocks(Zeros(dummyCnt + 1 + n)) == seq(dummyCnt + 1 + n, _ => Clock(0));
  }

  // ----- commands the chip is to carry out -----

  /** A program frame without data bytes makes the chip do nothing. */
  function ChunkOps(addr: u32, data: seq<bv8>): seq<Op> {
    if data == [] then [] else [Program(addr % CAPACITY, data)]
  }

  function PageOps(addr: u32, data: seq<bv8>): seq<Op>
    decreases |data|
  {
    var n := ChunkLen(addr, |data|);
    if n == |data| then ChunkOps(addr, data)
    else ChunkOps(addr, data[..n]) + PageOps(Low32(addr + n), data[n..])
  }

  predicate InOnePage(op: Op) {
    op.Program? && op.data != [] && op.addr < CAPACITY && op.addr % PAGE + |op.data| <= PAGE
  }

  /** c' is c after exactly the commands `ops`, none dropped, with the chip deselected again. */
  ghost predicate Executed(c: Chip, c': Chip, ops: seq<Op>) {
    && Idle(c')
    && c'.mem == ApplyAll(c.mem, ops)
    && c'.log == c.log + ops
    && c'.dropped == c.dropped
  }

  // ----- the guard -----

  /** The boot-address register 0x63e and FW_SIZE_MAX_K.  mesh_ota.c asserts that the size is a multiple of 4. */
  datatype Layout = Layout(bootReg: nat, fwSizeK: nat) {
    predicate Valid() {
      fwSizeK % 4 == 0 && FwEnd() < WORD32
    }

    function Boot(): nat {
      bootReg % 4 * 0x80 * 0x400
    }

    function FwEnd(): nat {
      Boot() + fwSizeK * 0x400
    }

    predicate InFirmware(i: nat) {
      Boot() <= i < FwEnd()
    }

    /** Firmware bytes other than the OTA flag at offsets 8..11. */
    predicate Protected(i: nat) {
      InFirmware(i) && !(Boot() + 8 <= i < Boot() + 12)
    }

    /** The range lies on the chip, none of its bytes is firmware, and it does not reach across the boot address
        (which says something of its own only if the firmware size is 0). */
    ghost predicate Clear(addr: nat, len: nat) {
      && addr + len <= 0x10_0000
      && (forall i | addr <= i < addr + len :: !InFirmware(i))
      && !(addr < Boot() < addr + len)
    }

    /** What the driver may be asked to change: ranges clear of the firmware, and the OTA flag. */
    ghost predicate Admits(addr: nat, len: nat) {
      Clear(addr, len) || (addr == Boot() + 8 && len <= 4)
    }

    /** The address check, with its 32-bit sum. */
    predicate Accepts(addr: u32, len: u32) {
      || (addr >= FwEnd() && Low32(addr + len) <= FLASH_MAX_SIZE)
      || Low32(addr + len) <= Boot()
      || (addr == Boot() + 8 && len <= 4)
    }
  }

  function WritePageOps(l: Layout, addr: u32, data: seq<bv8>): seq<Op> {
    if |data| < WORD32 && l.Accepts(addr, |data|) then PageOps(addr, data) else []
  }

  function EraseOps(l: Layout, addr: u32): seq<Op> {
    if l.Accepts(addr, 1) then [Erase(addr % CAPACITY)] else []
  }

  /** Without a wrap an accepted range lies on the chip and clear of the protected firmware. */
  lemma AcceptedRange(l: Layout, addr: u32, len: nat)
    requires l.Valid() && addr + len < WORD32 && l.Accepts(addr, len)
    ensures addr + len <= CAPACITY
    ensures forall i | addr <= i < addr + len :: !l.Protected(i)
  {
  }

  /** As long as the end does not wrap, the guard accepts exactly the ranges clear of the firmware, and up to four bytes
      at boot + 8. */
  lemma AcceptsExactly(l: Layout, addr: u32, len: u32)
    requires l.Valid() && addr + len < WORD32 && len > 0
    ensures l.Accepts(addr, len) <==> l.Admits(addr, len)
  {
    if l.Clear(addr, len) {
      assert !l.InFirmware(addr);
      assert l.fwSizeK > 0 && addr < l.Boot() < addr + len ==> l.InFirmware(l.Boot());
    }
  }

  /** The four boot addresses, and the firmware size in KB. */
  lemma FirmwareRange(l: Layout)
    ensures l.Boot() == [0, 0x2_0000, 0x4_0000, 0x6_0000][l.bootReg % 4]
    ensures forall i: nat :: l.InFirmware(i) <==> 0 <= i - l.Boot() < 1024 * l.fwSizeK
  {
  }

  // ----- the wire: every stream makes the chip carry out its commands -----

  lemma RunCmd(c: Chip, cmd: bv8)
    ensures Run(c, CmdStream(cmd)) == ClockIn(Execute(c).(selected := true, frame := []), cmd)
  {
    var es := CmdStream(cmd);
    assert es == [High] + [Low] + [Clock(cmd)];
    RunConcat(c, [High] + [Low], [Clock(cmd)]);
    RunConcat(c, [High], [Low]);
  }

  /** Clocking into a frame that is neither a read nor a status poll only appends to it. */
  lemma {:induction false} RunClocks(c: Chip, data: seq<bv8>)
    requires c.selected && c.frame != [] && c.frame[0] !in {READ_CMD, READ_STATUS_CMD}
    ensures Run(c, Clocks(data)) == c.(frame := c.frame + data)
    decreases |data|
  {
    if data == [] {
      assert c.frame + data == c.frame;
    } else {
      assert Clocks(data)[1..] == Clocks(data[1..]);
      RunClocks(ClockIn(c, data[0]), data[1..]);
      assert c.frame + [data[0]] + data[1..] == c.frame + data;
    }
  }

  /** In a read frame the clocks after the address shift out consecutive bytes. */
  lemma {:induction false} RunReadClocks(c: Chip, n: nat)
    requires c.selected && |c.frame| >= 4 && c.frame[0] == READ_CMD
    ensures Run(c, Clocks(Zeros(n))) == c.(
      frame := c.frame + Zeros(n),
      dout := if n == 0 then c.dout else c.mem[(FrameAddr(c.frame) + (|c.frame| + n - 5)) % CAPACITY])
    decreases n
  {
    if n == 0 {
      assert c.frame + Zeros(n) == c.frame;
    } else {
      assert Clocks(Zeros(n))[1..] == Clocks(Zeros(n - 1));
      RunReadClocks(ClockIn(c, 0), n - 1);
      assert c.frame + [0] + Zeros(n - 1) == c.frame + Zeros(n);
    }
  }

  lemma AddrBytesValue(addr: u32)
    ensures var b := AddrBytes(addr);
            b[0] as int * 0x1_0000 + b[1] as int * 0x100 + b[2] as int == addr % 0x100_0000
  {
    Mod24(addr);
  }

  /** The chip decodes the address it was sent, modulo its capacity. */
  lemma FrameAddrOf(f: seq<bv8>, cmd: bv8, addr: u32, data: seq<bv8>)
    requires f == [cmd] + AddrBytes(addr) + data
    ensures |f| == 4 + |data| && f[4..] == data && FrameAddr(f) == addr % CAPACITY
  {
    var b := AddrBytes(addr);
    assert f[1] == b[0] && f[2] == b[1] && f[3] == b[2];
    AddrBytesValue(addr);
    ModCapacity(b[0] as int * 0x1_0000 + b[1] as int * 0x100 + b[2] as int, addr);
  }

  lemma ModCapacity(x: nat, y: nat)
    requires x == y % 0x100_0000
    ensures x % CAPACITY == y % CAPACITY
  {
    ModMod(y, CAPACITY, 16);
  }

  lemma RunHeader(c: Chip, cmd: bv8, addr: u32)
    requires cmd !in {READ_CMD, READ_STATUS_CMD}
    ensures Run(c, HeaderStream(cmd, addr, true)) == Execute(c).(selected := true, frame := [cmd] + AddrBytes(addr))
  {
    RunConcat(c, CmdStream(cmd), Clocks(AddrBytes(addr)));
    RunCmd(c, cmd);
    RunClocks(Run(c, CmdStream(cmd)), AddrBytes(addr));
  }

  /** One write command as flash_mspi_write_ram sends it: the chip sees a write-enable frame, then the command
      frame with the latch set, then a status poll. */
  lemma RunWriteRam(c: Chip, cmd: bv8, addr: u32, data: seq<bv8>)
    requires Idle(c) && cmd !in {READ_CMD, READ_STATUS_CMD, WRITE_ENABLE_CMD}
    ensures Run(c, WriteRamStream(cmd, addr, true, data))
            == Execute(c.(wel := true, selected := true, frame := [cmd] + AddrBytes(addr) + data)).(dout := 0)
  {
    hide CmdStream, HeaderStream, WaitDoneStream, Run;
    var head, es := CmdStream(WRITE_ENABLE_CMD), HeaderStream(cmd, addr, true);
    RunConcat(c, head + es + Clocks(data) + [High], WaitDoneStream());
    RunConcat(c, head + es + Clocks(data), [High]);
    RunConcat(c, head + es, Clocks(data));
    RunConcat(c, head, es);
    RunCmd(c, WRITE_ENABLE_CMD);
    var c1 := Run(c, head);
    EnableFrame(c, c1);
    RunHeader(c1, cmd, addr);
    var c2 := c.(wel := true, selected := true, frame := [cmd] + AddrBytes(addr));
    RunClocks(c2, data);
    var c3 := c2.(frame := [cmd] + AddrBytes(addr) + data);
    RunOne(c3, High);
    RunWaitDone(Execute(c3));
  }

  lemma EnableFrame(c: Chip, c1: Chip)
    requires Idle(c) && c1 == ClockIn(Execute(c).(selected := true, frame := []), WRITE_ENABLE_CMD)
    ensures Execute(c1) == c.(wel := true)
  {
    assert c1.frame == [WRITE_ENABLE_CMD];
  }

  lemma RunWaitDone(c: Chip)
    requires Idle(c)
    ensures Run(c, WaitDoneStream()) == c.(dout := 0)
  {
    RunConcat(c, CmdStream(READ_STATUS_CMD) + Clocks([0]), [High]);
    RunConcat(c, CmdStream(READ_STATUS_CMD), Clocks([0]));
    RunCmd(c, READ_STATUS_CMD);
    var c1 := Run(c, CmdStream(READ_STATUS_CMD));
    assert Run(c1, Clocks([0])) == ClockIn(c1, 0);
  }

  /** One program command inside one page. */
  lemma ChunkExecutes(c: Chip, addr: u32, data: seq<bv8>)
    requires Idle(c) && addr % PAGE + |data| <= PAGE
    ensures Executed(c, Run(c, WriteRamStream(WRITE_CMD, addr, true, data)), ChunkOps(addr, data))
  {
    var f := [WRITE_CMD] + AddrBytes(addr) + data;
    RunWriteRam(c, WRITE_CMD, addr, data);
    FrameAddrOf(f, WRITE_CMD, addr, data);
    if data != [] {
      PageOffset(addr);
      WrapProgramIsLinear(c.mem, addr % CAPACITY, data);
      assert ChunkOps(addr, data)[1..] == [];
    }
  }

  lemma PageOffset(addr: u32)
    ensures addr % CAPACITY % PAGE == addr % PAGE
  {
  }

  lemma ExecutedTrans(c: Chip, c1: Chip, c2: Chip, ops: seq<Op>, ops': seq<Op>)
    requires Executed(c, c1, ops) && Executed(c1, c2, ops')
    ensures Executed(c, c2, ops + ops')
  {
    hide ApplyAll;
    ApplyAllConcat(c.mem, ops, ops');
  }

  lemma ExecutedNothing(c: Chip)
    requires Idle(c)
    ensures Executed(c, c, [])
  {
    assert c.log + [] == c.log;
  }

  lemma {:induction false} PageStreamExecutes(c: Chip, addr: u32, data: seq<bv8>)
    requires Idle(c)
    ensures Executed(c, Run(c, PageStream(addr, data)), PageOps(addr, data))
    decreases |data|
  {
    hide WriteRamStream, Apply;
    var n := ChunkLen(addr, |data|);
    var es := WriteRamStream(WRITE_CMD, addr, true, data[..n]);
    var c1 := Run(c, es);
    ChunkExecutes(c, addr, data[..n]);
    if n < |data| {
      var es' := PageStream(Low32(addr + n), data[n..]);
      RunConcat(c, es, es');
      PageStreamExecutes(c1, Low32(addr + n), data[n..]);
      ExecutedTrans(c, c1, Run(c1, es'), ChunkOps(addr, data[..n]), PageOps(Low32(addr + n), data[n..]));
    } else {
      assert data[..n] == data;
    }
  }

  lemma EraseStreamExecutes(c: Chip, addr: u32)
    requires Idle(c)
    ensures Executed(c, Run(c, EraseStream(addr)), [Erase(addr % CAPACITY)])
  {
    RunWriteRam(c, SECT_ERASE_CMD, addr, []);
    FrameAddrOf([SECT_ERASE_CMD] + AddrBytes(addr) + [], SECT_ERASE_CMD, addr, []);
    assert [Erase(addr % CAPACITY)][1..] == [];
  }

  // ----- what the commands amount to -----

  /** No program crosses a page, and none is empty. */
  lemma {:induction false} PageOpsStayInPage(addr: u32, data: seq<bv8>)
    ensures forall i | 0 <= i < |PageOps(addr, data)| :: InOnePage(PageOps(addr, data)[i])
    decreases |data|
  {
    var n := ChunkLen(addr, |data|);
    PageOffset(addr);
    if n < |data| {
      PageOpsStayInPage(Low32(addr + n), data[n..]);
    }
  }

  /** The split write is one linear write. */
  lemma {:induction false} PageOpsAreLinear(m: Mem, addr: u32, data: seq<bv8>)
    requires addr + |data| <= CAPACITY
    ensures ApplyAll(m, PageOps(addr, data)) == AndRange(m, addr, data)
    decreases |data|
  {
    hide Apply, ApplyAll, AndRange, PageOps, ChunkOps;
    var n := ChunkLen(addr, |data|);
    var ops := ChunkOps(addr, data[..n]);
    PageOpsUnfold(addr, data);
    ChunkOpsAreLinear(m, addr, data[..n]);
    if n < |data| {
      ApplyAllConcat(m, ops, PageOps(addr + n, data[n..]));
      PageOpsAreLinear(AndRange(m, addr, data[..n]), addr + n, data[n..]);
      AndRangeSplit(m, addr, data, n);
    }
  }

  lemma PageOpsUnfold(addr: u32, data: seq<bv8>)
    ensures var n := ChunkLen(addr, |data|);
            var ops := ChunkOps(addr, data[..n]);
            && (n == |data| ==> data[..n] == data)
            && PageOps(addr, data) == if n == |data| then ops else ops + PageOps(Low32(addr + n), data[n..])
  {
    hide ChunkOps;
    var n := ChunkLen(addr, |data|);
    assert n == |data| ==> data[..n] == data;
  }

  lemma ChunkOpsAreLinear(m: Mem, addr: u32, data: seq<bv8>)
    requires addr + |data| <= CAPACITY
    ensures ApplyAll(m, ChunkOps(addr, data)) == AndRange(m, addr, data)
  {
    if data == [] {
      assert AndRange(m, addr, data) == m;
    } else {
      ApplyOne(m, Program(addr % CAPACITY, data));
    }
  }

  /** From wire to memory: for every range on the chip, the stream of a page write ANDs the buffer into exactly
      that range, by programs none of which crosses a page or is dropped for want of a write enable. */
  lemma PageStreamRefinesLinearWrite(c: Chip, addr: u32, data: seq<bv8>)
    requires Idle(c) && addr + |data| <= CAPACITY
    ensures var c' := Run(c, PageStream(addr, data));
            && c'.mem == AndRange(c.mem, addr, data)
            && c'.dropped == c.dropped && Idle(c')
            && |c'.log| >= |c.log| && c'.log[..|c.log|] == c.log
            && forall i | |c.log| <= i < |c'.log| :: InOnePage(c'.log[i])
  {
    hide PageStream, PageOps, AndRange;
    PageStreamExecutes(c, addr, data);
    PageOpsAreLinear(c.mem, addr, data);
    PageOpsStayInPage(addr, data);
  }

  /** And a read of the range afterwards shifts out the memory as the write left it. */
  lemma WrittenBytesReadBack(c: Chip, addr: u32, data: seq<bv8>, k: nat)
    requires Idle(c) && addr + |data| <= CAPACITY && k < |data|
    ensures var c' := Run(c, PageStream(addr, data));
            Run(c', ReadRamPrefix(READ_CMD, addr, true, 0, k)).dout == c.mem[addr + k] & data[k]
  {
    hide PageStream, ReadRamPrefix, Run, InOnePage;
    PageStreamRefinesLinearWrite(c, addr, data);
    RunReadPrefix(Run(c, PageStream(addr, data)), addr, k);
    assert (addr + k) % CAPACITY == addr + k;
  }

  // ----- the driver -----

  class Flash {
    const layout: Layout
    var chip: Chip
    var auto: bool   // MSPI auto mode: reading the data register clocks the next byte
    ghost var wire: seq<Wire>   // everything sent so far

    constructor (layout: Layout, chip: Chip)
      requires Idle(chip)
      ensures this.layout == layout && this.chip == chip && wire == []
    {
      this.layout, this.chip, auto, wire := layout, chip, false, [];
    }

    method MspiHigh()
      modifies this
      ensures wire == old(wire) + [High] && chip == Step(old(chip), High) && !auto
    {
      chip, auto, wire := Step(chip, High), false, wire + [High];
    }

    method MspiLow()
      modifies this
      ensures wire == old(wire) + [Low] && chip == Step(old(chip), Low) && !auto
    {
      chip, auto, wire := Step(chip, Low), false, wire + [Low];
    }

    method MspiWrite(b: bv8)
      modifies this
      ensures wire == old(wire) + [Clock(b)] && chip == Step(old(chip), Clock(b)) && auto == old(auto)
    {
      chip, wire := Step(chip, Clock(b)), wire + [Clock(b)];
    }

    method MspiGet() returns (b: bv8)
      modifies this
      ensures b == old(chip).dout && auto == old(auto)
      ensures !auto ==> wire == old(wire) && chip == old(chip)
      ensures auto ==> wire == old(wire) + [Clock(0)] && chip == Step(old(chip), Clock(0))
    {
      b := chip.dout;
      if auto {
        MspiWrite(0);
      }
    }

    method SendBytes(data: seq<bv8>)
      modifies this
      ensures wire == old(wire) + Clocks(data) && chip == Run(old(chip), Clocks(data)) && auto == old(auto)
    {
      for i := 0 to |data|
        invariant wire == old(wire) + Clocks(data[..i]) && chip == Run(old(chip), Clocks(data[..i]))
        invariant auto == old(auto)
      {
        assert Clocks(data[..i + 1]) == Clocks(data[..i]) + [Clock(data[i])];
        RunConcat(old(chip), Clocks(data[..i]), [Clock(data[i])]);
        MspiWrite(data[i]);
      }
      assert data[..|data|] == data;
    }

    method FlashSendCmd(cmd: bv8)
      modifies this
      ensures wire == old(wire) + CmdStream(cmd) && chip == Run(old(chip), CmdStream(cmd)) && !auto
    {
      MspiHigh();
      MspiLow();
      RunCmd(old(chip), cmd);
      MspiWrite(cmd);
    }

    method FlashSendAddr(addr: u32)
      modifies this
      ensures wire == old(wire) + Clocks(AddrBytes(addr)) && chip == Run(old(chip), Clocks(AddrBytes(addr)))
      ensures auto == old(auto)
    {
      ghost var bytes := AddrBytes(addr);
      assert Clocks(bytes) == [Clock(bytes[0])] + [Clock(bytes[1])] + [Clock(bytes[2])];
      RunConcat(chip, [Clock(bytes[0])] + [Clock(bytes[1])], [Clock(bytes[2])]);
      RunConcat(chip, [Clock(bytes[0])], [Clock(bytes[1])]);
      hide ToByte;
      MspiWrite(ToByte(addr / 0x1_0000 % 256));
      MspiWrite(ToByte(addr / 0x100 % 256));
      MspiWrite(ToByte(addr % 256));
    }

    method SendHeader(cmd: bv8, addr: u32, addrEn: bool)
      modifies this
      ensures wire == old(wire) + HeaderStream(cmd, addr, addrEn)
      ensures chip == Run(old(chip), HeaderStream(cmd, addr, addrEn)) && !auto
    {
      FlashSendCmd(cmd);
      RunConcat(old(chip), CmdStream(cmd), Clocks(if addrEn then AddrBytes(addr) else []));
      if addrEn {
        FlashSendAddr(addr);
      }
    }

    method FlashWaitDone()
      requires Idle(chip)
      modifies this
      ensures wire == old(wire) + WaitDoneStream() && chip == Run(old(chip), WaitDoneStream())
    {
      ghost var cmd := CmdStream(READ_STATUS_CMD);
      RunConcat(old(chip), cmd + Clocks([0]), [High]);
      RunConcat(old(chip), cmd, Clocks([0]));
      FlashSendCmd(READ_STATUS_CMD);
      RunCmd(old(chip), READ_STATUS_CMD);
      RunOne(chip, Clock(0));
      assert Clocks([0]) == [Clock(0)];
      var i, busy := 0, true;
      while i < 10_000_000 && busy
        invariant !auto && 0 <= i
        invariant busy ==> i == 0 && chip == Run(old(chip), cmd) && wire == old(wire) + cmd
        invariant !busy ==> chip == Run(old(chip), cmd + Clocks([0])) && wire == old(wire) + (cmd + Clocks([0]))
      {
        busy := FlashIsBusy();
        i := i + 1;
      }
      MspiHigh();
    }

    /** mspi_read clocks a zero in and takes what the chip shifts out; bit 0 of the status is the busy bit. */
    method FlashIsBusy() returns (busy: bool)
      requires !auto
      modifies this
      ensures wire == old(wire) + [Clock(0)] && chip == Step(old(chip), Clock(0)) && !auto
      ensures busy == (chip.dout & 1 != 0)
    {
      MspiWrite(0);
      var b := MspiGet();
      busy := b & 1 != 0;
    }

    method FlashMspiReadRam(cmd: bv8, addr: u32, addrEn: bool, dummyCnt: nat, data: array<bv8>, dataLen: nat)
      requires dataLen <= data.Length
      modifies this, data
      ensures wire == old(wire) + ReadRamPrefix(cmd, addr, addrEn, dummyCnt, dataLen) + [High]
      ensures chip == Run(old(chip), ReadRamPrefix(cmd, addr, addrEn, dummyCnt, dataLen) + [High])
      ensures forall i | 0 <= i < dataLen ::
        data[i] == Run(old(chip), ReadRamPrefix(cmd, addr, addrEn, dummyCnt, i)).dout
      ensures forall i | dataLen <= i < data.Length :: data[i] == old(data[i])
    {
      hide HeaderStream, Run, Clocks;
      var header := HeaderStream(cmd, addr, addrEn);
      SendHeader(cmd, addr, addrEn);
      RunConcat(old(chip), header, Clocks(Zeros(dummyCnt + 1)));
      SendBytes(Zeros(dummyCnt + 1));   // the dummy bytes and one more to issue the clock
      auto := true;
      for i := 0 to dataLen
        invariant auto
        invariant wire == old(wire) + ReadRamPrefix(cmd, addr, addrEn, dummyCnt, i)
        invariant chip == Run(old(chip), ReadRamPrefix(cmd, addr, addrEn, dummyCnt, i))
        invariant forall j | 0 <= j < i :: data[j] == Run(old(chip), ReadRamPrefix(cmd, addr, addrEn, dummyCnt, j)).dout
        invariant forall j | i <= j < data.Length :: data[j] == old(data[j])
      {
        var prefix := ReadRamPrefix(cmd, addr, addrEn, dummyCnt, i);
        PrefixGrows(cmd, addr, addrEn, dummyCnt, i);
        RunConcat(old(chip), prefix, [Clock(0)]);
        RunOne(chip, Clock(0));
        var b := MspiGet();
        data[i] := b;
      }
      RunConcat(old(chip), ReadRamPrefix(cmd, addr, addrEn, dummyCnt, dataLen), [High]);
      RunOne(chip, High);
      MspiHigh();
    }

    method FlashMspiWriteRam(cmd: bv8, addr: u32, addrEn: bool, data: seq<bv8>)
      requires Idle(chip)
      modifies this
      ensures wire == old(wire) + WriteRamStream(cmd, addr, addrEn, data)
      ensures chip == Run(old(chip), WriteRamStream(cmd, addr, addrEn, data))
    {
      hide CmdStream, HeaderStream, WaitDoneStream, Run;
      var head, es := CmdStream(WRITE_ENABLE_CMD), HeaderStream(cmd, addr, addrEn);
      FlashSendCmd(WRITE_ENABLE_CMD);
      RunConcat(old(chip), head, es);
      SendHeader(cmd, addr, addrEn);
      assert chip == Run(old(chip), head + es) && wire == old(wire) + (head + es);
      RunConcat(old(chip), head + es, Clocks(data));
      SendBytes(data);
      assert chip == Run(old(chip), head + es + Clocks(data)) && wire == old(wire) + (head + es + Clocks(data));
      RunConcat(old(chip), head + es + Clocks(data), [High]);
      RunOne(chip, High);
      MspiHigh();
      RunConcat(old(chip), head + es + Clocks(data) + [High], WaitDoneStream());
      FlashWaitDone();
    }

    /** One sector is erased if it is clear of the firmware; at any other address, the last one and the OTA flag's
        apart, nothing happens. */
    method FlashEraseSector(addr: u32)
      requires Idle(chip)
      modifies this
      ensures Executed(old(chip), chip, EraseOps(layout, addr))
      ensures layout.Valid() && layout.Clear(addr, 1) ==> chip.mem == EraseSector(old(chip).mem, addr)
      ensures layout.Valid() && addr + 1 < WORD32 && !layout.Admits(addr, 1) ==> chip == old(chip)
      ensures wire == old(wire) + if layout.Accepts(addr, 1) then EraseStream(addr) else []
    {
      hide Executed, WriteRamStream, Run, Layout.Clear, Layout.Admits, Layout.Accepts, Layout.Valid;
      EraseEffect(layout, chip, addr);
      if !layout.Accepts(addr, 1) {
        ExecutedNothing(chip);
        return;
      }
      EraseStreamExecutes(chip, addr);
      FlashMspiWriteRam(SECT_ERASE_CMD, addr, true, []);
    }

    /** The bytes read are the memory from addr on, and nothing else changes. */
    method FlashReadPage(addr: u32, len: nat, buf: array<bv8>)
      requires Idle(chip) && len <= buf.Length
      modifies this, buf
      ensures Executed(old(chip), chip, [])
      ensures forall i | 0 <= i < len :: buf[i] == chip.mem[(addr + i) % CAPACITY]
      ensures forall i | len <= i < buf.Length :: buf[i] == old(buf[i])
      ensures wire == old(wire) + ReadRamPrefix(READ_CMD, addr, true, 0, len) + [High]
    {
      FlashMspiReadRam(READ_CMD, addr, true, 0, buf, len);
      forall i | 0 <= i <= len
        ensures var c := Run(old(chip), ReadRamPrefix(READ_CMD, addr, true, 0, i));
                c.dout == old(chip).mem[(addr + i) % CAPACITY] && Executed(old(chip), Execute(c), [])
      {
        RunReadPrefix(old(chip), addr, i);
      }
      RunConcat(old(chip), ReadRamPrefix(READ_CMD, addr, true, 0, len), [High]);
    }

    /** The loop over pages. */
    method WritePages(addr: u32, buf: seq<bv8>)
      requires Idle(chip) && |buf| < WORD32
      modifies this
      ensures wire == old(wire) + PageStream(addr, buf) && chip == Run(old(chip), PageStream(addr, buf))
    {
      hide WriteRamStream, PageStream, Run;
      var a, b, len := addr, 0, |buf|;
      var ns := PAGE - addr % PAGE;
      while true
        invariant 0 <= b <= |buf| && len == |buf| - b && Idle(chip) && 0 <= a < WORD32
        invariant b > 0 ==> len > 0 && a % PAGE == 0
        invariant ns == PAGE - a % PAGE
        invariant wire + PageStream(a, buf[b..]) == old(wire) + PageStream(addr, buf)
        invariant Run(chip, PageStream(a, buf[b..])) == Run(old(chip), PageStream(addr, buf))
        decreases len
      {
        var nw := if len > ns then ns else len;
        assert buf[b..b + nw] == buf[b..][..nw] && buf[b..][nw..] == buf[b + nw..];
        PageStreamTurn(chip, wire, a, buf[b..]);
        FlashMspiWriteRam(WRITE_CMD, a, true, buf[b..b + nw]);
        ns, a, b, len := PAGE, Low32(a + nw), b + nw, len - nw;
        if len == 0 {
          break;
        }
      }
    }

    /** The page loop behind the guard: on a range clear of the firmware one linear write, and on any other that does
        not wrap nothing, apart from the OTA flag. */
    method FlashWritePage(addr: u32, buf: seq<bv8>)
      requires Idle(chip) && |buf| < WORD32
      modifies this
      ensures Executed(old(chip), chip, WritePageOps(layout, addr, buf))
      ensures layout.Valid() && layout.Clear(addr, |buf|) ==> chip.mem == AndRange(old(chip).mem, addr, buf)
      ensures layout.Valid() && addr + |buf| < WORD32 && buf != [] && !layout.Admits(addr, |buf|) ==>
        chip == old(chip)
      ensures wire == old(wire) + if layout.Accepts(addr, |buf|) then PageStream(addr, buf) else []
    {
      hide PageStream, Run, Executed, AndRange, WritePageOps, Layout.Clear, Layout.Admits, Layout.Accepts, Layout.Valid;
      WriteEffect(layout, chip, addr, buf);
      if !layout.Accepts(addr, |buf|) {
        ExecutedNothing(chip);
        return;
      }
      PageStreamExecutes(chip, addr, buf);
      WritePages(addr, buf);
    }
  }

  /** What a guarded page write does to the chip. */
  lemma WriteEffect(l: Layout, c: Chip, addr: u32, data: seq<bv8>)
    requires |data| < WORD32
    ensures WritePageOps(l, addr, data) == if l.Accepts(addr, |data|) then PageOps(addr, data) else []
    ensures forall c' | l.Valid() && l.Clear(addr, |data|) && Executed(c, c', WritePageOps(l, addr, data)) ::
      c'.mem == AndRange(c.mem, addr, data)
    ensures l.Valid() && addr + |data| < WORD32 && data != [] && !l.Admits(addr, |data|) ==> !l.Accepts(addr, |data|)
  {
    hide PageOps, AndRange;
    if data == [] {
      PageOpsOfNothing(addr);
      AndRangeNone(c.mem, addr);
    } else if l.Valid() && addr + |data| < WORD32 {
      AcceptsExactly(l, addr, |data|);
      hide Layout.Accepts;
      if l.Clear(addr, |data|) {
        PageOpsAreLinear(c.mem, addr, data);
      }
    }
  }

  lemma EraseEffect(l: Layout, c: Chip, addr: u32)
    ensures forall c' | l.Valid() && l.Clear(addr, 1) && Executed(c, c', EraseOps(l, addr)) ::
      c'.mem == EraseSector(c.mem, addr)
    ensures l.Valid() && addr + 1 < WORD32 && !l.Admits(addr, 1) ==> !l.Accepts(addr, 1)
  {
    hide EraseSector;
    ApplyOne(c.mem, Erase(addr % CAPACITY));
    if l.Valid() && addr + 1 < WORD32 {
      AcceptsExactly(l, addr, 1);
    }
  }

  lemma PageOpsOfNothing(addr: u32)
    ensures PageOps(addr, []) == []
  {
  }

  /** One turn of the page loop: what is left to send starts at the next page. */
  lemma PageStreamTurn(c: Chip, wire: seq<Wire>, addr: u32, data: seq<bv8>)
    requires Idle(c)
    ensures var n := ChunkLen(addr, |data|);
            var es := WriteRamStream(WRITE_CMD, addr, true, data[..n]);
            var c' := Run(c, es);
            && Idle(c')
            && (n == |data| ==> PageStream(addr, data) == es)
            && (n < |data| ==>
                  var es' := PageStream(Low32(addr + n), data[n..]);
                  && Low32(addr + n) % PAGE == 0
                  && wire + PageStream(addr, data) == wire + es + es'
                  && Run(c, PageStream(addr, data)) == Run(c', es'))
  {
    hide WriteRamStream, Run, PageStream, ApplyAll, ChunkOps, ChunkLen;
    var n := ChunkLen(addr, |data|);
    PageStreamUnfolds(addr, data);
    ChunkExecutes(c, addr, data[..n]);
    if n < |data| {
      NextPage(addr, n);
      RunConcat(c, WriteRamStream(WRITE_CMD, addr, true, data[..n]), PageStream(Low32(addr + n), data[n..]));
    }
  }

  lemma PageStreamUnfolds(addr: u32, data: seq<bv8>)
    ensures var n := ChunkLen(addr, |data|);
            var es := WriteRamStream(WRITE_CMD, addr, true, data[..n]);
            && (n < |data| ==> addr % PAGE + n == PAGE)
            && PageStream(addr, data) == if n == |data| then es else es + PageStream(Low32(addr + n), data[n..])
  {
    hide WriteRamStream;
    if ChunkLen(addr, |data|) == |data| {
      assert data[..|data|] == data;
    }
  }

  lemma NextPage(addr: u32, n: nat)
    requires addr % PAGE + n == PAGE
    ensures Low32(addr + n) % PAGE == 0
  {
    var q := addr / PAGE + 1;
    assert addr + n == q * PAGE;
    MultipleMod(q, PAGE);
    if addr + n >= WORD32 {
      assert Low32(addr + n) == addr + n - WORD32 == (q - 0x100_0000) * PAGE;
      MultipleMod(q - 0x100_0000, PAGE);
    }
  }

  lemma PrefixGrows(cmd: bv8, addr: u32, addrEn: bool, dummyCnt: nat, n: nat)
    ensures ReadRamPrefix(cmd, addr, addrEn, dummyCnt, n + 1)
            == ReadRamPrefix(cmd, addr, addrEn, dummyCnt, n) + [Clock(0)]
  {
    hide HeaderStream;
    assert Clocks(Zeros(dummyCnt + 1 + n + 1)) == Clocks(Zeros(dummyCnt + 1 + n)) + [Clock(0)];
  }

  lemma RunReadPrefix(c: Chip, addr: u32, n: nat)
    requires Idle(c)
    ensures var c' := Run(c, ReadRamPrefix(READ_CMD, addr, true, 0, n));
            c'.dout == c.mem[(addr + n) % CAPACITY] && Executed(c, Execute(c'), [])
  {
    hide FrameAddr, HeaderStream, Run, Execute, ApplyAll, Executed, AddrBytes;
    var header := HeaderStream(READ_CMD, addr, true);
    RunReadHeader(c, addr);
    var c2 := c.(selected := true, frame := [READ_CMD] + AddrBytes(addr));
    RunConcat(c, header, Clocks(Zeros(1 + n)));
    assert c2.frame == [READ_CMD] + AddrBytes(addr) + [];
    FrameAddrOf(c2.frame, READ_CMD, addr, []);
    RunReadClocks(c2, 1 + n);
    ModSum(addr, n);
    ReadFrameExecutes(c, Run(c2, Clocks(Zeros(1 + n))));
  }

  /** Deselecting after a read changes nothing but the frame. */
  lemma ReadFrameExecutes(c: Chip, c': Chip)
    requires c'.selected && |c'.frame| > 0 && c'.frame[0] == READ_CMD
    requires c'.mem == c.mem && c'.log == c.log && c'.dropped == c.dropped
    ensures Executed(c, Execute(c'), [])
  {
    assert c.log + [] == c.log;
  }

  lemma RunReadHeader(c: Chip, addr: u32)
    requires Idle(c)
    ensures Run(c, HeaderStream(READ_CMD, addr, true))
            == c.(selected := true, frame := [READ_CMD] + AddrBytes(addr))
  {
    RunConcat(c, CmdStream(READ_CMD), Clocks(AddrBytes(addr)));
    RunCmd(c, READ_CMD);
    RunAddressClocks(Run(c, CmdStream(READ_CMD)), AddrBytes(addr));
  }

  lemma ModSum(x: nat, y: nat)
    ensures (x % CAPACITY + y) % CAPACITY == (x + y) % CAPACITY
  {
  }

  lemma RunAddressClocks(c: Chip, bytes: seq<bv8>)
    requires c.selected && c.frame == [READ_CMD] && |bytes| == 3
    ensures Run(c, Clocks(bytes)) == c.(frame := c.frame + bytes)
  {
    var es := Clocks(bytes);
    assert es == [Clock(bytes[0])] + [Clock(bytes[1])] + [Clock(bytes[2])];
    RunConcat(c, [Clock(bytes[0])] + [Clock(bytes[1])], [Clock(bytes[2])]);
    RunConcat(c, [Clock(bytes[0])], [Clock(bytes[1])]);
  }
}

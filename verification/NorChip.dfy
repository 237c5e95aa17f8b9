/** The flash chip on the far side of the MSPI bus.

    The chip is an automaton over wire events.  Bytes clocked in while it is selected collect in a frame;
    deselecting it executes the frame.  Programming can only clear bits and wraps inside its 256-byte page,
    an erase sets a whole 4 KB sector to 0xFF, and both are dropped unless the write-enable latch is set. */
module NorChip {
  import opened Arith

  const CAPACITY: nat := 0x10_0000
  const PAGE: nat := 256
  const SECTOR: nat := 4096

  const WRITE_CMD: bv8 := 0x02
  const READ_CMD: bv8 := 0x03
  const READ_STATUS_CMD: bv8 := 0x05
  const WRITE_ENABLE_CMD: bv8 := 0x06
  const SECT_ERASE_CMD: bv8 := 0x20

  type Mem = m: seq<bv8> | |m| == CAPACITY witness seq(CAPACITY, _ => 0xFF)

  /** One command the chip carried out, with the address and data it received. */
  datatype Op = Program(addr: nat, data: seq<bv8>) | Erase(addr: nat)

  datatype Wire = High | Low | Clock(b: bv8)

  /** `dout` is the byte the chip last shifted out; `log` the commands carried out, `dropped` the number of
      program or erase commands ignored because the write-enable latch was clear. */
  datatype Chip = Chip(mem: Mem, wel: bool, selected: bool, frame: seq<bv8>, dout: bv8, log: seq<Op>, dropped: nat)

  predicate Idle(c: Chip) {
    !c.selected && c.frame == []
  }

  // ----- what a command does to the array -----

  /** The linear meaning of a write: AND the data into exactly [a, a + |data|). */
  function AndRange(m: Mem, a: nat, data: seq<bv8>): Mem {
    seq(CAPACITY, i requires 0 <= i < CAPACITY => if a <= i < a + |data| then m[i] & data[i - a] else m[i])
  }

  function EraseSector(m: Mem, a: nat): Mem {
    seq(CAPACITY, i requires 0 <= i < CAPACITY => if i / SECTOR == a / SECTOR then 0xFF else m[i])
  }

  function Apply(m: Mem, op: Op): Mem {
    match op
    case Program(a, data) => AndRange(m, a, data)
    case Erase(a) => EraseSector(m, a)
  }

  function ApplyAll(m: Mem, ops: seq<Op>): Mem
    decreases |ops|
  {
    if ops == [] then m else ApplyAll(Apply(m, ops[0]), ops[1..])
  }

  function ProgramByte(m: Mem, a: nat, b: bv8): Mem
    requires a < CAPACITY
  {
    m[a := m[a] & b]
  }

  /** How the chip itself programs: byte by byte, the column counter wrapping inside the page. */
  function WrapProgram(m: Mem, a: nat, data: seq<bv8>): Mem
    requires a < CAPACITY
    decreases |data|
  {
    if data == [] then m
    else
      var page := a - a % PAGE;
      WrapProgram(ProgramByte(m, a, data[0]), page + (a - page + 1) % PAGE, data[1..])
  }

  function FrameAddr(frame: seq<bv8>): (a: nat)
    requires |frame| >= 4
    ensures a < CAPACITY
  {
    (frame[1] as int * 0x1_0000 + frame[2] as int * 0x100 + frame[3] as int) % CAPACITY
  }

  // ----- the automaton -----

  /** What happens when the chip is deselected. */
  function Execute(c: Chip): Chip {
    var f, c', log := c.frame, c.(selected := false, frame := []), c.log;
    if !c.selected || f == [] then c'
    else if f == [WRITE_ENABLE_CMD] then c'.(wel := true)
    else if f[0] == WRITE_CMD && |f| > 4 then
      if c.wel then
        c'.(mem := WrapProgram(c.mem, FrameAddr(f), f[4..]), wel := false, log := log + [Program(FrameAddr(f), f[4..])])
      else c'.(dropped := c.dropped + 1)
    else if f[0] == SECT_ERASE_CMD && |f| == 4 then
      if c.wel then
        c'.(mem := EraseSector(c.mem, FrameAddr(f)), wel := false, log := log + [Erase(FrameAddr(f))])
      else c'.(dropped := c.dropped + 1)
    else c'
  }

  /** One byte time while selected: the frame grows, and a read or status frame shifts a byte out. */
  function ClockIn(c: Chip, b: bv8): Chip {
    var f := c.frame + [b];
    var dout :=
      if f[0] == READ_CMD && |f| > 4 then c.mem[(FrameAddr(f) + (|f| - 5)) % CAPACITY]
      else if f[0] == READ_STATUS_CMD then 0   // not busy: the model's chip is ready by the time it is polled
      else c.dout;
    c.(frame := f, dout := dout)
  }

  function Step(c: Chip, e: Wire): Chip {
    match e
    case High => Execute(c)
    case Low => c.(selected := true, frame := [])
    case Clock(b) => if c.selected then ClockIn(c, b) else c
  }

  function Run(c: Chip, es: seq<Wire>): Chip
    decreases |es|
  {
    if es == [] then c else Run(Step(c, es[0]), es[1..])
  }

  // ----- laws -----

  lemma {:induction false} RunConcat(c: Chip, es: seq<Wire>, fs: seq<Wire>)
    ensures Run(c, es + fs) == Run(Run(c, es), fs)
    decreases |es|
  {
    if es == [] {
      assert es + fs == fs;
    } else {
      assert (es + fs)[1..] == es[1..] + fs;
      RunConcat(Step(c, es[0]), es[1..], fs);
    }
  }

  lemma RunOne(c: Chip, e: Wire)
    ensures Run(c, [e]) == Step(c, e)
  {
    assert [e][1..] == [];
  }

  lemma ApplyOne(m: Mem, op: Op)
    ensures ApplyAll(m, [op]) == Apply(m, op)
  {
    assert [op][1..] == [];
  }

  lemma {:induction false} ApplyAllConcat(m: Mem, ops: seq<Op>, ops': seq<Op>)
    ensures ApplyAll(m, ops + ops') == ApplyAll(ApplyAll(m, ops), ops')
    decreases |ops|
  {
    if ops == [] {
      assert ops + ops' == ops';
    } else {
      assert (ops + ops')[1..] == ops[1..] + ops';
      ApplyAllConcat(Apply(m, ops[0]), ops[1..], ops');
    }
  }

  /** Inside one page the chip's wrapping program is the linear AND. */
  lemma {:induction false} WrapProgramIsLinear(m: Mem, a: nat, data: seq<bv8>)
    requires a < CAPACITY && a % PAGE + |data| <= PAGE
    ensures WrapProgram(m, a, data) == AndRange(m, a, data)
    decreases |data|
  {
    if data == [] {
      AndRangeNone(m, a);
      assert WrapProgram(m, a, data) == m;
    } else {
      hide AndRange, WrapProgram, ProgramByte;
      var m' := ProgramByte(m, a, data[0]);
      WrapProgramStep(m, a, data);
      AndRangeFirst(m, a, data);
      if |data| == 1 {
        assert data[1..] == [];
        AndRangeNone(m', a + 1);
      } else {
        WrapProgramIsLinear(m', a + 1, data[1..]);
      }
    }
  }

  lemma WrapProgramStep(m: Mem, a: nat, data: seq<bv8>)
    requires a < CAPACITY && data != [] && a % PAGE + |data| <= PAGE
    ensures var m' := ProgramByte(m, a, data[0]);
            && (|data| == 1 ==> WrapProgram(m, a, data) == m')
            && (|data| > 1 ==>
                  && a + 1 < CAPACITY && (a + 1) % PAGE + (|data| - 1) <= PAGE
                  && WrapProgram(m, a, data) == WrapProgram(m', a + 1, data[1..]))
  {
    hide ProgramByte;
    if |data| > 1 {
      NextColumn(a);
    } else {
      assert data[1..] == [];
    }
  }

  lemma AndRangeFirst(m: Mem, a: nat, data: seq<bv8>)
    requires a < CAPACITY && data != []
    ensures AndRange(m, a, data) == AndRange(ProgramByte(m, a, data[0]), a + 1, data[1..])
  {
    hide AndRange;
    assert data[..1] == [data[0]];
    AndRangeOne(m, a, data[0]);
    AndRangeSplit(m, a, data, 1);
  }

  lemma NextColumn(a: nat)
    requires a % PAGE + 1 < PAGE
    ensures a - a % PAGE + (a % PAGE + 1) % PAGE == a + 1 && (a + 1) % PAGE == a % PAGE + 1
    ensures a < CAPACITY ==> a + 1 < CAPACITY
  {
    DivUnique(a + 1, PAGE, a / PAGE);
  }

  lemma AndRangeByte(m: Mem, a: nat, data: seq<bv8>, i: nat)
    requires i < CAPACITY
    ensures AndRange(m, a, data)[i] == if a <= i < a + |data| then m[i] & data[i - a] else m[i]
  {
  }

  lemma AndRangeNone(m: Mem, a: nat)
    ensures AndRange(m, a, []) == m
  {
  }

  lemma AndRangeOne(m: Mem, a: nat, b: bv8)
    requires a < CAPACITY
    ensures AndRange(m, a, [b]) == ProgramByte(m, a, b)
  {
  }

  /** Two adjoining linear writes are one. */
  lemma AndRangeSplit(m: Mem, a: nat, data: seq<bv8>, k: nat)
    requires k <= |data|
    ensures AndRange(AndRange(m, a, data[..k]), a + k, data[k..]) == AndRange(m, a, data)
  {
  }
}

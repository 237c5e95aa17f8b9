/** The I2C master of i2c.c as bus transcripts (section 3.1.10 of NXP UM10204), read against an auto-increment
    memory slave with the timing that i2c.h documents. */
module I2c {
  import opened Arith
  import opened Bytes

  const CMD_ID: bv8 := 0x01
  const CMD_ADDR: bv8 := 0x02
  const CMD_DO: bv8 := 0x04
  const CMD_DI: bv8 := 0x08
  const CMD_START: bv8 := 0x10
  const CMD_STOP: bv8 := 0x20
  const CMD_READ_ID: bv8 := 0x40
  const CMD_ACK: bv8 := 0x80

  /** What passes on the bus; `last` marks a received byte with the terminating acknowledge form. */
  datatype Event = Start | Sent(b: bv8) | Received(b: bv8, last: bool) | Stop

  // ----- the slave -----

  datatype Phase = Idle | Device | Address(left: nat, acc: nat) | Writing | Reading | NotAddressed

  /** The pointer's address space wraps round. */
  function Wrap(a: nat, size: nat): (p: nat)
    requires size > 0
    ensures p < size
  {
    if a < size then a else a % size
  }

  /** In mapping mode, what the master reads starts this far behind what it writes. */
  const MAP_READ: nat := 64

  /** A memory slave with `addrLen` address bytes, high byte first, and a pointer that advances with every byte.
      With no address bytes it is in mapping mode: its memory is the mapping buffer, writes start at its first byte and
      reads 64 bytes on. */
  datatype Slave = Slave(id: bv8, addrLen: nat, mem: seq<bv8>, ptr: nat, phase: Phase) {
    predicate Valid() {
      id & 1 == 0 && addrLen <= 3 && ptr < |mem| && (addrLen == 0 ==> MAP_READ < |mem|)
    }

    function Advance(): Slave
      requires Valid()
    {
      this.(ptr := Wrap(ptr + 1, |mem|))
    }

    /** The byte it shifts out when it is being read. */
    function Out(): bv8
      requires Valid()
    {
      if phase.Reading? then mem[ptr] else 0xFF
    }
  }

  function SlaveStep(s: Slave, e: Event): (s': Slave)
    requires s.Valid()
    ensures s'.Valid()
  {
    match e
    case Start => s.(phase := Device)
    case Stop => s.(phase := Idle)
    case Received(b, last) => if s.phase.Reading? then s.Advance() else s
    case Sent(b) =>
      match s.phase
      case Device =>
        if b & 0xFE != s.id then s.(phase := NotAddressed)
        else if b & 1 != 0 then s.(ptr := if s.addrLen == 0 then MAP_READ else s.ptr, phase := Reading)
        else if s.addrLen == 0 then s.(ptr := 0, phase := Writing)
        else s.(phase := Address(s.addrLen, 0))
      case Address(left, acc) =>
        var acc' := acc * 0x100 + b as nat;
        if left > 1 then s.(phase := Address(left - 1, acc'))
        else s.(ptr := Wrap(acc', |s.mem|), phase := Writing)
      case Writing => s.(mem := s.mem[s.ptr := b]).Advance()
      case _ => s
  }

  function SlaveRun(s: Slave, es: seq<Event>): (s': Slave)
    requires s.Valid()
    ensures s'.Valid()
    decreases |es|
  {
    if es == [] then s else SlaveRun(SlaveStep(s, es[0]), es[1..])
  }

  lemma {:induction false} SlaveRunConcat(s: Slave, es: seq<Event>, fs: seq<Event>)
    requires s.Valid()
    ensures SlaveRun(s, es + fs) == SlaveRun(SlaveRun(s, es), fs)
    decreases |es|
  {
    if es == [] {
      assert es + fs == fs;
    } else {
      assert (es + fs)[1..] == es[1..] + fs;
      SlaveRunConcat(SlaveStep(s, es[0]), es[1..], fs);
    }
  }

  lemma SlaveRunNone(s: Slave)
    requires s.Valid()
    ensures SlaveRun(s, []) == s
  {
  }

  lemma SlaveRunOne(s: Slave, e: Event)
    requires s.Valid()
    ensures SlaveRun(s, [e]) == SlaveStep(s, e)
  {
    assert [e][1..] == [];
  }

  // ----- transcripts -----

  function AddrBytes(addr: u32, addrLen: nat): seq<bv8> {
    if addrLen == 1 then [ToByte(addr % 0x100)]
    else if addrLen == 2 then [ToByte(addr / 0x100 % 0x100), ToByte(addr % 0x100)]
    else if addrLen == 3 then [ToByte(addr / 0x1_0000 % 0x100), ToByte(addr / 0x100 % 0x100), ToByte(addr % 0x100)]
    else []
  }

  function Sends(data: seq<bv8>): (es: seq<Event>)
    ensures |es| == |data|
  {
    seq(|data|, i requires 0 <= i < |data| => Sent(data[i]))
  }

  /** Start, device id for writing, memory address. Address lengths above 3 launch nothing. */
  function Header(id: bv8, addr: u32, addrLen: nat): seq<Event> {
    if addrLen > 3 then [] else [Start, Sent(id & 0xFE)] + Sends(AddrBytes(addr, addrLen))
  }

  function WriteTranscript(id: bv8, addr: u32, addrLen: nat, data: seq<bv8>): seq<Event> {
    Header(id, addr, addrLen) + Sends(data) + [Stop]
  }

  function ReadHeader(id: bv8, addr: u32, addrLen: nat): seq<Event> {
    Header(id, addr, addrLen) + [Start, Sent((id & 0xFE) | 1)]
  }

  /** `count` bytes are read in all; only the last carries the terminating form. */
  function Receives(data: seq<bv8>, count: nat): (es: seq<Event>)
    ensures |es| == |data|
  {
    seq(|data|, i requires 0 <= i < |data| => Received(data[i], i == count - 1))
  }

  function ReadTranscript(id: bv8, addr: u32, addrLen: nat, data: seq<bv8>): seq<Event> {
    ReadHeader(id, addr, addrLen) + Receives(data, |data|) + [Stop]
  }

  /** The n bytes a slave shifts out, one after the other. */
  function Shifted(s: Slave, n: nat): (data: seq<bv8>)
    requires s.Valid()
    ensures |data| == n
    decreases n
  {
    if n == 0 then [] else
      [s.Out()] + Shifted(SlaveStep(s, Received(s.Out(), n == 1)), n - 1)
  }

  // ----- the memory slave's view -----

  function Splice(mem: seq<bv8>, a: nat, data: seq<bv8>): seq<bv8>
    requires a + |data| <= |mem|
  {
    mem[..a] + data + mem[a + |data|..]
  }

  /** The address a slave with `addrLen` address bytes is sent: what does not fit in them is cut off, and without any
      it is 0. */
  function Named(addr: u32, addrLen: nat): (a: nat)
    requires addrLen <= 3
    ensures a <= addr
  {
    match addrLen
    case 0 => 0
    case 1 => addr % 0x100
    case 2 => addr % 0x1_0000
    case _ => addr % 0x100_0000
  }

  lemma AfterHeader(s: Slave, id: bv8, addr: u32)
    requires s.Valid() && Named(addr, s.addrLen) < |s.mem| && id & 0xFE == s.id
    ensures SlaveRun(s, Header(id, addr, s.addrLen)) == s.(ptr := Named(addr, s.addrLen), phase := Writing)
  {
    hide Named;
    var bytes := AddrBytes(addr, s.addrLen);
    IdForWriting(id);
    SlaveRunConcat(s, [Start, Sent(id & 0xFE)], Sends(bytes));
    assert [Start, Sent(id & 0xFE)] == [Start] + [Sent(id & 0xFE)];
    SlaveRunConcat(s, [Start], [Sent(id & 0xFE)]);
    SlaveRunOne(s, Start);
    SlaveRunOne(s.(phase := Device), Sent(id & 0xFE));
    if s.addrLen == 0 {
      NoAddressBytes(s.(ptr := 0, phase := Writing), addr);
    } else {
      AddressDecodes(s.(phase := Address(s.addrLen, 0)), addr);
    }
  }

  lemma NoAddressBytes(s: Slave, addr: u32)
    requires s.Valid()
    ensures SlaveRun(s, Sends(AddrBytes(addr, 0))) == s && Named(addr, 0) == 0
  {
    assert Sends(AddrBytes(addr, 0)) == [];
    SlaveRunNone(s);
  }

  lemma IdForWriting(id: bv8)
    ensures (id & 0xFE) & 0xFE == id & 0xFE && (id & 0xFE) & 1 == 0
    ensures ((id & 0xFE) | 1) & 0xFE == id & 0xFE && ((id & 0xFE) | 1) & 1 != 0
  {
  }

  lemma AddressDecodes(s: Slave, addr: u32)
    requires s.Valid() && s.addrLen > 0 && s.phase == Address(s.addrLen, 0) && Named(addr, s.addrLen) < |s.mem|
    ensures SlaveRun(s, Sends(AddrBytes(addr, s.addrLen))) == s.(ptr := Named(addr, s.addrLen), phase := Writing)
  {
    if s.addrLen == 1 {
      OneAddressByte(s, addr);
    } else {
      hide AddrBytes, BigEndian, Named;
      AddressValue(addr, s.addrLen);
      AddressSteps(s, AddrBytes(addr, s.addrLen));
    }
  }

  lemma OneAddressByte(s: Slave, addr: u32)
    requires s.Valid() && s.phase == Address(1, 0) && addr % 0x100 < |s.mem|
    ensures SlaveRun(s, Sends(AddrBytes(addr, 1))) == s.(ptr := addr % 0x100, phase := Writing)
  {
    hide SlaveStep, ToByte;
    var b := ToByte(addr % 0x100);
    assert Sends(AddrBytes(addr, 1)) == [Sent(b)];
    AddressStep(s, b);
    SlaveRunOne(s, Sent(b));
  }

  lemma AddressStep(s: Slave, b: bv8)
    requires s.Valid() && s.phase.Address? && s.phase.left >= 1
    ensures var acc := s.phase.acc * 0x100 + b as nat;
            && (s.phase.left > 1 ==> SlaveStep(s, Sent(b)) == s.(phase := Address(s.phase.left - 1, acc)))
            && (s.phase.left == 1 && acc < |s.mem| ==> SlaveStep(s, Sent(b)) == s.(ptr := acc, phase := Writing))
  {
  }

  lemma TwoAddressBytes(s: Slave, b0: bv8, b1: bv8)
    requires s.Valid() && s.phase.Address? && s.phase.left >= 2 && s.phase.acc == 0
    ensures var acc := b0 as nat * 0x100 + b1 as nat;
            var s' := SlaveRun(s, [Sent(b0)] + [Sent(b1)]);
            && (s.phase.left == 2 && acc < |s.mem| ==> s' == s.(ptr := acc, phase := Writing))
            && (s.phase.left == 3 ==> s' == s.(phase := Address(1, acc)))
  {
    hide SlaveStep, SlaveRun;
    AddressStep(s, b0);
    var s1 := SlaveStep(s, Sent(b0));
    SlaveRunOne(s, Sent(b0));
    AddressStep(s1, b1);
    SlaveRunOne(s1, Sent(b1));
    SlaveRunConcat(s, [Sent(b0)], [Sent(b1)]);
  }

  /** Two or three address bytes, high byte first. */
  lemma AddressSteps(s: Slave, b: seq<bv8>)
    requires s.Valid() && s.phase == Address(|b|, 0) && 2 <= |b| <= 3 && BigEndian(b) < |s.mem|
    ensures SlaveRun(s, Sends(b)) == s.(ptr := BigEndian(b), phase := Writing)
  {
    hide SlaveStep, SlaveRun;
    SendsByOne(b);
    TwoAddressBytes(s, b[0], b[1]);
    if |b| == 3 {
      var s2 := SlaveRun(s, [Sent(b[0])] + [Sent(b[1])]);
      AddressStep(s2, b[2]);
      SlaveRunOne(s2, Sent(b[2]));
      SlaveRunConcat(s, [Sent(b[0])] + [Sent(b[1])], [Sent(b[2])]);
    }
  }

  lemma SendsByOne(b: seq<bv8>)
    requires 2 <= |b| <= 3
    ensures |b| == 2 ==> Sends(b) == [Sent(b[0])] + [Sent(b[1])]
    ensures |b| == 3 ==> Sends(b) == [Sent(b[0])] + [Sent(b[1])] + [Sent(b[2])]
  {
  }

  function BigEndian(b: seq<bv8>): nat
    requires 2 <= |b| <= 3
  {
    if |b| == 2 then b[0] as nat * 0x100 + b[1] as nat
    else (b[0] as nat * 0x100 + b[1] as nat) * 0x100 + b[2] as nat
  }

  lemma AddressValue(addr: u32, addrLen: nat)
    requires 2 <= addrLen <= 3
    ensures |AddrBytes(addr, addrLen)| == addrLen && BigEndian(AddrBytes(addr, addrLen)) == Named(addr, addrLen)
  {
    hide ToByte;
    if addrLen == 2 {
      Mod16(addr);
    } else {
      Mod24(addr);
    }
  }

  /** The slave once `data` has been written at its pointer. */
  function Filled(s: Slave, data: seq<bv8>): Slave
    requires s.Valid() && s.ptr + |data| <= |s.mem|
  {
    s.(mem := Splice(s.mem, s.ptr, data), ptr := Wrap(s.ptr + |data|, |s.mem|))
  }

  lemma {:induction false} BytesWritten(s: Slave, data: seq<bv8>)
    requires s.Valid() && s.phase == Writing && s.ptr + |data| <= |s.mem|
    ensures SlaveRun(s, Sends(data)) == Filled(s, data)
    decreases |data|
  {
    if data == [] {
      SpliceNone(s.mem, s.ptr);
      SlaveRunNone(s);
      assert Sends(data) == [];
    } else {
      hide SlaveStep, SlaveRun, Sends, Filled;
      SendsFirst(data);
      SlaveRunConcat(s, [Sent(data[0])], Sends(data[1..]));
      SlaveRunOne(s, Sent(data[0]));
      var s1 := SlaveStep(s, Sent(data[0]));
      FilledFirst(s, data);
      if |data| > 1 {
        BytesWritten(s1, data[1..]);
      } else {
        SlaveRunNone(s1);
      }
    }
  }

  lemma SendsFirst(data: seq<bv8>)
    requires data != []
    ensures Sends(data) == [Sent(data[0])] + Sends(data[1..])
    ensures |data| == 1 ==> Sends(data[1..]) == []
  {
  }

  lemma FilledFirst(s: Slave, data: seq<bv8>)
    requires s.Valid() && s.phase == Writing && data != [] && s.ptr + |data| <= |s.mem|
    ensures var s1 := SlaveStep(s, Sent(data[0]));
            && s1.phase == Writing
            && (|data| == 1 ==> Filled(s, data) == s1)
            && (|data| > 1 ==> s1.ptr + |data| - 1 <= |s1.mem| && Filled(s, data) == Filled(s1, data[1..]))
  {
    hide SlaveStep, Splice;
    WritingStep(s, data[0]);
    SpliceFirst(s.mem, s.ptr, data);
    if |data| == 1 {
      assert data[1..] == [];
      SpliceNone(s.mem[s.ptr := data[0]], s.ptr + 1);
    }
  }

  lemma WritingStep(s: Slave, b: bv8)
    requires s.Valid() && s.phase == Writing
    ensures SlaveStep(s, Sent(b)) == s.(mem := s.mem[s.ptr := b], ptr := Wrap(s.ptr + 1, |s.mem|))
  {
  }

  lemma SpliceNone(mem: seq<bv8>, a: nat)
    requires a <= |mem|
    ensures Splice(mem, a, []) == mem
  {
  }

  lemma SpliceFirst(mem: seq<bv8>, a: nat, data: seq<bv8>)
    requires data != [] && a + |data| <= |mem|
    ensures Splice(mem, a, data) == Splice(mem[a := data[0]], a + 1, data[1..])
  {
  }

  /** A series write changes exactly the |data| bytes from the named address on, which without address bytes is the
      start of the mapping buffer. */
  lemma WriteReachesMemory(s: Slave, id: bv8, addr: u32, data: seq<bv8>)
    requires s.Valid() && id & 0xFE == s.id && data != [] && Named(addr, s.addrLen) + |data| <= |s.mem|
    ensures var s' := SlaveRun(s, WriteTranscript(id, addr, s.addrLen, data));
            && s'.mem == Splice(s.mem, Named(addr, s.addrLen), data)
            && s'.phase == Idle && s'.id == s.id && s'.addrLen == s.addrLen
  {
    hide Header, Splice, Named;
    var head := Header(id, addr, s.addrLen);
    AfterHeader(s, id, addr);
    SlaveRunConcat(s, head + Sends(data), [Stop]);
    SlaveRunConcat(s, head, Sends(data));
    BytesWritten(SlaveRun(s, head), data);
    SlaveRunOne(SlaveRun(s, head + Sends(data)), Stop);
  }

  lemma {:induction false} IdleIgnores(s: Slave, data: seq<bv8>)
    requires s.Valid() && s.phase == Idle
    ensures SlaveRun(s, Sends(data)) == s
    decreases |data|
  {
    if data != [] {
      hide Sends;
      SendsFirst(data);
      SlaveRunConcat(s, [Sent(data[0])], Sends(data[1..]));
      SlaveRunOne(s, Sent(data[0]));
      IdleIgnores(s, data[1..]);
    }
  }

  /** With an address length above 3 there is no START, and the data bytes reach no one. */
  lemma LongAddressWritesNothing(s: Slave, id: bv8, addr: u32, addrLen: nat, data: seq<bv8>)
    requires s.Valid() && s.phase == Idle && addrLen > 3
    ensures SlaveRun(s, WriteTranscript(id, addr, addrLen, data)) == s
  {
    assert [] + Sends(data) == Sends(data);
    SlaveRunConcat(s, Sends(data), [Stop]);
    IdleIgnores(s, data);
    SlaveRunOne(s, Stop);
  }

  lemma {:induction false} ShiftedIsMemory(s: Slave, n: nat)
    requires s.Valid() && s.phase == Reading && s.ptr + n <= |s.mem|
    ensures Shifted(s, n) == s.mem[s.ptr..s.ptr + n]
    decreases n
  {
    if n > 0 {
      hide SlaveStep, Shifted;
      ReadingStep(s, n);
      var s1 := SlaveStep(s, Received(s.Out(), n == 1));
      if n > 1 {
        ShiftedIsMemory(s1, n - 1);
      }
      SliceFirst(s.mem, s.ptr, n);
    }
  }

  lemma SliceFirst<T>(m: seq<T>, p: nat, n: nat)
    requires n > 0 && p + n <= |m|
    ensures m[p..p + n] == [m[p]] + m[p + 1..p + n]
    ensures n == 1 ==> m[p..p + n] == [m[p]] + []
  {
  }

  lemma ReadingStep(s: Slave, n: nat)
    requires s.Valid() && s.phase == Reading && n > 0
    ensures var s1 := SlaveStep(s, Received(s.Out(), n == 1));
            && s1 == s.(ptr := Wrap(s.ptr + 1, |s.mem|))
            && Shifted(s, n) == [s.mem[s.ptr]] + Shifted(s1, n - 1)
            && Shifted(s1, 0) == []
  {
  }

  /** The bytes a series read delivers. */
  function ReadBytes(s: Slave, id: bv8, addr: u32, addrLen: nat, n: nat): seq<bv8>
    requires s.Valid()
  {
    Shifted(SlaveRun(s, ReadHeader(id, addr, addrLen)), n)
  }

  /** Where a series read starts. */
  function ReadFrom(addr: u32, addrLen: nat): nat
    requires addrLen <= 3
  {
    if addrLen == 0 then MAP_READ else Named(addr, addrLen)
  }

  lemma ReadDeliversMemory(s: Slave, id: bv8, addr: u32, n: nat)
    requires s.Valid() && id & 0xFE == s.id && n > 0
    requires Named(addr, s.addrLen) < |s.mem| && ReadFrom(addr, s.addrLen) + n <= |s.mem|
    ensures var a := ReadFrom(addr, s.addrLen); ReadBytes(s, id, addr, s.addrLen, n) == s.mem[a..a + n]
  {
    hide Header, Named;
    var head, idr := Header(id, addr, s.addrLen), (id & 0xFE) | 1;
    AfterHeader(s, id, addr);
    SlaveRunConcat(s, head, [Start, Sent(idr)]);
    assert [Start, Sent(idr)] == [Start] + [Sent(idr)];
    var s1 := SlaveRun(s, head);
    SlaveRunConcat(s1, [Start], [Sent(idr)]);
    SlaveRunOne(s1, Start);
    IdForWriting(id);
    SlaveRunOne(s1.(phase := Device), Sent(idr));
    ShiftedIsMemory(SlaveRun(s, ReadHeader(id, addr, s.addrLen)), n);
  }

  /** Round trip: what a series write put into the slave, a series read of the same address gives back. */
  lemma RoundTrip(s: Slave, id: bv8, addr: u32, data: seq<bv8>)
    requires s.Valid() && s.addrLen > 0 && id & 0xFE == s.id && data != []
    requires Named(addr, s.addrLen) + |data| <= |s.mem|
    ensures ReadBytes(SlaveRun(s, WriteTranscript(id, addr, s.addrLen, data)), id, addr, s.addrLen, |data|) == data
  {
    hide WriteTranscript, ReadBytes, Named;
    WriteReachesMemory(s, id, addr, data);
    ReadDeliversMemory(SlaveRun(s, WriteTranscript(id, addr, s.addrLen, data)), id, addr, |data|);
  }

  /** Mapping mode: whatever the two addresses are, a write fills the buffer from its start, and a read afterwards
      delivers the bytes 64 further on, which a write of up to 64 bytes leaves alone. */
  lemma MappedExchange(s: Slave, id: bv8, addr: u32, addr': u32, data: seq<bv8>, n: nat)
    requires s.Valid() && s.addrLen == 0 && id & 0xFE == s.id && data != [] && n > 0
    requires |data| <= |s.mem| && MAP_READ + n <= |s.mem|
    ensures var s' := SlaveRun(s, WriteTranscript(id, addr, 0, data));
            && s'.mem == data + s.mem[|data|..]
            && ReadBytes(s', id, addr', 0, n) == s'.mem[64..64 + n]
            && (|data| <= 64 ==> ReadBytes(s', id, addr', 0, n) == s.mem[64..64 + n])
  {
    hide WriteTranscript, ReadBytes, SlaveRun, Splice;
    WriteReachesMemory(s, id, addr, data);
    SpliceAtStart(s.mem, data, MAP_READ, n);
    ReadDeliversMemory(SlaveRun(s, WriteTranscript(id, addr, 0, data)), id, addr', n);
  }

  lemma SpliceAtStart(mem: seq<bv8>, data: seq<bv8>, a: nat, n: nat)
    requires |data| <= |mem| && a + n <= |mem|
    ensures Splice(mem, 0, data) == data + mem[|data|..]
    ensures |data| <= a ==> Splice(mem, 0, data)[a..a + n] == mem[a..a + n]
  {
  }

  /** The shape of a read of n bytes: one STOP, at the very end; the terminating form on the last byte received and
      no other. */
  ghost predicate ReadShape(t: seq<Event>, n: nat) {
    && (forall i | 0 <= i < |t| :: t[i].Stop? <==> i == |t| - 1)
    && (forall i | 0 <= i < |t| :: t[i].Received? <==> |t| - 1 - n <= i < |t| - 1)
    && (forall i | 0 <= i < |t| && t[i].Received? :: t[i].last <==> i == |t| - 2)
  }

  /** The shape of a write: one STOP, at the very end, and nothing received. */
  ghost predicate WriteShape(t: seq<Event>) {
    && (forall i | 0 <= i < |t| :: t[i].Stop? <==> i == |t| - 1)
    && (forall i | 0 <= i < |t| :: !t[i].Received?)
  }

  lemma ReadTranscriptShape(id: bv8, addr: u32, addrLen: nat, data: seq<bv8>)
    requires data != []
    ensures ReadShape(ReadTranscript(id, addr, addrLen, data), |data|)
  {
    var head := ReadHeader(id, addr, addrLen);
    assert forall e <- head :: e.Start? || e.Sent?;
  }

  lemma WriteTranscriptShape(id: bv8, addr: u32, addrLen: nat, data: seq<bv8>)
    ensures WriteShape(WriteTranscript(id, addr, addrLen, data))
  {
    var head := Header(id, addr, addrLen);
    assert forall e <- head :: e.Start? || e.Sent?;
  }

  /** What was put on the bus since it held `before`. */
  lemma Since(before: seq<Event>, t: seq<Event>)
    ensures (before + t)[|before|..] == t
  {
  }

  // ----- the master -----

  /** What a control word puts on the bus. A read is launched on its own. */
  function LaunchEvents(ctrl: bv8, id: bv8, adr: bv8, dout: bv8, din: bv8, s: Slave): seq<Event>
    requires s.Valid()
  {
    if ctrl & CMD_READ_ID != 0 then
      if ctrl & CMD_DI != 0 then [Received(s.Out(), ctrl & CMD_ACK != 0)] else []
    else
      (if ctrl & CMD_START != 0 then [Start] else [])
      + (if ctrl & CMD_ID != 0 then [Sent(id)] else [])
      + (if ctrl & CMD_ADDR != 0 then [Sent(adr)] else [])
      + (if ctrl & CMD_DO != 0 then [Sent(dout)] else [])
      + (if ctrl & CMD_DI != 0 then [Sent(din)] else [])
      + (if ctrl & CMD_STOP != 0 then [Stop] else [])
  }

  /** The control words of the driver: what each puts on the bus. */
  lemma LaunchForms(id: bv8, a: bv8, o: bv8, d: bv8, s: Slave)
    requires s.Valid()
    ensures LaunchEvents(0x11, id, a, o, d, s) == [Start, Sent(id)]
    ensures LaunchEvents(0x13, id, a, o, d, s) == [Start, Sent(id)] + Sends([a])
    ensures LaunchEvents(0x17, id, a, o, d, s) == [Start, Sent(id)] + Sends([a, o])
    ensures LaunchEvents(0x1F, id, a, o, d, s) == [Start, Sent(id)] + Sends([a, o, d])
    ensures LaunchEvents(0x08, id, a, o, d, s) == [Sent(d)] && LaunchEvents(0x20, id, a, o, d, s) == [Stop]
    ensures LaunchEvents(0x48, id, a, o, d, s) == [Received(s.Out(), false)]
    ensures LaunchEvents(0xC8, id, a, o, d, s) == [Received(s.Out(), true)]
  {
    LaunchFlags(id, a, o, d, s);
    hide LaunchEvents;
    assert Sends([a]) == [Sent(a)] && Sends([a, o]) == [Sent(a), Sent(o)];
    assert Sends([a, o, d]) == [Sent(a), Sent(o), Sent(d)];
  }

  lemma LaunchFlags(id: bv8, a: bv8, o: bv8, d: bv8, s: Slave)
    requires s.Valid()
    ensures LaunchEvents(0x11, id, a, o, d, s) == [Start, Sent(id)]
    ensures LaunchEvents(0x13, id, a, o, d, s) == [Start, Sent(id), Sent(a)]
    ensures LaunchEvents(0x17, id, a, o, d, s) == [Start, Sent(id), Sent(a), Sent(o)]
    ensures LaunchEvents(0x1F, id, a, o, d, s) == [Start, Sent(id), Sent(a), Sent(o), Sent(d)]
  {
  }

  /** The flags the control words are put together from. */
  lemma ControlWords()
    ensures CMD_ID | CMD_START == 0x11 && CMD_ID | CMD_ADDR | CMD_START == 0x13
    ensures CMD_ID | CMD_ADDR | CMD_DO | CMD_START == 0x17
    ensures CMD_ID | CMD_ADDR | CMD_DO | CMD_DI | CMD_START == 0x1F
    ensures CMD_DI | CMD_READ_ID == 0x48 && CMD_DI | CMD_READ_ID | CMD_ACK == 0xC8
  {
  }

  /** Selecting a device without sending it anything. */
  lemma Select(id: bv8, a: bv8, o: bv8, d: bv8, s: Slave)
    requires s.Valid()
    ensures LaunchEvents(CMD_ID | CMD_START, id, a, o, d, s) == [Start, Sent(id)]
  {
    ControlWords();
    LaunchFlags(id, a, o, d, s);
  }

  class Master {
    var id: bv8
    var adr: bv8
    var dout: bv8
    var din: bv8
    var slave: Slave
    ghost var bus: seq<Event>   // everything that passed on the bus

    constructor (id: bv8, slave: Slave)
      requires slave.Valid()
      ensures this.id == id && this.slave == slave && bus == []
    {
      this.id, this.slave, adr, dout, din, bus := id, slave, 0, 0, 0, [];
    }

    /** A write to the control register: the launched phases run in this order. */
    method Launch(ctrl: bv8)
      requires slave.Valid()
      modifies this`slave, this`bus, this`din
      ensures slave == SlaveRun(old(slave), LaunchEvents(ctrl, id, adr, dout, old(din), old(slave)))
      ensures bus == old(bus) + LaunchEvents(ctrl, id, adr, dout, old(din), old(slave))
      ensures din == if ctrl & CMD_READ_ID != 0 && ctrl & CMD_DI != 0 then old(slave).Out() else old(din)
    {
      var es := LaunchEvents(ctrl, id, adr, dout, din, slave);
      if ctrl & CMD_READ_ID != 0 && ctrl & CMD_DI != 0 {
        din := slave.Out();
      }
      slave, bus := SlaveRun(slave, es), bus + es;
    }

    /** The part all four transfers share: select the device for writing and send the memory address. */
    method SendHeader(addr: u32, addrLen: nat)
      requires slave.Valid()
      modifies this
      ensures slave == SlaveRun(old(slave), Header(old(id), addr, addrLen))
      ensures bus == old(bus) + Header(old(id), addr, addrLen) && id == old(id) & 0xFE
    {
      hide SlaveRun, SlaveStep, LaunchEvents, ToByte;
      id := id & 0xFE;
      ControlWords();
      if addrLen == 0 {
        assert [Start, Sent(id)] + Sends([]) == [Start, Sent(id)];
        LaunchForms(id, adr, dout, din, slave);
        Launch(CMD_ID | CMD_START);
      } else if addrLen == 1 {
        adr := ToByte(addr % 0x100);
        LaunchForms(id, adr, dout, din, slave);
        Launch(CMD_ID | CMD_ADDR | CMD_START);
      } else if addrLen == 2 {
        adr := ToByte(addr / 0x100 % 0x100);
        dout := ToByte(addr % 0x100);
        LaunchForms(id, adr, dout, din, slave);
        Launch(CMD_ID | CMD_ADDR | CMD_DO | CMD_START);
      } else if addrLen == 3 {
        adr := ToByte(addr / 0x1_0000 % 0x100);
        dout := ToByte(addr / 0x100 % 0x100);
        din := ToByte(addr % 0x100);
        LaunchForms(id, adr, dout, din, slave);
        Launch(CMD_ID | CMD_ADDR | CMD_DO | CMD_DI | CMD_START);
      } else {
        SlaveRunNone(slave);
        assert bus + [] == bus;
      }
    }

    /** Restart and select the device for reading. */
    method SendReadHeader(addr: u32, addrLen: nat)
      requires slave.Valid()
      modifies this
      ensures slave == SlaveRun(old(slave), ReadHeader(old(id), addr, addrLen))
      ensures bus == old(bus) + ReadHeader(old(id), addr, addrLen)
    {
      hide LaunchEvents, SlaveRun, Header;
      SendHeader(addr, addrLen);
      SlaveRunConcat(old(slave), Header(old(id), addr, addrLen), [Start, Sent(id | 1)]);
      id := id | 1;
      Select(id, adr, dout, din, slave);
      Launch(CMD_ID | CMD_START);
    }

    method SendByte(b: bv8)
      requires slave.Valid()
      modifies this
      ensures slave == SlaveRun(old(slave), [Sent(b)]) && bus == old(bus) + [Sent(b)]
    {
      din := b;
      Launch(CMD_DI);
    }

    method ReceiveByte(last: bool) returns (b: bv8)
      requires slave.Valid()
      modifies this
      ensures b == old(slave).Out()
      ensures slave == SlaveRun(old(slave), [Received(b, last)]) && bus == old(bus) + [Received(b, last)]
    {
      if last {
        Launch(CMD_DI | CMD_READ_ID | CMD_ACK);
      } else {
        Launch(CMD_DI | CMD_READ_ID);
      }
      b := din;
    }

    method SendStop()
      requires slave.Valid()
      modifies this
      ensures slave == SlaveRun(old(slave), [Stop]) && bus == old(bus) + [Stop]
    {
      Launch(CMD_STOP);
    }

    /** The same transcript as a series of one. */
    method WriteByte(addr: u32, addrLen: nat, b: bv8)
      requires slave.Valid()
      modifies this
      ensures slave == SlaveRun(old(slave), WriteTranscript(old(id), addr, addrLen, [b]))
      ensures bus == old(bus) + WriteTranscript(old(id), addr, addrLen, [b])
      ensures |bus| >= |old(bus)| && WriteShape(bus[|old(bus)|..])
    {
      var head := Header(id, addr, addrLen);
      SendHeader(addr, addrLen);
      SlaveRunConcat(old(slave), head, [Sent(b)]);
      SendByte(b);
      SlaveRunConcat(old(slave), head + [Sent(b)], [Stop]);
      SendStop();
      assert Sends([b]) == [Sent(b)];
      WriteTranscriptShape(old(id), addr, addrLen, [b]);
      Since(old(bus), WriteTranscript(old(id), addr, addrLen, [b]));
    }

    method WriteSeries(addr: u32, addrLen: nat, dataBuf: seq<bv8>)
      requires slave.Valid()
      modifies this
      ensures slave == SlaveRun(old(slave), WriteTranscript(old(id), addr, addrLen, dataBuf))
      ensures bus == old(bus) + WriteTranscript(old(id), addr, addrLen, dataBuf)
      ensures |bus| >= |old(bus)| && WriteShape(bus[|old(bus)|..])
    {
      hide Header, SlaveStep;
      var head := Header(id, addr, addrLen);
      SendHeader(addr, addrLen);
      assert head + Sends(dataBuf[..0]) == head;
      for i := 0 to |dataBuf|
        invariant slave.Valid()
        invariant slave == SlaveRun(old(slave), head + Sends(dataBuf[..i]))
        invariant bus == old(bus) + (head + Sends(dataBuf[..i]))
      {
        SlaveRunConcat(old(slave), head + Sends(dataBuf[..i]), [Sent(dataBuf[i])]);
        assert head + Sends(dataBuf[..i + 1]) == head + Sends(dataBuf[..i]) + [Sent(dataBuf[i])];
        SendByte(dataBuf[i]);
      }
      assert dataBuf[..|dataBuf|] == dataBuf;
      SlaveRunConcat(old(slave), head + Sends(dataBuf), [Stop]);
      SendStop();
      WriteTranscriptShape(old(id), addr, addrLen, dataBuf);
      Since(old(bus), WriteTranscript(old(id), addr, addrLen, dataBuf));
    }

    /** The same transcript and value as a series of one. */
    method ReadByte(addr: u32, addrLen: nat) returns (ret: bv8)
      requires slave.Valid()
      modifies this
      ensures [ret] == ReadBytes(old(slave), old(id), addr, addrLen, 1)
      ensures slave == SlaveRun(old(slave), ReadTranscript(old(id), addr, addrLen, [ret]))
      ensures bus == old(bus) + ReadTranscript(old(id), addr, addrLen, [ret])
      ensures |bus| >= |old(bus)| && ReadShape(bus[|old(bus)|..], 1)
    {
      hide ReadHeader, SlaveStep;
      var head := ReadHeader(id, addr, addrLen);
      SendReadHeader(addr, addrLen);
      ghost var s1 := slave;
      ret := ReceiveByte(true);
      assert Shifted(s1, 1) == [ret];
      SlaveRunConcat(old(slave), head, [Received(ret, true)]);
      SlaveRunConcat(old(slave), head + [Received(ret, true)], [Stop]);
      SendStop();
      assert Receives([ret], 1) == [Received(ret, true)];
      ReadTranscriptShape(old(id), addr, addrLen, [ret]);
      Since(old(bus), ReadTranscript(old(id), addr, addrLen, [ret]));
    }

    /** Receive the next of n bytes into the buffer. */
    method ReceiveInto(dataBuf: array<bv8>, k: nat, n: nat, last: bool, ghost r: Read, ghost bus0: seq<Event>)
      requires k < n <= dataBuf.Length && last == (k == n - 1)
      requires r.Progress(slave, dataBuf[..k], n) && bus == bus0 + r.Events(dataBuf[..k], n)
      modifies this, dataBuf
      ensures r.Progress(slave, dataBuf[..k + 1], n) && bus == bus0 + r.Events(dataBuf[..k + 1], n)
      ensures forall i | k < i < dataBuf.Length :: dataBuf[i] == old(dataBuf[i])
    {
      hide Read.Progress, Read.Events, SlaveRun;
      ProgressIsValid(r, slave, dataBuf[..k], n);
      ProgressStep(r, slave, dataBuf[..k], n);
      var b := ReceiveByte(last);
      dataBuf[k] := b;
      assert dataBuf[..k + 1] == old(dataBuf[..k]) + [b];
    }

    /** All but the last byte are acknowledged in the loop; the last is read with the terminating form. */
    method ReadSeries(addr: u32, addrLen: nat, dataBuf: array<bv8>, dataLen: nat)
      requires slave.Valid() && 0 < dataLen <= dataBuf.Length
      modifies this, dataBuf
      ensures dataBuf[..dataLen] == ReadBytes(old(slave), old(id), addr, addrLen, dataLen)
      ensures slave == SlaveRun(old(slave), ReadTranscript(old(id), addr, addrLen, dataBuf[..dataLen]))
      ensures bus == old(bus) + ReadTranscript(old(id), addr, addrLen, dataBuf[..dataLen])
      ensures |bus| >= |old(bus)| && ReadShape(bus[|old(bus)|..], dataLen)
      ensures forall i | dataLen <= i < dataBuf.Length :: dataBuf[i] == old(dataBuf[i])
    {
      hide Read.Progress, Read.Events, SlaveRun, ReadHeader, ReadTranscript;
      ghost var r := Read(slave, ReadHeader(id, addr, addrLen));
      ghost var bus0, id0 := bus, id;
      SendReadHeader(addr, addrLen);
      ProgressStart(r, dataLen);
      assert dataBuf[..0] == [];
      var bufIndex, left := 0, dataLen;
      left := left - 1;
      while left != 0
        invariant 0 <= left && bufIndex + left == dataLen - 1
        invariant r.Progress(slave, dataBuf[..bufIndex], dataLen)
        invariant bus == bus0 + r.Events(dataBuf[..bufIndex], dataLen)
        invariant forall i | dataLen <= i < dataBuf.Length :: dataBuf[i] == old(dataBuf[i])
        decreases left
      {
        ReceiveInto(dataBuf, bufIndex, dataLen, false, r, bus0);
        bufIndex := bufIndex + 1;
        left := left - 1;
      }
      ReceiveInto(dataBuf, bufIndex, dataLen, true, r, bus0);
      ProgressIsValid(r, slave, dataBuf[..dataLen], dataLen);
      ProgressEnd(r, slave, id0, addr, addrLen, dataBuf[..dataLen]);
      SendStop();
      ReadTranscriptShape(id0, addr, addrLen, dataBuf[..dataLen]);
      Since(old(bus), ReadTranscript(id0, addr, addrLen, dataBuf[..dataLen]));
    }
  }

  /** A read in progress: the slave it started with and the events that selected it. */
  datatype Read = Read(start: Slave, head: seq<Event>) {
    ghost function Events(data: seq<bv8>, n: nat): seq<Event> {
      head + Receives(data, n)
    }

    /** After receiving `data`, the first of n bytes, the slave is at s. */
    ghost predicate Progress(s: Slave, data: seq<bv8>, n: nat) {
      && start.Valid() && |data| <= n
      && s == SlaveRun(start, Events(data, n))
      && data + Shifted(s, n - |data|) == Shifted(SlaveRun(start, head), n)
    }
  }

  lemma ProgressIsValid(r: Read, s: Slave, data: seq<bv8>, n: nat)
    requires r.Progress(s, data, n)
    ensures s.Valid()
  {
  }

  lemma ProgressStart(r: Read, n: nat)
    requires r.start.Valid()
    ensures r.Events([], n) == r.head && r.Progress(SlaveRun(r.start, r.head), [], n)
  {
    hide SlaveRun, Shifted;
    assert Receives([], n) == [];
    assert r.head + [] == r.head;
  }

  lemma ProgressStep(r: Read, s: Slave, data: seq<bv8>, n: nat)
    requires r.Progress(s, data, n) && s.Valid() && |data| < n
    ensures var e := Received(s.Out(), |data| == n - 1);
            && r.Events(data + [s.Out()], n) == r.Events(data, n) + [e]
            && r.Progress(SlaveRun(s, [e]), data + [s.Out()], n)
  {
    hide SlaveRun, Shifted;
    var out := s.Out();
    var e := Received(out, |data| == n - 1);
    assert Receives(data + [out], n) == Receives(data, n) + [e];
    assert r.Events(data + [out], n) == r.Events(data, n) + [e];
    SlaveRunConcat(r.start, r.Events(data, n), [e]);
    ShiftOne(s, n - |data|);
    assert data + [out] + Shifted(SlaveRun(s, [e]), n - |data| - 1) == data + Shifted(s, n - |data|);
  }

  lemma ProgressEnd(r: Read, s: Slave, id: bv8, addr: u32, addrLen: nat, data: seq<bv8>)
    requires r.Progress(s, data, |data|) && s.Valid() && r.head == ReadHeader(id, addr, addrLen)
    ensures data == ReadBytes(r.start, id, addr, addrLen, |data|)
    ensures r.Events(data, |data|) + [Stop] == ReadTranscript(id, addr, addrLen, data)
    ensures SlaveRun(r.start, ReadTranscript(id, addr, addrLen, data)) == SlaveRun(s, [Stop])
  {
    hide SlaveRun, ReadHeader;
    SlaveRunConcat(r.start, r.Events(data, |data|), [Stop]);
    assert Shifted(s, 0) == [];
  }

  lemma ShiftOne(s: Slave, n: nat)
    requires s.Valid() && n > 0
    ensures Shifted(s, n) == [s.Out()] + Shifted(SlaveRun(s, [Received(s.Out(), n == 1)]), n - 1)
  {
    SlaveRunOne(s, Received(s.Out(), n == 1));
  }
}

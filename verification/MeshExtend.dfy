/** flash_mesh_extend.c: the page-splitting flash_write_data and the three cell protocols, run on the driver.

    Each method is proved to have the chip carry out exactly the flash operations its protocol module lists. */
module MeshExtend {
  import opened Arith
  import opened Bytes
  import opened NorChip
  import opened FlashDriver
  import opened Cells
  import ValueCell
  import RecordCell
  import LimitedCell

  // ----- flash_write_data -----

  function WriteDataOps(l: Layout, addr: u32, data: seq<bv8>): seq<Op>
    decreases |data|
  {
    var n := ChunkLen(addr, |data|);
    if n == |data| then WritePageOps(l, addr, data)
    else WritePageOps(l, addr, data[..n]) + WriteDataOps(l, Low32(addr + n), data[n..])
  }

  function WritePageStream(l: Layout, addr: u32, data: seq<bv8>): seq<Wire> {
    if |data| < WORD32 && l.Accepts(addr, |data|) then PageStream(addr, data) else []
  }

  function WriteDataStream(l: Layout, addr: u32, data: seq<bv8>): seq<Wire>
    decreases |data|
  {
    var n := ChunkLen(addr, |data|);
    if n == |data| then WritePageStream(l, addr, data)
    else WritePageStream(l, addr, data[..n]) + WriteDataStream(l, Low32(addr + n), data[n..])
  }

  /** A range accepted whole is accepted chunk by chunk. */
  lemma ChunksAccepted(l: Layout, addr: u32, len: nat)
    requires l.Valid() && addr + len < WORD32 && l.Accepts(addr, len)
    ensures var n := ChunkLen(addr, len);
            l.Accepts(addr, n) && (n < len ==> l.Accepts(addr + n, len - n))
  {
    if addr == l.Boot() + 8 && len <= 4 {
      assert l.Boot() % PAGE == 0 && addr % PAGE == 8;
    }
  }

  /** Hence splitting before the guard and splitting behind it make the chip do the same. */
  lemma {:induction false} WriteDataIsWritePage(l: Layout, addr: u32, data: seq<bv8>)
    requires l.Valid() && addr + |data| < WORD32 && l.Accepts(addr, |data|)
    ensures WriteDataOps(l, addr, data) == PageOps(addr, data)
    decreases |data|
  {
    hide ChunkOps, WritePageOps, ChunkLen, PageOps, WriteDataOps, Layout.Accepts, Layout.Valid;
    var n := ChunkLen(addr, |data|);
    ChunksAccepted(l, addr, |data|);
    WritePageOfChunk(l, addr, data[..n]);
    PageOpsTurn(l, addr, data);
    if n < |data| {
      WriteDataIsWritePage(l, addr + n, data[n..]);
    }
  }

  lemma PageOpsTurn(l: Layout, addr: u32, data: seq<bv8>)
    requires addr + |data| < WORD32
    ensures var n := ChunkLen(addr, |data|);
            && (n == |data| ==>
                  && data[..n] == data
                  && PageOps(addr, data) == ChunkOps(addr, data)
                  && WriteDataOps(l, addr, data) == WritePageOps(l, addr, data))
            && (n < |data| ==>
                  && PageOps(addr, data) == ChunkOps(addr, data[..n]) + PageOps(addr + n, data[n..])
                  && WriteDataOps(l, addr, data)
                     == WritePageOps(l, addr, data[..n]) + WriteDataOps(l, addr + n, data[n..]))
  {
    hide ChunkOps, WritePageOps, ChunkLen;
  }

  lemma WritePageOfChunk(l: Layout, addr: u32, data: seq<bv8>)
    requires |data| < WORD32 && l.Accepts(addr, |data|) && addr % PAGE + |data| <= PAGE
    ensures WritePageOps(l, addr, data) == ChunkOps(addr, data)
  {
    assert ChunkLen(addr, |data|) == |data|;
  }

  /** One turn of the loop in flash_write_data. */
  lemma WriteDataTurn(l: Layout, addr: u32, data: seq<bv8>, done: seq<Op>, wire: seq<Wire>)
    ensures var n := ChunkLen(addr, |data|);
            && (n == |data| ==>
                  && data[..n] == data
                  && WriteDataOps(l, addr, data) == WritePageOps(l, addr, data)
                  && WriteDataStream(l, addr, data) == WritePageStream(l, addr, data))
            && (n < |data| ==>
                  && Low32(addr + n) % PAGE == 0
                  && done + WriteDataOps(l, addr, data)
                     == done + WritePageOps(l, addr, data[..n]) + WriteDataOps(l, Low32(addr + n), data[n..])
                  && wire + WriteDataStream(l, addr, data)
                     == wire + WritePageStream(l, addr, data[..n]) + WriteDataStream(l, Low32(addr + n), data[n..]))
  {
    hide WritePageOps, WritePageStream;
    var n := ChunkLen(addr, |data|);
    if n < |data| {
      NextPage(addr, n);
    }
  }

  /** The chip, fed the bytes flash_write_data sends, carries out its commands. */
  lemma {:induction false} WriteDataStreamExecutes(l: Layout, c: Chip, addr: u32, data: seq<bv8>)
    requires Idle(c) && |data| < WORD32
    ensures Executed(c, Run(c, WriteDataStream(l, addr, data)), WriteDataOps(l, addr, data))
    decreases |data|
  {
    hide ChunkLen, PageStream, PageOps;
    var n := ChunkLen(addr, |data|);
    WriteDataTurn(l, addr, data, [], []);
    WritePageStreamExecutes(l, c, addr, data[..n]);
    if n < |data| {
      var es, es' := WritePageStream(l, addr, data[..n]), WriteDataStream(l, Low32(addr + n), data[n..]);
      var c1 := Run(c, es);
      RunConcat(c, es, es');
      WriteDataStreamExecutes(l, c1, Low32(addr + n), data[n..]);
      ExecutedTrans(c, c1, Run(c1, es'), WritePageOps(l, addr, data[..n]), WriteDataOps(l, Low32(addr + n), data[n..]));
    }
  }

  /** From wire to memory through both splitting layers: for every range the guard accepts, what flash_write_data
      sends ANDs the buffer into exactly that range, page by page, with nothing dropped. */
  lemma WriteDataRefinesLinearWrite(l: Layout, c: Chip, addr: u32, data: seq<bv8>)
    requires Idle(c) && l.Valid() && addr + |data| < WORD32 && l.Accepts(addr, |data|)
    ensures addr + |data| <= CAPACITY
    ensures var c' := Run(c, WriteDataStream(l, addr, data));
            && c'.mem == AndRange(c.mem, addr, data)
            && c'.dropped == c.dropped && Idle(c')
            && |c'.log| >= |c.log| && c'.log[..|c.log|] == c.log
            && forall i | |c.log| <= i < |c'.log| :: InOnePage(c'.log[i])
  {
    hide WriteDataStream, WriteDataOps, PageOps, AndRange, Layout.Accepts, Layout.Valid;
    AcceptedRange(l, addr, |data|);
    WriteDataStreamExecutes(l, c, addr, data);
    WriteDataIsWritePage(l, addr, data);
    PageOpsAreLinear(c.mem, addr, data);
    PageOpsStayInPage(addr, data);
  }

  lemma WritePageStreamExecutes(l: Layout, c: Chip, addr: u32, data: seq<bv8>)
    requires Idle(c)
    ensures Executed(c, Run(c, WritePageStream(l, addr, data)), WritePageOps(l, addr, data))
  {
    hide PageStream, PageOps;
    PageStreamExecutes(c, addr, data);
    assert c.log + [] == c.log;
  }

  method FlashWriteData(f: Flash, addr: u32, buf: seq<bv8>)
    requires Idle(f.chip) && |buf| < WORD32
    modifies f
    ensures Executed(old(f.chip), f.chip, WriteDataOps(f.layout, addr, buf))
    ensures f.wire == old(f.wire) + WriteDataStream(f.layout, addr, buf)
  {
    hide WritePageOps, WritePageStream, WriteDataOps, WriteDataStream;
    var a, b, len := addr, 0, |buf|;
    var ns := 256 - addr % 256;
    ghost var done: seq<Op> := [];
    while true
      invariant 0 <= b <= |buf| && len == |buf| - b && Idle(f.chip) && 0 <= a < WORD32
      invariant ns == PAGE - a % PAGE
      invariant f.wire + WriteDataStream(f.layout, a, buf[b..]) == old(f.wire) + WriteDataStream(f.layout, addr, buf)
      invariant Executed(old(f.chip), f.chip, done)
      invariant done + WriteDataOps(f.layout, a, buf[b..]) == WriteDataOps(f.layout, addr, buf)
      decreases len
    {
      var nw := if len > ns then ns else len;
      assert buf[b..b + nw] == buf[b..][..nw] && buf[b..][nw..] == buf[b + nw..];
      WriteDataTurn(f.layout, a, buf[b..], done, f.wire);
      ghost var c := f.chip;
      WritePage(f, a, buf[b..b + nw]);
      ExecutedTrans(old(f.chip), c, f.chip, done, WritePageOps(f.layout, a, buf[b..b + nw]));
      done := done + WritePageOps(f.layout, a, buf[b..b + nw]);
      ns, a, b, len := 256, Low32(a + nw), b + nw, len - nw;
      if len == 0 {
        break;
      }
    }
  }

  /** flash_write_page, its contract in terms of WritePageStream. */
  method WritePage(f: Flash, addr: u32, buf: seq<bv8>)
    requires Idle(f.chip) && |buf| < WORD32
    modifies f
    ensures Executed(old(f.chip), f.chip, WritePageOps(f.layout, addr, buf))
    ensures f.wire == old(f.wire) + WritePageStream(f.layout, addr, buf)
  {
    f.FlashWritePage(addr, buf);
  }

  // ----- flash words -----

  function RegionWords(m: Mem, adr: nat, n: nat): (ws: seq<bv32>)
    requires adr + 4 * n <= CAPACITY
    ensures |ws| == n
  {
    seq(n, i requires 0 <= i < n => ToWord(m[adr + 4 * i..adr + 4 * i + 4]))
  }

  function SectorWords(m: Mem, adr: nat): (ws: seq<bv32>)
    requires adr + SECTOR <= CAPACITY
    ensures |ws| == 1024
  {
    RegionWords(m, adr, 1024)
  }

  /** c' differs from c only in what the last read shifted out. */
  ghost predicate Same(c: Chip, c': Chip) {
    Idle(c') && c'.mem == c.mem && c'.log == c.log && c'.dropped == c.dropped
  }

  lemma SameIsNothingDone(l: Layout, adr: u32, c: Chip, c': Chip)
    requires Same(c, c')
    ensures Executed(c, c', ChipOps(l, adr, []))
  {
    assert c.log + [] == c.log;
  }

  /** flash_read_page on a range inside the chip. */
  method ReadBytes(f: Flash, addr: u32, len: nat, dat: array<bv8>)
    requires Idle(f.chip) && addr + len <= CAPACITY && len <= dat.Length
    modifies f, dat
    ensures Same(old(f.chip), f.chip)
    ensures dat[..len] == f.chip.mem[addr..addr + len]
    ensures forall i | len <= i < dat.Length :: dat[i] == old(dat[i])
  {
    f.FlashReadPage(addr, len, dat);
    assert old(f.chip).log + [] == old(f.chip).log;
    assert dat[..len] == f.chip.mem[addr..addr + len];
  }

  method ReadWord(f: Flash, addr: u32) returns (p: bv32)
    requires Idle(f.chip) && addr + 4 <= CAPACITY
    modifies f
    ensures Same(old(f.chip), f.chip)
    ensures p == ToWord(f.chip.mem[addr..addr + 4])
  {
    var buf := new bv8[4];
    ReadBytes(f, addr, 4, buf);
    assert buf[..4] == buf[..];
    p := ToWord(buf[..]);
  }

  method ReadSlot(f: Flash, adr: u32, i: nat) returns (p: bv32)
    requires Idle(f.chip) && adr + SECTOR <= CAPACITY && i < 1024
    modifies f
    ensures Same(old(f.chip), f.chip)
    ensures p == SectorWords(f.chip.mem, adr)[i]
  {
    p := ReadWord(f, adr + i * 4);
  }

  /** What the chip is asked to do for a list of word operations on the region at adr. */
  function ChipOpsOf(l: Layout, adr: u32, op: WordOp): seq<Op> {
    match op
    case Put(slot, data) => WriteDataOps(l, Low32(adr + 4 * slot), data)
    case Wipe => EraseOps(l, adr)
  }

  function ChipOps(l: Layout, adr: u32, ops: seq<WordOp>): seq<Op>
    decreases |ops|
  {
    if ops == [] then [] else ChipOpsOf(l, adr, ops[0]) + ChipOps(l, adr, ops[1..])
  }

  lemma {:induction false} ChipOpsConcat(l: Layout, adr: u32, ops: seq<WordOp>, ops': seq<WordOp>)
    ensures ChipOps(l, adr, ops + ops') == ChipOps(l, adr, ops) + ChipOps(l, adr, ops')
    decreases |ops|
  {
    if ops == [] {
      assert ops + ops' == ops';
    } else {
      assert (ops + ops')[1..] == ops[1..] + ops';
      ChipOpsConcat(l, adr, ops[1..], ops');
    }
  }

  lemma ChipOpsOne(l: Layout, adr: u32, op: WordOp)
    ensures ChipOps(l, adr, [op]) == ChipOpsOf(l, adr, op)
  {
    assert [op][1..] == [];
  }

  /** Carrying out one more word operation. */
  lemma ExecutedMore(l: Layout, adr: u32, c: Chip, c1: Chip, c2: Chip, ops: seq<WordOp>, op: WordOp)
    requires Executed(c, c1, ChipOps(l, adr, ops)) && Executed(c1, c2, ChipOpsOf(l, adr, op))
    ensures Executed(c, c2, ChipOps(l, adr, ops + [op]))
  {
    ChipOpsConcat(l, adr, ops, [op]);
    ChipOpsOne(l, adr, op);
    ExecutedTrans(c, c1, c2, ChipOps(l, adr, ops), ChipOpsOf(l, adr, op));
  }

  method DoPut(f: Flash, adr: u32, slot: nat, data: seq<bv8>, ghost c: Chip, ghost done: seq<WordOp>)
    requires Executed(c, f.chip, ChipOps(f.layout, adr, done)) && |data| < WORD32
    modifies f
    ensures Executed(c, f.chip, ChipOps(f.layout, adr, done + [Put(slot, data)]))
  {
    ghost var c1 := f.chip;
    FlashWriteData(f, Low32(adr + slot * 4), data);
    ExecutedMore(f.layout, adr, c, c1, f.chip, done, Put(slot, data));
  }

  method DoWipe(f: Flash, adr: u32, ghost c: Chip, ghost done: seq<WordOp>)
    requires Executed(c, f.chip, ChipOps(f.layout, adr, done))
    modifies f
    ensures Executed(c, f.chip, ChipOps(f.layout, adr, done + [Wipe]))
  {
    ghost var c1 := f.chip;
    f.FlashEraseSector(adr);
    ExecutedMore(f.layout, adr, c, c1, f.chip, done, Wipe);
  }

  // ----- the value cell -----

  method FlashWriteVal(f: Flash, adr: u32, flagInvalid: bv32, dat: bv32)
    requires Idle(f.chip) && adr + SECTOR <= CAPACITY
    modifies f
    ensures Executed(old(f.chip), f.chip,
                     ChipOps(f.layout, adr, ValueCell.WriteOps(SectorWords(old(f.chip.mem), adr), flagInvalid, dat)))
  {
    hide ChipOps, ChipOpsOf, WriteDataOps, Executed, ToBytes, ToWord, WordsOf;
    ghost var ws, done := SectorWords(f.chip.mem, adr), [];
    var p, i := BLANK, 0;
    SameIsNothingDone(f.layout, adr, f.chip, f.chip);
    while i < 1024
      invariant 0 <= i <= 1024 && done == [] && Same(old(f.chip), f.chip)
      invariant Executed(old(f.chip), f.chip, ChipOps(f.layout, adr, []))
      invariant Scan(ws, flagInvalid, 0, 1, 1024) == Scan(ws, flagInvalid, i, 1, 1024)
    {
      p := ReadWord(f, adr + i * 4);
      assert p == ws[i];
      SameIsNothingDone(f.layout, adr, old(f.chip), f.chip);
      if p == BLANK {
        break;
      } else if p != flagInvalid {
        if i == 1023 {
          DoWipe(f, adr, old(f.chip), done);
          done := done + [Wipe];
          i := 0;
        } else {
          DoPut(f, adr, i, ToBytes(flagInvalid), old(f.chip), done);
          done := done + [Put(i, ToBytes(flagInvalid))];
          i := i + 1;
        }
        break;
      }
      i := i + 1;
    }
    assert ValueCell.WriteOps(ws, flagInvalid, dat) == done + [Put(i, ToBytes(dat))];
    DoPut(f, adr, i, ToBytes(dat), old(f.chip), done);
  }

  method FlashReadVal(f: Flash, adr: u32, flagInvalid: bv32) returns (r: bv32)
    requires Idle(f.chip) && adr + SECTOR <= CAPACITY
    modifies f
    ensures r == ValueCell.ReadResult(SectorWords(old(f.chip.mem), adr), flagInvalid)
    ensures Executed(old(f.chip), f.chip,
                     ChipOps(f.layout, adr, ValueCell.ReadOps(SectorWords(old(f.chip.mem), adr), flagInvalid)))
  {
    hide ChipOps, ChipOpsOf, WriteDataOps, Executed, ToBytes, ToWord, WordsOf;
    ghost var ws := SectorWords(f.chip.mem, adr);
    var p, i := BLANK, 0;
    SameIsNothingDone(f.layout, adr, f.chip, f.chip);
    while i < 1024
      invariant 0 <= i <= 1024 && Same(old(f.chip), f.chip)
      invariant Executed(old(f.chip), f.chip, ChipOps(f.layout, adr, []))
      invariant Scan(ws, flagInvalid, 0, 1, 1024) == Scan(ws, flagInvalid, i, 1, 1024)
    {
      p := ReadWord(f, adr + i * 4);
      assert p == ws[i];
      SameIsNothingDone(f.layout, adr, old(f.chip), f.chip);
      if p == BLANK {
        break;
      } else if p != flagInvalid {
        return p;
      }
      i := i + 1;
    }
    if i > 1000 {
      DoWipe(f, adr, old(f.chip), []);
      assert [] + [Wipe] == [Wipe];
    }
    return flagInvalid;
  }

  // ----- the record cell -----

  /** For lengths below 4 the loop does not advance: it would not end at a used-up first slot. */
  method FlashWriteLongVal(f: Flash, adr: u32, flagInvalid: bv32, dat: seq<bv8>)
    requires Idle(f.chip) && adr + SECTOR <= CAPACITY && 4 <= |dat| < 256
    modifies f
    ensures Executed(old(f.chip), f.chip,
                     ChipOps(f.layout, adr, RecordCell.WriteOps(SectorWords(old(f.chip.mem), adr), flagInvalid, dat)))
  {
    hide ChipOps, ChipOpsOf, WriteDataOps, Executed, ToBytes, ToWord, WordsOf;
    ghost var ws, done := SectorWords(f.chip.mem, adr), [];
    var dataLen := |dat| / 4;
    var p, i := BLANK, 0;
    SameIsNothingDone(f.layout, adr, f.chip, f.chip);
    while i < 1024 - dataLen
      invariant 0 <= i && done == [] && Same(old(f.chip), f.chip)
      invariant Executed(old(f.chip), f.chip, ChipOps(f.layout, adr, []))
      invariant Scan(ws, flagInvalid, 0, dataLen, 1024 - dataLen) == Scan(ws, flagInvalid, i, dataLen, 1024 - dataLen)
      decreases 1024 - i
    {
      p := ReadWord(f, adr + i * 4);
      assert p == ws[i];
      SameIsNothingDone(f.layout, adr, old(f.chip), f.chip);
      if p == BLANK {
        break;
      } else if p != flagInvalid {
        if i >= 1024 - dataLen {
          assert false;   // the C code's erase, which the loop condition rules out
        } else {
          DoPut(f, adr, i, ToBytes(flagInvalid), old(f.chip), done);
          done := done + [Put(i, ToBytes(flagInvalid))];
          i := i + dataLen;
        }
        break;
      }
      i := i + dataLen;
    }
    assert RecordCell.WriteOps(ws, flagInvalid, dat) == done + [Put(i, dat)];
    DoPut(f, adr, i, dat, old(f.chip), done);
  }

  /** For length 0 the loop does not advance either. */
  method FlashReadLongVal(f: Flash, adr: u32, flagInvalid: bv32, dat: array<bv8>, len: nat) returns (r: bv32)
    requires Idle(f.chip) && adr + SECTOR <= CAPACITY && 0 < len < 256 && len <= dat.Length
    modifies f, dat
    ensures var ws := SectorWords(old(f.chip.mem), adr);
            match RecordCell.ReadSlot(ws, flagInvalid, len)
            case Some(i) =>
              && r == ws[i] && dat[..len] == old(f.chip.mem)[adr + 4 * i..adr + 4 * i + len]
              && (forall k | len <= k < dat.Length :: dat[k] == old(dat[k]))
            case None => r == flagInvalid && forall k | 0 <= k < dat.Length :: dat[k] == old(dat[k])
    ensures RecordCell.ValidLen(len) ==>
      var ws := SectorWords(old(f.chip.mem), adr);
      forall rec: seq<bv8> | |rec| == len :: DeliveredAs(ws, flagInvalid, rec, dat[..len])
    ensures Executed(old(f.chip), f.chip,
                     ChipOps(f.layout, adr, RecordCell.ReadOps(SectorWords(old(f.chip.mem), adr), flagInvalid, len)))
  {
    hide ChipOps, ChipOpsOf, WriteDataOps, Executed, WordsOf, RegionWords, Scan, RecordCell.ReadSlot,
         RecordCell.ReadRecord, RecordCell.ReadOps, DeliveredAs;
    ghost var ws := SectorWords(f.chip.mem, adr);
    var dataLen := (len + 3) / 4;
    var p, i := BLANK, 0;
    SameIsNothingDone(f.layout, adr, f.chip, f.chip);
    while i < 1024 - dataLen
      invariant 0 <= i && Same(old(f.chip), f.chip)
      invariant forall k | 0 <= k < dat.Length :: dat[k] == old(dat[k])
      invariant Executed(old(f.chip), f.chip, ChipOps(f.layout, adr, []))
      invariant Scan(ws, flagInvalid, 0, dataLen, 1024 - dataLen) == Scan(ws, flagInvalid, i, dataLen, 1024 - dataLen)
      decreases 1024 - i
    {
      p := ReadSlot(f, adr, i);
      SameIsNothingDone(f.layout, adr, old(f.chip), f.chip);
      if p == BLANK {
        break;
      } else if p != flagInvalid {
        ReadBytes(f, adr + i * 4, len, dat);
        RecordFound(ws, flagInvalid, len, i);
        BytesDelivered(f.chip.mem, adr, flagInvalid, dat[..len], i);
        SameIsNothingDone(f.layout, adr, old(f.chip), f.chip);
        return p;
      }
      ScanStep(ws, flagInvalid, i, dataLen, 1024 - dataLen);
      i := i + dataLen;
    }
    RecordMissing(ws, flagInvalid, len, i);
    NothingDelivered(ws, flagInvalid, len, dat[..len]);
    if i >= 1000 {
      DoWipe(f, adr, old(f.chip), []);
      assert [] + [Wipe] == [Wipe];
    }
    return flagInvalid;
  }

  /** If the protocol's read finds this record, these are its bytes. */
  ghost predicate DeliveredAs(ws: Sector, flag: bv32, rec: seq<bv8>, bytes: seq<bv8>)
    requires RecordCell.ValidLen(|rec|)
  {
    RecordCell.ReadRecord(ws, flag, |rec|) == Some(WordsOf(rec)) ==> bytes == rec
  }

  lemma RecordFound(ws: Sector, flag: bv32, len: nat, i: nat)
    requires 0 < len < 256 && i < 1024 - (len + 3) / 4 && ws[i] != BLANK && ws[i] != flag
    requires var d := (len + 3) / 4; Scan(ws, flag, 0, d, 1024 - d) == Scan(ws, flag, i, d, 1024 - d)
    ensures RecordCell.ReadSlot(ws, flag, len) == Some(i) && RecordCell.ReadOps(ws, flag, len) == []
  {
  }

  lemma RecordMissing(ws: Sector, flag: bv32, len: nat, i: nat)
    requires 0 < len < 256 && (i >= 1024 - (len + 3) / 4 || ws[i] == BLANK)
    requires var d := (len + 3) / 4; Scan(ws, flag, 0, d, 1024 - d) == Scan(ws, flag, i, d, 1024 - d)
    ensures RecordCell.ReadSlot(ws, flag, len) == None
    ensures RecordCell.ReadOps(ws, flag, len) == if i >= 1000 then [Wipe] else []
  {
  }

  lemma BytesDelivered(m: Mem, adr: nat, flag: bv32, bytes: seq<bv8>, i: nat)
    requires adr + SECTOR <= CAPACITY && 0 < |bytes| < 256
    requires RecordCell.ReadSlot(SectorWords(m, adr), flag, |bytes|) == Some(i)
    requires bytes == m[adr + i * 4..adr + i * 4 + |bytes|]
    ensures RecordCell.ValidLen(|bytes|) ==>
      forall rec: seq<bv8> | |rec| == |bytes| :: DeliveredAs(SectorWords(m, adr), flag, rec, bytes)
  {
    hide RecordCell.ReadSlot, RegionWords, WordsOf;
    if RecordCell.ValidLen(|bytes|) {
      RecordBytesRead(m, adr, i, bytes);
      forall rec: seq<bv8> | |rec| == |bytes| ensures DeliveredAs(SectorWords(m, adr), flag, rec, bytes) {
        if WordsOf(rec) == WordsOf(bytes) {
          WordsNameBytes(bytes, rec);
        }
      }
    }
  }

  lemma NothingDelivered(ws: Sector, flag: bv32, len: nat, bytes: seq<bv8>)
    requires 0 < len < 256 && RecordCell.ReadSlot(ws, flag, len) == None
    ensures RecordCell.ValidLen(len) ==> forall rec: seq<bv8> | |rec| == len :: DeliveredAs(ws, flag, rec, bytes)
  {
  }

  lemma RecordBytesRead(m: Mem, adr: nat, i: nat, bytes: seq<bv8>)
    requires adr + SECTOR <= CAPACITY && |bytes| % 4 == 0 && i + |bytes| / 4 <= 1024
    requires bytes == m[adr + i * 4..adr + i * 4 + |bytes|]
    ensures WordsOf(bytes) == SectorWords(m, adr)[i..i + |bytes| / 4]
  {
    forall j | 0 <= j < |bytes| / 4
      ensures bytes[4 * j..4 * j + 4] == m[adr + 4 * (i + j)..adr + 4 * (i + j) + 4]
    {
    }
  }

  // ----- the write-limited cell -----

  method FlashSubregionWriteVal(f: Flash, adr: u32, flagInvalid: bv32, dat: bv32, num: nat) returns (r: bv32)
    requires Idle(f.chip) && adr + 4 * num <= CAPACITY
    modifies f
    ensures var (r', ops) := LimitedCell.Attempt(RegionWords(old(f.chip.mem), adr, num), flagInvalid, dat);
            r == r' && Executed(old(f.chip), f.chip, ChipOps(f.layout, adr, ops))
  {
    hide ChipOps, ChipOpsOf, WriteDataOps, Executed, ToBytes, ToWord, WordsOf;
    ghost var ws, done := RegionWords(f.chip.mem, adr, num), [];
    var p, i := BLANK, 0;
    SameIsNothingDone(f.layout, adr, f.chip, f.chip);
    while i < num
      invariant 0 <= i <= num && done == [] && Same(old(f.chip), f.chip)
      invariant Executed(old(f.chip), f.chip, ChipOps(f.layout, adr, []))
      invariant Scan(ws, flagInvalid, 0, 1, num) == Scan(ws, flagInvalid, i, 1, num)
    {
      p := ReadWord(f, adr + i * 4);
      assert p == ws[i];
      SameIsNothingDone(f.layout, adr, old(f.chip), f.chip);
      if p == BLANK {
        break;
      } else if p != flagInvalid {
        if i >= num - 1 {
          return flagInvalid;
        }
        DoPut(f, adr, i, ToBytes(flagInvalid), old(f.chip), done);
        done := done + [Put(i, ToBytes(flagInvalid))];
        i := i + 1;
        break;
      }
      i := i + 1;
    }
    assert LimitedCell.Attempt(ws, flagInvalid, dat).1 == done + [Put(i, ToBytes(dat))];
    DoPut(f, adr, i, ToBytes(dat), old(f.chip), done);
    return 1;
  }

  method FlashSubregionReadVal(f: Flash, adr: u32, flagInvalid: bv32, num: nat) returns (r: bv32)
    requires Idle(f.chip) && adr + 4 * num <= CAPACITY
    modifies f
    ensures r == LimitedCell.ReadResult(RegionWords(old(f.chip.mem), adr, num), flagInvalid)
    ensures Same(old(f.chip), f.chip)
  {
    ghost var ws := RegionWords(f.chip.mem, adr, num);
    var p, i := BLANK, 0;
    while i < num
      invariant 0 <= i <= num && Same(old(f.chip), f.chip)
      invariant Scan(ws, flagInvalid, 0, 1, num) == Scan(ws, flagInvalid, i, 1, num)
    {
      p := ReadWord(f, adr + i * 4);
      assert p == ws[i];
      if p == BLANK {
        break;
      } else if p != flagInvalid {
        return p;
      }
      i := i + 1;
    }
    return flagInvalid;
  }
}

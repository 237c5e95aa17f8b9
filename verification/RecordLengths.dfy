/** Which record lengths work.  The writer keeps records len / 4 words apart, rounded down, and the reader looks for
    them len / 4 words apart, rounded up: two records of a length that is not a multiple of 4 are enough to go wrong. */
module RecordLengths {
  import opened Arith
  import opened Bytes
  import opened NorChip
  import opened FlashDriver
  import opened Cells
  import opened MeshExtend
  import opened CellsOnChip
  import RecordCell

  /** The chip after flash_write_long_val. */
  function Stored(l: Layout, m: Mem, adr: u32, flag: bv32, rec: seq<bv8>): Mem
    requires adr + SECTOR <= CAPACITY && 4 <= |rec| < 256
  {
    ApplyAll(m, ChipOps(l, adr, RecordCell.WriteOps(SectorWords(m, adr), flag, rec)))
  }

  /** The bytes flash_read_long_val copies out, if any. */
  function Delivered(m: Mem, adr: u32, flag: bv32, len: nat): Option<seq<bv8>>
    requires adr + SECTOR <= CAPACITY && 0 < len < 256
  {
    match RecordCell.ReadSlot(SectorWords(m, adr), flag, len)
    case None => None
    case Some(i) => Some(m[adr + 4 * i..adr + 4 * i + len])
  }

  /** A record that can be told from a blank and a used-up slot. */
  predicate Storable(flag: bv32, len: nat, rec: seq<bv8>) {
    |rec| == len && 4 <= len < 256 && Admissible(flag, ToWord(rec[..4]))
  }

  /** The second of two records written to an erased sector is read back, whatever the two are. */
  ghost predicate SecondIsReadBack(l: Layout, adr: u32, flag: bv32, len: nat)
    requires adr + SECTOR <= CAPACITY && 4 <= len < 256
  {
    forall m: Mem, r1, r2 | SectorWords(m, adr) == Blank(SLOTS) && Storable(flag, len, r1) && Storable(flag, len, r2) ::
      Delivered(Stored(l, Stored(l, m, adr, flag, r1), adr, flag, r2), adr, flag, len) == Some(r2)
  }

  /** Exactly the multiples of 4 work - provided there is a record to store at all. */
  lemma LengthsExactly(l: Layout, adr: u32, flag: bv32, len: nat, rec: seq<bv8>)
    requires Writable(l, adr, 1024) && adr % SECTOR == 0 && flag != BLANK && Storable(flag, len, rec)
    ensures SecondIsReadBack(l, adr, flag, len) <==> len % 4 == 0
  {
    assert adr + SECTOR <= CAPACITY;
    hide Delivered, Stored, RegionWords, Writable, Blank;
    if len % 4 == 0 {
      forall m: Mem, r1, r2 | SectorWords(m, adr) == Blank(SLOTS) && Storable(flag, len, r1) && Storable(flag, len, r2)
        ensures Delivered(Stored(l, Stored(l, m, adr, flag, r1), adr, flag, r2), adr, flag, len) == Some(r2)
      {
        MultipleOfFour(l, m, adr, flag, r1, r2);
      }
    } else {
      var m, r := NotMultipleOfFour(l, adr, flag, rec);
    }
  }

  // ----- lengths that work -----

  lemma GoodIfStorable(flag: bv32, len: nat, rec: seq<bv8>)
    requires Storable(flag, len, rec) && len % 4 == 0
    ensures RecordCell.GoodRecord(flag, len, rec)
  {
    assert rec[0..4] == rec[..4];
  }

  lemma MultipleOfFour(l: Layout, m: Mem, adr: u32, flag: bv32, r1: seq<bv8>, r2: seq<bv8>)
    requires Writable(l, adr, 1024) && adr % SECTOR == 0 && flag != BLANK && SectorWords(m, adr) == Blank(SLOTS)
    requires Storable(flag, |r1|, r1) && Storable(flag, |r2|, r2) && |r1| == |r2| && |r1| % 4 == 0
    ensures Delivered(Stored(l, Stored(l, m, adr, flag, r1), adr, flag, r2), adr, flag, |r2|) == Some(r2)
  {
    assert adr + SECTOR <= CAPACITY;
    var len, d, s0 := |r1|, |r1| / 4, RecordCell.State(0, None);
    var m1 := Stored(l, m, adr, flag, r1);
    var m2 := Stored(l, m1, adr, flag, r2);
    hide Delivered, Stored, RegionWords, Writable, Blank, RecordCell.GoodRecord, WordsOf, RecordCell.ReadRecord,
         RecordCell.Holds;
    GoodIfStorable(flag, len, r1);
    GoodIfStorable(flag, len, r2);
    RecordCell.BlankHolds(flag, d);
    StoredStep(l, m, adr, flag, s0, r1);
    StoredStep(l, m1, adr, flag, RecordCell.State(0, Some(WordsOf(r1))), r2);
    RecordCell.ReadStep(SectorWords(m2, adr), flag, len, RecordCell.State(d, Some(WordsOf(r2))));
    RecordDelivered(m2, adr, flag, r2);
  }

  /** One call, seen as the event of a write. */
  lemma StoredStep(l: Layout, m: Mem, adr: u32, flag: bv32, s: RecordCell.State, rec: seq<bv8>)
    requires Writable(l, adr, 1024) && adr % SECTOR == 0 && RecordCell.GoodRecord(flag, |rec|, rec)
    requires RecordCell.Holds(SectorWords(m, adr), flag, |rec| / 4, s)
    ensures var d := |rec| / 4;
            RecordCell.Holds(SectorWords(Stored(l, m, adr, flag, rec), adr), flag, d,
                             RecordCell.Placed(s.Target(d), d, WordsOf(rec)))
  {
    assert adr + SECTOR <= CAPACITY && RecordCell.ValidLen(|rec|);
    hide RegionWords, Writable, RecordCell.GoodRecord, RecordCell.EventOps, RecordCell.Holds, RecordCell.Placed,
         ApplyAll, ApplyWords, ChipOps, Stored, InPage, PastEnd, WordsOf;
    var ws, len := SectorWords(m, adr), |rec|;
    StoredIsEvent(l, m, adr, flag, s, rec);
    RecordOpsShape(ws, adr, flag, len, s, Write(rec));
    OpsOnChipOrPast(l, m, adr, RecordCell.EventOps(ws, flag, len, Write(rec)));
    RecordCell.EventStep(ws, flag, len, s, Write(rec));
  }

  lemma StoredIsEvent(l: Layout, m: Mem, adr: u32, flag: bv32, s: RecordCell.State, rec: seq<bv8>)
    requires adr % SECTOR == 0 && adr + SECTOR <= CAPACITY && RecordCell.GoodRecord(flag, |rec|, rec)
    requires RecordCell.Holds(SectorWords(m, adr), flag, |rec| / 4, s)
    ensures Stored(l, m, adr, flag, rec)
            == ApplyAll(m, ChipOps(l, adr, RecordCell.EventOps(SectorWords(m, adr), flag, |rec|, Write(rec))))
  {
    hide RegionWords, RecordCell.WriteOps, RecordCell.Steps, RecordCell.Holds, ApplyAll, ChipOps, Admissible, WordsOf;
    RecordCommands(l, SectorWords(m, adr), adr, flag, s, rec);
  }

  lemma RecordDelivered(m: Mem, adr: u32, flag: bv32, rec: seq<bv8>)
    requires adr + SECTOR <= CAPACITY && RecordCell.ValidLen(|rec|)
    requires RecordCell.ReadRecord(SectorWords(m, adr), flag, |rec|) == Some(WordsOf(rec))
    ensures Delivered(m, adr, flag, |rec|) == Some(rec)
  {
    hide RecordCell.ReadSlot, RegionWords, WordsOf;
    var i := RecordCell.ReadSlot(SectorWords(m, adr), flag, |rec|).value;
    BytesDelivered(m, adr, flag, m[adr + i * 4..adr + i * 4 + |rec|], i);
    assert DeliveredAs(SectorWords(m, adr), flag, rec, m[adr + i * 4..adr + i * 4 + |rec|]);
  }

  // ----- lengths that do not -----

  /** Word w + 1 of the sector after the second write: what of the record's bytes 4..7 there is, then blanks. */
  function TailWord(x: bv8, len: nat): bv32 {
    ToWord([x, if len > 5 then x else 0xFF, if len > 6 then x else 0xFF, if len > 7 then x else 0xFF])
  }

  /** One of three fillings gives a word that is none of these. */
  lemma PickFilling(flag: bv32, w: bv32, len: nat) returns (x: bv8)
    ensures TailWord(x, len) != flag && TailWord(x, len) != w && TailWord(x, len) != BLANK
  {
    LittleEndian([0, if len > 5 then 0 else 0xFF, if len > 6 then 0 else 0xFF, if len > 7 then 0 else 0xFF]);
    LittleEndian([1, if len > 5 then 1 else 0xFF, if len > 6 then 1 else 0xFF, if len > 7 then 1 else 0xFF]);
    LittleEndian([2, if len > 5 then 2 else 0xFF, if len > 6 then 2 else 0xFF, if len > 7 then 2 else 0xFF]);
    ThreeWords(TailWord(0, len), TailWord(1, len), TailWord(2, len));
    hide TailWord;
    if TailWord(0, len) !in {flag, w} {
      x := 0;
    } else if TailWord(1, len) !in {flag, w} {
      x := 1;
    } else {
      x := 2;
    }
  }

  lemma ThreeWords(a: bv32, b: bv32, c: bv32)
    requires a & 0xFF == 0 && b & 0xFF == 1 && c & 0xFF == 2
    ensures a != b && a != c && b != c && a != BLANK && b != BLANK && c != BLANK
  {
  }

  function Filled(head: seq<bv8>, x: bv8, len: nat): (rec: seq<bv8>)
    requires |head| == 4 <= len
    ensures |rec| == len && rec[..4] == head && forall i | 4 <= i < len :: rec[i] == x
  {
    head + seq(len - 4, _ => x)
  }

  /** For each other length there is a record that, written twice, is not read back. */
  lemma NotMultipleOfFour(l: Layout, adr: u32, flag: bv32, rec: seq<bv8>) returns (m: Mem, r: seq<bv8>)
    requires Writable(l, adr, 1024) && adr % SECTOR == 0 && flag != BLANK
    requires Storable(flag, |rec|, rec) && |rec| % 4 != 0
    ensures SectorWords(m, adr) == Blank(SLOTS) && Storable(flag, |rec|, r)
    ensures Delivered(Stored(l, Stored(l, m, adr, flag, r), adr, flag, r), adr, flag, |rec|) != Some(r)
  {
    assert adr + SECTOR <= CAPACITY;
    hide Delivered, Stored, RegionWords, Writable, ToWord, TailWord;
    var x := PickFilling(flag, ToWord(rec[..4]), |rec|);
    m, r := seq(CAPACITY, _ => 0xFF), Filled(rec[..4], x, |rec|);
    assert EraseSector(m, adr) == m;
    EraseOnWords(m, adr);
    var m1, m2 := Stored(l, m, adr, flag, r), Stored(l, Stored(l, m, adr, flag, r), adr, flag, r);
    FirstStored(l, m, adr, flag, r);
    FirstWord(m, adr, r);
    SecondStored(l, m1, adr, flag, r);
    UsedUpFirst(m1, adr, flag, r);
    TailBehind(m, adr, flag, r, x);
    TailFound(m2, adr, flag, r, x);
  }

  lemma PutBytes(l: Layout, m: Mem, adr: u32, slot: nat, data: seq<bv8>)
    requires Writable(l, adr, 1024) && |data| > 0 && 4 * slot + |data| <= SECTOR
    ensures ApplyAll(m, ChipOpsOf(l, adr, Put(slot, data))) == AndRange(m, adr + 4 * slot, data)
  {
    hide AndRange, PageOps, WriteDataOps;
    var a := adr + 4 * slot;
    assert Low32(a) == a && l.Accepts(a, |data|);
    hide Layout.Accepts, Layout.Valid;
    WriteDataIsWritePage(l, a, data);
    PageOpsAreLinear(m, a, data);
  }

  lemma FirstStored(l: Layout, m: Mem, adr: u32, flag: bv32, r: seq<bv8>)
    requires Writable(l, adr, 1024) && flag != BLANK && SectorWords(m, adr) == Blank(SLOTS) && 4 <= |r| < 256
    ensures Stored(l, m, adr, flag, r) == AndRange(m, adr, r)
  {
    assert adr + SECTOR <= CAPACITY;
    hide AndRange, RegionWords, ChipOpsOf, Writable;
    ScanFinds(Blank(SLOTS), flag, 0, 0, |r| / 4, SLOTS - |r| / 4);
    assert RecordCell.WriteOps(SectorWords(m, adr), flag, r) == [Put(0, r)];
    ChipOpsOne(l, adr, Put(0, r));
    PutBytes(l, m, adr, 0, r);
  }

  predicate LiveFirst(ws: Sector, flag: bv32) {
    ws[0] != flag && ws[0] != BLANK
  }

  lemma SecondStored(l: Layout, m: Mem, adr: u32, flag: bv32, r: seq<bv8>)
    requires Writable(l, adr, 1024) && 4 <= |r| < 256
    requires LiveFirst(SectorWords(m, adr), flag)
    ensures Stored(l, m, adr, flag, r)
            == AndRange(AndRange(m, adr, ToBytes(flag)), adr + 4 * (|r| / 4), r)
  {
    hide ToBytes, LiveFirst, RegionWords, AndRange, Stored, Layout.Accepts;
    assert adr + SECTOR <= CAPACITY && 4 * (|r| / 4) + |r| <= SECTOR;
    hide Writable;
    StoredInTwo(l, m, adr, flag, r);
    TwoPuts(l, m, adr, ToBytes(flag), |r| / 4, r);
  }

  lemma TwoPuts(l: Layout, m: Mem, adr: u32, fb: seq<bv8>, w: nat, r: seq<bv8>)
    requires Writable(l, adr, 1024) && |fb| == 4 && 0 < |r| && 4 * w + |r| <= SECTOR
    ensures ApplyAll(ApplyAll(m, ChipOpsOf(l, adr, Put(0, fb))), ChipOpsOf(l, adr, Put(w, r)))
            == AndRange(AndRange(m, adr, fb), adr + 4 * w, r)
  {
    hide AndRange, ChipOpsOf, Writable, ApplyAll;
    PutBytes(l, m, adr, 0, fb);
    PutBytes(l, ApplyAll(m, ChipOpsOf(l, adr, Put(0, fb))), adr, w, r);
  }

  lemma StoredInTwo(l: Layout, m: Mem, adr: u32, flag: bv32, r: seq<bv8>)
    requires adr + SECTOR <= CAPACITY && 4 <= |r| < 256
    requires LiveFirst(SectorWords(m, adr), flag)
    ensures Stored(l, m, adr, flag, r)
            == ApplyAll(ApplyAll(m, ChipOpsOf(l, adr, Put(0, ToBytes(flag)))), ChipOpsOf(l, adr, Put(|r| / 4, r)))
  {
    SecondOps(SectorWords(m, adr), flag, r);
    hide RegionWords, ChipOpsOf, ChipOps, ToBytes, ApplyAll, RecordCell.WriteOps;
    TwoOpsApplied(l, m, adr, Put(0, ToBytes(flag)), Put(|r| / 4, r));
  }

  lemma TwoOpsApplied(l: Layout, m: Mem, adr: u32, op: WordOp, op': WordOp)
    ensures ApplyAll(m, ChipOps(l, adr, [op, op']))
            == ApplyAll(ApplyAll(m, ChipOpsOf(l, adr, op)), ChipOpsOf(l, adr, op'))
  {
    hide ChipOpsOf;
    ChipOpsOne(l, adr, op);
    ChipOpsOne(l, adr, op');
    ChipOpsConcat(l, adr, [op], [op']);
    assert [op] + [op'] == [op, op'];
    ApplyAllConcat(m, ChipOpsOf(l, adr, op), ChipOpsOf(l, adr, op'));
  }

  lemma SecondOps(ws: Sector, flag: bv32, r: seq<bv8>)
    requires 4 <= |r| < 256 && LiveFirst(ws, flag)
    ensures RecordCell.WriteOps(ws, flag, r) == [Put(0, ToBytes(flag)), Put(|r| / 4, r)]
  {
    hide ToBytes;
  }

  lemma FirstWord(m: Mem, adr: nat, r: seq<bv8>)
    requires adr + SECTOR <= CAPACITY && 4 <= |r| && forall i | 0 <= i < CAPACITY :: m[i] == 0xFF
    ensures SectorWords(AndRange(m, adr, r), adr)[0] == ToWord(r[..4])
  {
    var m1 := AndRange(m, adr, r);
    hide AndRange, ToWord;
    forall j | 0 <= j < 4 ensures m1[adr + j] == r[j] {
      AndRangeByte(m, adr, r, adr + j);
      AndOnes(r[j]);
    }
    assert m1[adr..adr + 4] == r[..4];
  }

  lemma AndOnes(b: bv8)
    ensures 0xFF & b == b
  {
  }

  /** The marker over the first word; the record goes further back. */
  lemma UsedUpFirst(m: Mem, adr: nat, flag: bv32, r: seq<bv8>)
    requires adr + SECTOR <= CAPACITY && 4 <= |r| && Admissible(flag, SectorWords(m, adr)[0])
    ensures SectorWords(AndRange(AndRange(m, adr, ToBytes(flag)), adr + 4 * (|r| / 4), r), adr)[0] == flag
  {
    var m2 := AndRange(AndRange(m, adr, ToBytes(flag)), adr + 4 * (|r| / 4), r);
    WordOf(m, adr, 0);
    WordOf(m2, adr, 0);
    MarkedBytes(m, adr, ToBytes(flag), |r| / 4, r);
    hide AndRange, ToWord, ToBytes, Admissible, RegionWords;
    MarkedWord(m[adr..adr + 4], ToBytes(flag), m2[adr..adr + 4], flag);
  }

  lemma WordOf(m: Mem, adr: nat, i: nat)
    requires adr + SECTOR <= CAPACITY && i < SLOTS
    ensures SectorWords(m, adr)[i] == ToWord(m[adr + 4 * i..adr + 4 * i + 4])
  {
  }

  lemma MarkedBytes(m: Mem, adr: nat, fb: seq<bv8>, w: nat, r: seq<bv8>)
    requires adr + 4 <= CAPACITY && |fb| == 4 && w > 0
    ensures var b, d := m[adr..adr + 4], AndRange(AndRange(m, adr, fb), adr + 4 * w, r)[adr..adr + 4];
            d[0] == b[0] & fb[0] && d[1] == b[1] & fb[1] && d[2] == b[2] & fb[2] && d[3] == b[3] & fb[3]
  {
    var m1 := AndRange(m, adr, fb);
    var m2 := AndRange(m1, adr + 4 * w, r);
    hide AndRange;
    forall j | 0 <= j < 4 ensures m2[adr + j] == m1[adr + j] == m[adr + j] & fb[j] {
      AndRangeByte(m, adr, fb, adr + j);
      AndRangeByte(m1, adr + 4 * w, r, adr + j);
    }
  }

  lemma MarkedWord(b: seq<bv8>, c: seq<bv8>, d: seq<bv8>, flag: bv32)
    requires |b| == |d| == 4 && c == ToBytes(flag) && Admissible(flag, ToWord(b))
    requires d[0] == b[0] & c[0] && d[1] == b[1] & c[1] && d[2] == b[2] & c[2] && d[3] == b[3] & c[3]
    ensures ToWord(d) == flag
  {
    hide ToWord, ToBytes;
    AndIsBytewise(b, c, d);
    WordRoundTrip(flag);
  }

  /** The word the reader looks at next. */
  lemma TailBehind(m: Mem, adr: nat, flag: bv32, r: seq<bv8>, x: bv8)
    requires adr + SECTOR <= CAPACITY && 4 <= |r| < 256 && |r| % 4 != 0
    requires (forall i | 0 <= i < CAPACITY :: m[i] == 0xFF) && forall i | 4 <= i < |r| :: r[i] == x
    ensures var w := |r| / 4;
            SectorWords(AndRange(AndRange(AndRange(m, adr, r), adr, ToBytes(flag)), adr + 4 * w, r), adr)[w + 1]
            == TailWord(x, |r|)
  {
    var w, fb := |r| / 4, ToBytes(flag);
    var m1 := AndRange(m, adr, r);
    var m2 := AndRange(m1, adr, fb);
    var m3 := AndRange(m2, adr + 4 * w, r);
    var a := adr + 4 * w + 4;
    hide AndRange, ToWord, ToBytes, RegionWords;
    WordOf(m3, adr, w + 1);
    var tail := m3[a..a + 4];
    forall j | 0 <= j < 4 ensures tail[j] == if 4 + j < |r| then x else 0xFF {
      AndRangeByte(m, adr, r, a + j);
      AndRangeByte(m1, adr, fb, a + j);
      AndRangeByte(m2, adr + 4 * w, r, a + j);
      AndOnes(x);
    }
    assert tail == [tail[0], tail[1], tail[2], tail[3]];
  }

  lemma TailFound(m: Mem, adr: u32, flag: bv32, r: seq<bv8>, x: bv8)
    requires adr + SECTOR <= CAPACITY && 4 <= |r| < 256 && |r| % 4 != 0
    requires var t := TailWord(x, |r|);
             SectorWords(m, adr)[0] == flag && SectorWords(m, adr)[|r| / 4 + 1] == t
             && t != flag && t != BLANK && t != ToWord(r[..4])
    requires flag != BLANK
    ensures Delivered(m, adr, flag, |r|) != Some(r)
  {
    hide ToWord, TailWord;
    var w, ws := |r| / 4, SectorWords(m, adr);
    assert (|r| + 3) / 4 == w + 1;
    ScanStep(ws, flag, 0, w + 1, SLOTS - (w + 1));
    assert RecordCell.ReadSlot(ws, flag, |r|) == Some(w + 1);
    var a := adr + 4 * (w + 1);
    assert m[a..a + |r|][..4] == m[a..a + 4];
  }
}

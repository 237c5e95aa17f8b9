/** The record cell of flash_write_long_val and flash_read_long_val: records of `len` bytes, one per slot of
    d = len / 4 words, in a 4 KB sector that only the reader ever erases.

    A run may mix writes, reads and resets.  A record that crosses a flash page is programmed by two commands, so a
    reset can fall between them and leave the record torn. */
module RecordCell {
  import opened Arith
  import opened Bytes
  import opened Cells

  /** Record lengths the writer and the reader agree on; `len` is an unsigned char. */
  predicate ValidLen(len: nat) {
    0 < len < 256 && len % 4 == 0
  }

  function ScanSlots(ws: Sector, flag: bv32, d: nat): nat
    requires 0 < d <= SLOTS
  {
    Scan(ws, flag, 0, d, SLOTS - d)
  }

  /** The writer's slots are len / 4 words apart. */
  function WriteOps(ws: Sector, flag: bv32, rec: seq<bv8>): seq<WordOp>
    requires 4 <= |rec| < 256
  {
    var d := |rec| / 4;
    var i := ScanSlots(ws, flag, d);
    if i < SLOTS - d && ws[i] != BLANK then [Put(i, ToBytes(flag)), Put(i + d, rec)]
    else [Put(i, rec)]
  }

  /** The reader's are that, rounded up.  The word from which it copies a record out, or None when it reports the
      marker. */
  function ReadSlot(ws: Sector, flag: bv32, len: nat): (slot: Option<nat>)
    requires 0 < len < 256
    ensures slot.Some? ==> slot.value + (len + 3) / 4 < SLOTS
  {
    var d := (len + 3) / 4;
    var i := ScanSlots(ws, flag, d);
    if i < SLOTS - d && ws[i] != BLANK then Some(i) else None
  }

  /** The words of that record. */
  function ReadRecord(ws: Sector, flag: bv32, len: nat): Option<seq<bv32>>
    requires ValidLen(len)
  {
    match ReadSlot(ws, flag, len)
    case None => None
    case Some(i) => Some(ws[i..i + len / 4])
  }

  function ReadOps(ws: Sector, flag: bv32, len: nat): seq<WordOp>
    requires 0 < len < 256
  {
    var d := (len + 3) / 4;
    var i := ScanSlots(ws, flag, d);
    if i < SLOTS - d && ws[i] != BLANK then [] else if i >= 1000 then [Wipe] else []
  }

  // ----- page by page -----

  /** Bytes from this slot to the end of its flash page; sectors start on a page. */
  function Room(slot: nat): (n: nat)
    ensures 0 < n <= 256 && n % 4 == 0
  {
    256 - 4 * slot % 256
  }

  predicate Crosses(slot: nat, len: nat) {
    Room(slot) < len
  }

  /** The program commands of one record. */
  function PutPages(slot: nat, rec: seq<bv8>): seq<WordOp> {
    var n := Room(slot);
    if n < |rec| then [Put(slot, rec[..n]), Put(slot + n / 4, rec[n..])] else [Put(slot, rec)]
  }

  /** The commands of a whole write. */
  function Steps(ws: Sector, flag: bv32, rec: seq<bv8>): seq<WordOp>
    requires ValidLen(|rec|)
  {
    var ops := WriteOps(ws, flag, rec);
    ops[..|ops| - 1] + PutPages(ops[|ops| - 1].slot, rec)
  }

  /** What only the first command leaves of a record. */
  function Torn(slot: nat, rec: seq<bv8>): seq<bv32>
    requires Crosses(slot, |rec|)
  {
    WordsOf(rec[..Room(slot)]) + Blank(|rec| / 4 - Room(slot) / 4)
  }

  // ----- runs -----

  type Event = Cells.Event<seq<bv8>>

  /** Records of one length whose first word can be told from a blank and a used-up slot. */
  ghost predicate GoodRecord(flag: bv32, len: nat, rec: seq<bv8>) {
    |rec| == len && ValidLen(len) && Admissible(flag, WordsOf(rec)[0])
  }

  ghost predicate GoodRun(flag: bv32, len: nat, es: seq<Event>) {
    flag != BLANK && ValidLen(len) && forall e <- es :: !e.Read? ==> GoodRecord(flag, len, e.dat)
  }

  ghost function EventOps(ws: Sector, flag: bv32, len: nat, e: Event): seq<WordOp>
    requires ValidLen(len) && (!e.Read? ==> |e.dat| == len)
  {
    match e
    case Write(rec) => Steps(ws, flag, rec)
    case CutWrite(rec, n) => Cut(Steps(ws, flag, rec), n)
    case Read => ReadOps(ws, flag, len)
  }

  ghost function Exec(ws: Sector, flag: bv32, len: nat, e: Event): Sector
    requires ValidLen(len) && (!e.Read? ==> |e.dat| == len)
  {
    ApplyWords(ws, EventOps(ws, flag, len, e))
  }

  ghost function ExecAll(ws: Sector, flag: bv32, len: nat, es: seq<Event>): Sector
    requires GoodRun(flag, len, es)
    decreases |es|
  {
    if es == [] then ws else ExecAll(Exec(ws, flag, len, es[0]), flag, len, es[1..])
  }

  // ----- slots -----

  /** The word at which the n-th slot (from 0) starts. */
  function SlotStart(n: nat, d: nat): nat {
    n * d
  }

  lemma SlotStartStep(n: nat, d: nat)
    ensures SlotStart(0, d) == 0 && SlotStart(n + 1, d) == SlotStart(n, d) + d
  {
  }

  /** How many slots of d words start below 1024 - d. */
  function Capacity(d: nat): nat
    requires d > 0
  {
    (SLOTS - 1) / d
  }

  lemma SlotStartMonotone(m: nat, n: nat, d: nat)
    requires m <= n
    ensures SlotStart(m, d) <= SlotStart(n, d)
  {
  }

  lemma CapacityCounts(d: nat, n: nat)
    requires d > 0
    ensures n <= Capacity(d) <==> SlotStart(n, d) < SLOTS
  {
    hide SlotStart;
    var k := Capacity(d);
    CapacityIsTight(d);
    if n <= k {
      SlotStartMonotone(n, k, d);
    } else {
      SlotStartMonotone(k + 1, n, d);
    }
  }

  lemma CapacityIsTight(d: nat)
    requires d > 0
    ensures SlotStart(Capacity(d), d) < SLOTS <= SlotStart(Capacity(d) + 1, d)
  {
    SlotStartStep(Capacity(d), d);
    assert Capacity(d) * d + (SLOTS - 1) % d == SLOTS - 1;
  }

  // ----- the variable a run must look like -----

  /** The word where the next free or the live slot starts, and the words of the live record, if any. */
  datatype State = State(slot: nat, live: Option<seq<bv32>>) {
    /** Where the next record goes. */
    function Target(d: nat): nat {
      if live.Some? then slot + d else slot
    }

    /** Commands that come before those of the record. */
    function Marks(): nat {
      if live.Some? then 1 else 0
    }

    function Next(d: nat, e: Event): State {
      match e
      case Write(rec) => Placed(Target(d), d, WordsOf(rec))
      case CutWrite(rec, n) =>
        if n < Marks() then this
        else if n == Marks() then State(Target(d), None)
        else if n == Marks() + 1 && Crosses(Target(d), |rec|) then Placed(Target(d), d, Torn(Target(d), rec))
        else Placed(Target(d), d, WordsOf(rec))
      case Read => if live.None? && slot >= 1000 then State(0, None) else this
    }
  }

  /** The reader sees only slots that start below 1024 - d. */
  function Placed(slot: nat, d: nat, words: seq<bv32>): State {
    State(slot, if slot + d < SLOTS then Some(words) else None)
  }

  function RunState(s: State, d: nat, es: seq<Event>): State
    decreases |es|
  {
    if es == [] then s else RunState(s.Next(d, es[0]), d, es[1..])
  }

  function LiveWords(v: Option<seq<bv32>>): seq<bv32> {
    match v case None => [] case Some(words) => words
  }

  /** Used-up slots, then the live record and blanks; or, past the slots the reader looks at, used-up slots alone. */
  ghost predicate Holds(ws: Sector, flag: bv32, d: nat, s: State) {
    && 0 < d < SLOTS && flag != BLANK && s.slot < SLOTS
    && if s.slot + d < SLOTS
       then Shape(ws, flag, d, s.slot, LiveWords(s.live)) && (s.live.Some? ==> |s.live.value| == d)
       else s.live.None? && Markers(ws, flag, 0, s.slot, d)
  }

  lemma ScanAt(ws: Sector, flag: bv32, d: nat, s: State)
    requires Holds(ws, flag, d, s)
    ensures ScanSlots(ws, flag, d) == s.slot
    ensures s.slot + d < SLOTS ==>
      if s.live.Some? then ws[s.slot] != BLANK && ws[s.slot..s.slot + d] == s.live.value else ws[s.slot] == BLANK
  {
    if s.slot + d < SLOTS {
      if s.live.Some? {
        assert ws[s.slot..s.slot + d][0] == ws[s.slot];
      }
    } else if s.slot > 0 {
      MarkersStep(ws, flag, 0, s.slot, d);
    }
    ScanFinds(ws, flag, 0, s.slot, d, SLOTS - d);
  }

  lemma WriteOpsForm(ws: Sector, flag: bv32, s: State, rec: seq<bv8>)
    requires ValidLen(|rec|) && Holds(ws, flag, |rec| / 4, s)
    ensures var d := |rec| / 4;
            WriteOps(ws, flag, rec) ==
            if s.live.Some? then [Put(s.slot, ToBytes(flag)), Put(s.Target(d), rec)] else [Put(s.Target(d), rec)]
  {
    hide ScanSlots, Shape, Markers;
    ScanAt(ws, flag, |rec| / 4, s);
  }

  lemma StepsForm(ws: Sector, flag: bv32, s: State, rec: seq<bv8>)
    requires ValidLen(|rec|) && Holds(ws, flag, |rec| / 4, s)
    ensures var d := |rec| / 4;
            Steps(ws, flag, rec) ==
            (if s.live.Some? then [Put(s.slot, ToBytes(flag))] else []) + PutPages(s.Target(d), rec)
  {
    hide WriteOps, Holds, PutPages;
    WriteOpsForm(ws, flag, s, rec);
  }

  // ----- the commands one by one -----

  lemma MarkStep(ws: Sector, flag: bv32, d: nat, s: State)
    requires Holds(ws, flag, d, s) && s.live.Some?
    ensures Holds(ApplyWord(ws, Put(s.slot, ToBytes(flag))), flag, d, State(s.slot + d, None))
  {
    PutMarker(ws, flag, d, s.slot, LiveWords(s.live));
  }

  /** Programming data into the part after the slots the reader looks at changes nothing for it. */
  lemma PutPast(ws: Sector, flag: bv32, d: nat, s: State, slot: nat, data: seq<bv8>)
    requires Holds(ws, flag, d, s) && s.slot + d >= SLOTS && slot >= s.slot
    ensures Holds(ApplyWord(ws, Put(slot, data)), flag, d, s)
  {
    MarkersKept(ws, ApplyWord(ws, Put(slot, data)), flag, 0, s.slot, d);
  }

  lemma PutWhole(ws: Sector, flag: bv32, s: State, rec: seq<bv8>)
    requires GoodRecord(flag, |rec|, rec) && Holds(ws, flag, |rec| / 4, s) && s.live.None?
    ensures Holds(ApplyWord(ws, Put(s.slot, rec)), flag, |rec| / 4, Placed(s.slot, |rec| / 4, WordsOf(rec)))
  {
    var d := |rec| / 4;
    if s.slot + d < SLOTS {
      hide ApplyWord, WordsOf, Markers;
      PutLive(ws, flag, d, s.slot, rec);
    } else {
      PutPast(ws, flag, d, s, s.slot, rec);
    }
  }

  lemma PutFirst(ws: Sector, flag: bv32, s: State, rec: seq<bv8>)
    requires GoodRecord(flag, |rec|, rec) && Holds(ws, flag, |rec| / 4, s) && s.live.None? && Crosses(s.slot, |rec|)
    ensures Holds(ApplyWord(ws, Put(s.slot, rec[..Room(s.slot)])), flag, |rec| / 4,
                  Placed(s.slot, |rec| / 4, Torn(s.slot, rec)))
  {
    var d, n := |rec| / 4, Room(s.slot);
    if s.slot + d < SLOTS {
      PutPrefix(ws, flag, s, rec, n);
    } else {
      PutPast(ws, flag, d, s, s.slot, rec[..n]);
    }
  }

  lemma PutPrefix(ws: Sector, flag: bv32, s: State, rec: seq<bv8>, n: nat)
    requires GoodRecord(flag, |rec|, rec) && Holds(ws, flag, |rec| / 4, s) && s.live.None?
    requires s.slot + |rec| / 4 < SLOTS && 0 < n < |rec| && n % 4 == 0
    ensures Shape(ApplyWord(ws, Put(s.slot, rec[..n])), flag, |rec| / 4, s.slot,
                  WordsOf(rec[..n]) + Blank(|rec| / 4 - n / 4))
  {
    var d, p, part := |rec| / 4, s.slot, rec[..n];
    var ws' := ApplyWord(ws, Put(p, part));
    PutOnBlank(ws, p, part);
    FirstWordOf(rec, n);
    hide ApplyWord, WordsOf, ToWord;
    MarkersKept(ws, ws', flag, 0, p, d);
    PrefixSlice(ws', p, WordsOf(part), d);
  }

  lemma PrefixSlice(ws: Sector, p: nat, words: seq<bv32>, d: nat)
    requires |words| <= d && p + d <= SLOTS && ws[p..p + |words|] == words
    requires forall j | p + |words| <= j < SLOTS :: ws[j] == BLANK
    ensures ws[p..p + d] == words + Blank(d - |words|)
  {
    var slice, live := ws[p..p + d], words + Blank(d - |words|);
    forall j | 0 <= j < d ensures slice[j] == live[j] {
      if j < |words| {
        assert ws[p..p + |words|][j] == words[j];
      }
    }
  }

  lemma FirstWordOf(rec: seq<bv8>, n: nat)
    requires 4 <= n <= |rec|
    ensures WordsOf(rec[..n])[0] == WordsOf(rec)[0]
  {
    assert rec[..n][0..4] == rec[0..4];
  }

  /** The two halves together are the whole record. */
  lemma PagesAreWhole(ws: Sector, slot: nat, rec: seq<bv8>)
    requires ValidLen(|rec|)
    ensures ApplyWords(ws, PutPages(slot, rec)) == ApplyWord(ws, Put(slot, rec))
  {
    hide ApplyWord, WordsOf;
    var n := Room(slot);
    if n < |rec| {
      ApplyTwoWords(ws, Put(slot, rec[..n]), Put(slot + n / 4, rec[n..]));
      SplitPut(ws, slot, rec, n);
    } else {
      ApplyOneWord(ws, Put(slot, rec));
    }
  }

  lemma SplitPut(ws: Sector, slot: nat, rec: seq<bv8>, n: nat)
    requires n <= |rec| && n % 4 == 0 && |rec| % 4 == 0
    ensures ApplyWord(ApplyWord(ws, Put(slot, rec[..n])), Put(slot + n / 4, rec[n..])) == ApplyWord(ws, Put(slot, rec))
  {
    hide WordsOf, AndWords;
    SplitWords(rec, n);
    AndWordsSplit(ws, slot, WordsOf(rec[..n]), WordsOf(rec[n..]));
  }

  lemma SplitWords(rec: seq<bv8>, n: nat)
    requires n <= |rec| && n % 4 == 0 && |rec| % 4 == 0
    ensures WordsOf(rec) == WordsOf(rec[..n]) + WordsOf(rec[n..])
  {
    hide ToWord;
    forall k | 0 <= k < |rec| / 4 ensures WordsOf(rec)[k] == (WordsOf(rec[..n]) + WordsOf(rec[n..]))[k] {
      if k < n / 4 {
        assert rec[..n][4 * k..4 * k + 4] == rec[4 * k..4 * k + 4];
      } else {
        var j := k - n / 4;
        assert rec[n..][4 * j..4 * j + 4] == rec[4 * k..4 * k + 4];
      }
    }
  }

  lemma {:induction false} ApplyConcat(ws: seq<bv32>, ops: seq<WordOp>, ops': seq<WordOp>)
    ensures ApplyWords(ws, ops + ops') == ApplyWords(ApplyWords(ws, ops), ops')
    decreases |ops|
  {
    if ops == [] {
      assert ops + ops' == ops';
    } else {
      assert (ops + ops')[1..] == ops[1..] + ops';
      ApplyConcat(ApplyWord(ws, ops[0]), ops[1..], ops');
    }
  }

  /** The sector after the first n commands of a write. */
  lemma StepsCut(ws: Sector, flag: bv32, s: State, rec: seq<bv8>, n: nat)
    requires GoodRecord(flag, |rec|, rec) && Holds(ws, flag, |rec| / 4, s)
    ensures Holds(ApplyWords(ws, Cut(Steps(ws, flag, rec), n)), flag, |rec| / 4, s.Next(|rec| / 4, CutWrite(rec, n)))
  {
    hide Holds, ApplyWord, ApplyWords, Torn, Placed, WordsOf, Room, ToBytes, Steps;
    StepsForm(ws, flag, s, rec);
    NothingApplied(ws);
    if s.live.Some? {
      var mark := Put(s.slot, ToBytes(flag));
      var s1 := State(s.Target(|rec| / 4), None);
      MarkStep(ws, flag, |rec| / 4, s);
      ApplyOneWord(ws, mark);
      if n == 0 {
        assert Cut(Steps(ws, flag, rec), n) == [];
      } else {
        CutAfterMark(mark, PutPages(s1.slot, rec), n);
        ApplyConcat(ws, [mark], Cut(PutPages(s1.slot, rec), n - 1));
        PagesCut(ApplyWord(ws, mark), flag, s1, rec, n - 1);
      }
    } else {
      assert [] + PutPages(s.slot, rec) == PutPages(s.slot, rec);
      PagesCut(ws, flag, s, rec, n);
    }
  }

  lemma CutAfterMark(op: WordOp, ops: seq<WordOp>, n: nat)
    requires n > 0
    ensures Cut([op] + ops, n) == [op] + Cut(ops, n - 1)
  {
  }

  lemma NothingApplied(ws: seq<bv32>)
    ensures ApplyWords(ws, []) == ws
  {
  }

  lemma PagesCut(ws: Sector, flag: bv32, s: State, rec: seq<bv8>, n: nat)
    requires GoodRecord(flag, |rec|, rec) && Holds(ws, flag, |rec| / 4, s) && s.live.None?
    ensures Holds(ApplyWords(ws, Cut(PutPages(s.slot, rec), n)), flag, |rec| / 4, s.Next(|rec| / 4, CutWrite(rec, n)))
  {
    hide Holds, ApplyWord, ApplyWords, Torn, Placed, WordsOf, Room, ToBytes;
    var ops := PutPages(s.slot, rec);
    NothingApplied(ws);
    if n == 0 {
      assert Cut(ops, n) == [];
    } else if n == 1 && Crosses(s.slot, |rec|) {
      assert Cut(ops, n) == [ops[0]];
      ApplyOneWord(ws, ops[0]);
      PutFirst(ws, flag, s, rec);
    } else {
      assert Cut(ops, n) == ops;
      PagesAreWhole(ws, s.slot, rec);
      PutWhole(ws, flag, s, rec);
    }
  }

  lemma ReadStep(ws: Sector, flag: bv32, len: nat, s: State)
    requires ValidLen(len) && Holds(ws, flag, len / 4, s)
    ensures ReadRecord(ws, flag, len) == s.live
    ensures ReadOps(ws, flag, len) == if s.live.None? && s.slot >= 1000 then [Wipe] else []
    ensures Holds(Exec(ws, flag, len, Read), flag, len / 4, s.Next(len / 4, Read))
  {
    hide ScanSlots, Shape, Markers, ApplyWord;
    assert (len + 3) / 4 == len / 4;
    ScanAt(ws, flag, len / 4, s);
    if s.live.None? && s.slot >= 1000 {
      ApplyOneWord(ws, Wipe);
      WipeBlanks(ws);
      BlankHolds(flag, len / 4);
    }
  }

  lemma BlankHolds(flag: bv32, d: nat)
    requires 0 < d < SLOTS && flag != BLANK
    ensures Holds(Blank(SLOTS), flag, d, State(0, None))
  {
    BlankShape(SLOTS, flag, d);
  }

  lemma EventStep(ws: Sector, flag: bv32, len: nat, s: State, e: Event)
    requires ValidLen(len) && Holds(ws, flag, len / 4, s) && (!e.Read? ==> GoodRecord(flag, len, e.dat))
    ensures Holds(Exec(ws, flag, len, e), flag, len / 4, s.Next(len / 4, e))
  {
    hide Holds, Steps, ReadOps, Placed, Torn, Crosses;
    match e
    case Read => ReadStep(ws, flag, len, s);
    case CutWrite(rec, n) => StepsCut(ws, flag, s, rec, n);
    case Write(rec) =>
      StepsCut(ws, flag, s, rec, |Steps(ws, flag, rec)| + 3);
      assert Cut(Steps(ws, flag, rec), |Steps(ws, flag, rec)| + 3) == Steps(ws, flag, rec);
  }

  /** Refinement: over any run of writes, reads and resets the sector holds exactly the state. */
  lemma {:induction false} RunRefines(ws: Sector, flag: bv32, len: nat, s: State, es: seq<Event>)
    requires GoodRun(flag, len, es) && Holds(ws, flag, len / 4, s)
    ensures Holds(ExecAll(ws, flag, len, es), flag, len / 4, RunState(s, len / 4, es))
    decreases |es|
  {
    if es != [] {
      hide Holds, Exec, State.Next, GoodRecord;
      EventStep(ws, flag, len, s, es[0]);
      RunRefines(Exec(ws, flag, len, es[0]), flag, len, s.Next(len / 4, es[0]), es[1..]);
    }
  }

  /** From an erased sector a read returns the record of the state, after any run. */
  lemma ReadReturnsState(flag: bv32, len: nat, es: seq<Event>)
    requires GoodRun(flag, len, es)
    ensures var ws, s := ExecAll(Blank(SLOTS), flag, len, es), RunState(State(0, None), len / 4, es);
            && ReadRecord(ws, flag, len) == s.live
            && ReadOps(ws, flag, len) == if s.live.None? && s.slot >= 1000 then [Wipe] else []
  {
    BlankHolds(flag, len / 4);
    RunRefines(Blank(SLOTS), flag, len, State(0, None), es);
    ReadStep(ExecAll(Blank(SLOTS), flag, len, es), flag, len, RunState(State(0, None), len / 4, es));
  }

  // ----- without resets: capacity -----

  function Min(a: nat, b: nat): nat {
    if a < b then a else b
  }

  /** The state after n completed writes, the last of them `last`. */
  function Nth(n: nat, last: seq<bv32>, d: nat): State
    requires d > 0
  {
    if n == 0 then State(0, None) else Placed(SlotStart(Min(n - 1, Capacity(d)), d), d, last)
  }

  lemma NthWrites(n: nat, last: seq<bv32>, d: nat, rec: seq<bv8>)
    requires d > 0
    ensures Nth(n, last, d).Next(d, Write(rec)) == Nth(n + 1, WordsOf(rec), d)
    ensures n > 0 ==> (Nth(n, last, d).live == if n <= Capacity(d) then Some(last) else None)
    ensures Nth(n, last, d).Target(d) == SlotStart(Min(n, Capacity(d)), d)
  {
    hide SlotStart, Capacity, WordsOf;
    SlotStartStep(0, d);
    if n > 0 {
      SlotStartStep(n - 1, d);
      CapacityCounts(d, n);
      CapacityIsTight(d);
      SlotStartStep(Capacity(d), d);
    }
  }

  lemma NthReads(n: nat, last: seq<bv32>, d: nat)
    requires d > 0 && (n <= Capacity(d) || SlotStart(Capacity(d), d) < 1000)
    ensures Nth(n, last, d).Next(d, Read) == Nth(n, last, d)
  {
    hide SlotStart, Capacity, WordsOf;
    NthWrites(n, last, d, []);
  }

  /** Runs of completed calls in which no read erases: few enough writes, or no read, or a sector that no read frees. */
  predicate Settled(d: nat, n: nat, es: seq<Event>)
    requires d > 0
  {
    && (forall e <- es :: !e.CutWrite?)
    && (n + |Written(es)| <= Capacity(d) || SlotStart(Capacity(d), d) < 1000 || forall e <- es :: e.Write?)
  }

  lemma {:induction false} StateAfterWrites(d: nat, n: nat, last: seq<bv32>, es: seq<Event>)
    requires d > 0 && Settled(d, n, es)
    ensures var recs := Written(es);
            RunState(Nth(n, last, d), d, es) == Nth(n + |recs|, LastWords(recs, last), d)
    decreases |es|
  {
    if es != [] {
      hide Nth, State.Next, Capacity, SlotStart, WordsOf, Settled, Written, LastWords;
      SettledRest(d, n, es);
      WrittenRest(es, last);
      if es[0].Write? {
        NthWrites(n, last, d, es[0].dat);
        StateAfterWrites(d, n + 1, WordsOf(es[0].dat), es[1..]);
      } else {
        assert es[0] == Read;
        NthReads(n, last, d);
        StateAfterWrites(d, n, last, es[1..]);
      }
    }
  }

  function LastWords(recs: seq<seq<bv8>>, last: seq<bv32>): seq<bv32> {
    if recs == [] then last else WordsOf(recs[|recs| - 1])
  }

  lemma WrittenRest(es: seq<Event>, last: seq<bv32>)
    requires es != []
    ensures var rest := Written(es[1..]);
            if es[0].Write? then
              |Written(es)| == 1 + |rest| && LastWords(Written(es), last) == LastWords(rest, WordsOf(es[0].dat))
            else Written(es) == rest
  {
    hide WordsOf;
  }

  lemma SettledRest(d: nat, n: nat, es: seq<Event>)
    requires d > 0 && Settled(d, n, es) && es != []
    ensures Settled(d, if es[0].Write? then n + 1 else n, es[1..])
    ensures !es[0].CutWrite? && (es[0].Read? ==> n <= Capacity(d) || SlotStart(Capacity(d), d) < 1000)
  {
    hide Capacity, SlotStart;
  }

  /** The state after a settled run, and where it leaves the sector. */
  lemma AfterWrites(flag: bv32, len: nat, es: seq<Event>)
    requires GoodRun(flag, len, es) && Settled(len / 4, 0, es)
    ensures var recs := Written(es);
            var s := Nth(|recs|, LastWords(recs, []), len / 4);
            RunState(State(0, None), len / 4, es) == s
            && Holds(ExecAll(Blank(SLOTS), flag, len, es), flag, len / 4, s)
  {
    hide ExecAll, Holds, Settled, Capacity, SlotStart, WordsOf, LastWords, Written;
    BlankHolds(flag, len / 4);
    RunRefines(Blank(SLOTS), flag, len, State(0, None), es);
    assert Nth(0, [], len / 4) == State(0, None);
    StateAfterWrites(len / 4, 0, [], es);
  }

  /** After n >= 1 completed writes, with any reads among them up to the capacity, the last record is read back, and
      kept, exactly while n is within the capacity.  From then on the reader reports the marker. */
  lemma ReadBackExactly(flag: bv32, len: nat, es: seq<Event>)
    requires GoodRun(flag, len, es) && Settled(len / 4, 0, es) && Written(es) != []
    ensures var ws, recs := ExecAll(Blank(SLOTS), flag, len, es), Written(es);
            && ReadRecord(ws, flag, len)
               == (if |recs| <= Capacity(len / 4) then Some(WordsOf(recs[|recs| - 1])) else None)
            && (|recs| <= Capacity(len / 4) ==> ReadOps(ws, flag, len) == [])
  {
    hide ExecAll, Capacity, Nth, WordsOf, Settled;
    var recs := Written(es);
    AfterWrites(flag, len, es);
    ReadReturnsState(flag, len, es);
    NthWrites(|recs|, WordsOf(recs[|recs| - 1]), len / 4, []);
  }

  /** Past the capacity the next read frees the sector exactly if the K-th slot starts at word 1000 or later. */
  lemma ReaderRecoversExactly(flag: bv32, len: nat, es: seq<Event>)
    requires GoodRun(flag, len, es) && Settled(len / 4, 0, es) && |Written(es)| > Capacity(len / 4)
    ensures ReadOps(ExecAll(Blank(SLOTS), flag, len, es), flag, len)
            == if SlotStart(Capacity(len / 4), len / 4) >= 1000 then [Wipe] else []
  {
    hide ExecAll, Capacity, WordsOf, Settled, SlotStart, Placed;
    var recs, d := Written(es), len / 4;
    AfterWrites(flag, len, es);
    ReadReturnsState(flag, len, es);
    NthWrites(|recs|, WordsOf(recs[|recs| - 1]), d, []);
    assert Nth(|recs|, WordsOf(recs[|recs| - 1]), d).slot == SlotStart(Capacity(d), d) by {
      PlacedAt(SlotStart(Min(|recs| - 1, Capacity(d)), d), d, WordsOf(recs[|recs| - 1]));
    }
  }

  lemma PlacedAt(slot: nat, d: nat, words: seq<bv32>)
    ensures Placed(slot, d, words).slot == slot
  {
  }

  /** Otherwise it is full for good: whatever reads, writes and resets follow, nothing is stored again. */
  lemma StaysFull(flag: bv32, len: nat, es: seq<Event>, es': seq<Event>)
    requires GoodRun(flag, len, es + es') && Settled(len / 4, 0, es) && |Written(es)| > Capacity(len / 4)
    requires SlotStart(Capacity(len / 4), len / 4) < 1000
    ensures var ws := ExecAll(Blank(SLOTS), flag, len, es + es');
            ReadRecord(ws, flag, len) == None && ReadOps(ws, flag, len) == []
  {
    hide ExecAll, Capacity, WordsOf, Settled, SlotStart, Placed, State.Next, GoodRecord, Written, LastWords;
    var d, recs := len / 4, Written(es);
    assert GoodRun(flag, len, es) by {
      assert forall e <- es :: e in es + es';
    }
    var s := RunState(State(0, None), d, es);
    AfterWrites(flag, len, es);
    NthWrites(|recs|, LastWords(recs, []), d, []);
    PlacedAt(SlotStart(Min(|recs| - 1, Capacity(d)), d), d, LastWords(recs, []));
    CapacityIsTight(d);
    SlotStartStep(Capacity(d), d);
    FullStaysFull(s, d, es');
    RunStateConcat(State(0, None), d, es, es');
    ReadReturnsState(flag, len, es + es');
  }

  lemma {:induction false} FullStaysFull(s: State, d: nat, es: seq<Event>)
    requires s.live.None? && s.slot + d >= SLOTS && s.slot < 1000
    ensures RunState(s, d, es) == s
    decreases |es|
  {
    if es != [] {
      FullStep(s, d, es[0]);
      FullStaysFull(s, d, es[1..]);
    }
  }

  lemma FullStep(s: State, d: nat, e: Event)
    requires s.live.None? && s.slot + d >= SLOTS && s.slot < 1000
    ensures s.Next(d, e) == s
  {
    hide WordsOf, Torn;
  }

  lemma {:induction false} RunStateConcat(s: State, d: nat, es: seq<Event>, es': seq<Event>)
    ensures RunState(s, d, es + es') == RunState(RunState(s, d, es), d, es')
    decreases |es|
  {
    hide State.Next;
    if es == [] {
      assert es + es' == es';
    } else {
      assert (es + es')[1..] == es[1..] + es';
      RunStateConcat(s.Next(d, es[0]), d, es[1..], es');
    }
  }

  /** 49-word records are such a case: the 20th slot would start at word 980. */
  lemma FortyNineStaysFull(flag: bv32, es: seq<Event>)
    requires GoodRun(flag, 196, es) && (forall e <- es :: !e.CutWrite?) && |Written(es)| > 20
    ensures ReadRecord(ExecAll(Blank(SLOTS), flag, 196, es), flag, 196) == None
    ensures ReadOps(ExecAll(Blank(SLOTS), flag, 196, es), flag, 196) == []
  {
    hide ExecAll, ReadRecord, ReadOps;
    assert Capacity(49) == 20 && SlotStart(20, 49) == 980;
    assert es + [] == es;
    StaysFull(flag, 196, es, []);
  }

  /** Up to the capacity every write stays inside the sector.  The first one past it runs out of the sector
      unless d divides 1024. */
  lemma OverflowExactly(flag: bv32, len: nat, es: seq<Event>, rec: seq<bv8>)
    requires GoodRun(flag, len, es) && GoodRecord(flag, len, rec)
    requires Settled(len / 4, 0, es) && |Written(es)| <= Capacity(len / 4)
    ensures var d, n, ops := len / 4, |Written(es)|, WriteOps(ExecAll(Blank(SLOTS), flag, len, es), flag, rec);
            && |ops| == (if n == 0 then 1 else 2)
            && ops[|ops| - 1] == Put(SlotStart(n, d), rec)
            && (n > 0 ==> ops[0] == Put(SlotStart(n - 1, d), ToBytes(flag)) && SlotStart(n - 1, d) < SLOTS)
            && SlotStart(n, d) < SLOTS
            && (SlotStart(n, d) + d > SLOTS <==> n == Capacity(d) && SLOTS % d != 0)
  {
    hide ExecAll, Capacity, WriteOps, Holds, SlotStart, WordsOf, Settled, ToBytes;
    var recs, d := Written(es), len / 4;
    var n, last := |recs|, LastWords(recs, []);
    AfterWrites(flag, len, es);
    NthWrites(n, last, d, rec);
    WriteOpsForm(ExecAll(Blank(SLOTS), flag, len, es), flag, Nth(n, last, d), rec);
    CapacityCounts(d, n);
    CapacityCounts(d, n + 1);
    SlotStartStep(n, d);
    if n > 0 {
      CapacityCounts(d, n - 1);
    }
    if n == Capacity(d) {
      ExactMultiple(n + 1, d);
    }
  }

  // ----- staying inside the sector -----

  /** Every record of the run ends inside the sector. */
  predicate RoomFor(s: State, d: nat, es: seq<Event>)
    decreases |es|
  {
    es == [] || ((!es[0].Read? ==> s.Target(d) + d <= SLOTS) && RoomFor(s.Next(d, es[0]), d, es[1..]))
  }

  function WriteCount(es: seq<Event>): nat
    decreases |es|
  {
    if es == [] then 0 else (if es[0].Read? then 0 else 1) + WriteCount(es[1..])
  }

  lemma {:induction false} WrittenAreWrites(es: seq<Event>)
    ensures |Written(es)| <= WriteCount(es)
    decreases |es|
  {
    if es != [] {
      WrittenAreWrites(es[1..]);
    }
  }

  /** Up to K writes, cut or not, stay inside. */
  lemma {:induction false} RoomWithinCapacity(s: State, d: nat, k: nat, es: seq<Event>)
    requires d > 0 && s.Target(d) <= SlotStart(k, d) && k + WriteCount(es) <= Capacity(d)
    ensures RoomFor(s, d, es)
    decreases |es|
  {
    if es != [] {
      hide SlotStart, Capacity;
      SlotStartStep(k, d);
      TargetMoves(s, d, es[0]);
      if es[0].Read? {
        RoomWithinCapacity(s.Next(d, es[0]), d, k, es[1..]);
      } else {
        CapacityCounts(d, k + 1);
        RoomWithinCapacity(s.Next(d, es[0]), d, k + 1, es[1..]);
      }
    }
  }

  lemma TargetMoves(s: State, d: nat, e: Event)
    ensures s.Next(d, e).Target(d) <= if e.Read? then s.Target(d) else s.Target(d) + d
  {
    hide WordsOf, Torn;
  }

  /** Every write stays inside if d divides 1024. */
  lemma {:induction false} RoomIfSlotsFill(s: State, d: nat, es: seq<Event>)
    requires d > 0 && SLOTS % d == 0 && s.slot % d == 0 && s.slot < SLOTS && (s.live.Some? ==> s.slot + d < SLOTS)
    ensures RoomFor(s, d, es)
    decreases |es|
  {
    if es != [] {
      hide WordsOf, Torn, State.Next;
      NextIsMultiple(s, d, es[0]);
      NextIsInside(s, d, es[0]);
      NextSlotFits(s.slot, d);
      if s.live.Some? {
        NextIsMultiple(s, d, CutWrite([], 1));
        assert s.Next(d, CutWrite([], 1)).slot == s.slot + d by {
          MarkMoves(s, d);
        }
        NextSlotFits(s.slot + d, d);
      }
      RoomIfSlotsFill(s.Next(d, es[0]), d, es[1..]);
    }
  }

  lemma MarkMoves(s: State, d: nat)
    requires s.live.Some?
    ensures s.Next(d, CutWrite([], 1)).slot == s.slot + d
  {
  }

  lemma NextIsInside(s: State, d: nat, e: Event)
    requires s.slot < SLOTS && (s.live.Some? ==> s.slot + d < SLOTS)
    ensures var t := s.Next(d, e); t.slot < SLOTS && (t.live.Some? ==> t.slot + d < SLOTS)
  {
    hide WordsOf, Torn;
  }

  lemma NextSlotFits(slot: nat, d: nat)
    requires d > 0 && SLOTS % d == 0 && slot % d == 0 && slot < SLOTS
    ensures slot + d <= SLOTS
  {
    DivMod(SLOTS, d);
    DivMod(slot, d);
    if slot / d >= SLOTS / d {
      MulMono(SLOTS / d, slot / d, d);
    } else {
      MulMono(slot / d + 1, SLOTS / d, d);
    }
  }

  // ----- with resets: torn records -----

  /** What is live is what was live before, or a record of the run, whole, or torn in a slot that crosses a page. */
  ghost predicate ComesFrom(t: State, before: Option<seq<bv32>>, es: seq<Event>) {
    t.live.None? || t.live == before || exists e <- es :: !e.Read? && IsLeftBy(t, e.dat)
  }

  predicate IsLeftBy(t: State, rec: seq<bv8>) {
    t.live == Some(WordsOf(rec)) || (Crosses(t.slot, |rec|) && t.live == Some(Torn(t.slot, rec)))
  }

  lemma {:induction false} LiveComesFrom(s: State, d: nat, es: seq<Event>)
    ensures ComesFrom(RunState(s, d, es), s.live, es)
    decreases |es|
  {
    if es != [] {
      var n := |es| - 1;
      RunStateLast(s, d, es);
      LiveComesFrom(s, d, es[..n]);
      assert forall e <- es[..n] :: e in es;
      assert es[n] in es;
      StepComesFrom(RunState(s, d, es[..n]), d, es[n]);
    }
  }

  lemma StepComesFrom(t: State, d: nat, e: Event)
    ensures var t' := t.Next(d, e);
            t'.live.None? || t' == t || (!e.Read? && IsLeftBy(t', e.dat))
  {
    hide WordsOf, Torn, Crosses;
  }

  /** Once a write has completed no earlier record ever comes back: a read delivers that record, or what a later write
      left, or reports the marker. */
  lemma NoOlderRecordReturns(flag: bv32, len: nat, es: seq<Event>, rec: seq<bv8>, es': seq<Event>)
    requires GoodRun(flag, len, es + [Write(rec)] + es')
    ensures var run, t := es + [Write(rec)] + es', RunState(State(0, None), len / 4, es + [Write(rec)] + es');
            var r := ReadRecord(ExecAll(Blank(SLOTS), flag, len, run), flag, len);
            && r == t.live
            && (r == None || r == Some(WordsOf(rec)) || exists e <- es' :: !e.Read? && IsLeftBy(t, e.dat))
  {
    hide ReadRecord, ExecAll, WordsOf, State.Next, Torn, IsLeftBy, GoodRecord;
    var d, s0 := len / 4, State(0, None);
    ReadReturnsState(flag, len, es + [Write(rec)] + es');
    RunStateConcat(s0, d, es + [Write(rec)], es');
    RunStateLast(s0, d, es + [Write(rec)]);
    assert (es + [Write(rec)])[..|es|] == es;
    WriteLeaves(RunState(s0, d, es), d, rec);
    LiveComesFrom(RunState(s0, d, es + [Write(rec)]), d, es');
  }

  lemma WriteLeaves(s: State, d: nat, rec: seq<bv8>)
    ensures s.Next(d, Write(rec)).live in {None, Some(WordsOf(rec))}
  {
  }

  lemma {:induction false} RunStateLast(s: State, d: nat, es: seq<Event>)
    requires es != []
    ensures var n := |es| - 1; RunState(s, d, es) == RunState(s, d, es[..n]).Next(d, es[n])
    decreases |es|
  {
    hide State.Next;
    var n := |es| - 1;
    if n > 0 {
      RunStateLast(s.Next(d, es[0]), d, es[1..]);
      assert es[1..][..n - 1] == es[..n][1..];
    } else {
      assert es[1..] == [] && es[..n] == [];
    }
  }

  lemma {:induction false} SlotIsMultiple(s: State, d: nat, es: seq<Event>)
    requires d > 0 && s.slot % d == 0
    ensures RunState(s, d, es).slot % d == 0
    decreases |es|
  {
    if es != [] {
      NextIsMultiple(s, d, es[0]);
      SlotIsMultiple(s.Next(d, es[0]), d, es[1..]);
    }
  }

  lemma NextIsMultiple(s: State, d: nat, e: Event)
    requires d > 0 && s.slot % d == 0
    ensures s.Next(d, e).slot % d == 0
  {
    DivMod(s.slot, d);
    assert s.slot + d == (s.slot / d + 1) * d;
    MultipleMod(s.slot / d + 1, d);
    MultipleMod(0, d);
  }

  /** Slots of d words never cross a page if d divides 64. */
  lemma NoCrossing(slot: nat, len: nat)
    requires ValidLen(len) && 64 % (len / 4) == 0 && slot % (len / 4) == 0
    ensures !Crosses(slot, len)
  {
    RestBelow(slot, len / 4);
    DivMod(slot, 64);
    DivUnique(4 * slot, 256, slot / 64);
  }

  lemma RestBelow(slot: nat, d: nat)
    requires d > 0 && 64 % d == 0 && slot % d == 0
    ensures slot % 64 + d <= 64
  {
    var k, m, q := 64 / d, slot / d, slot / 64;
    DivMod(64, d);
    DivMod(slot, d);
    var t := m - k * q;
    assert t * d == slot % 64 by {
      assert k * q * d == k * d * q;
    }
    if t >= k {
      MulMono(k, t, d);
    } else {
      MulMono(t, k - 1, d);
    }
  }

  /** Otherwise the slot that starts last in the first page does. */
  lemma FirstCrossing(len: nat)
    requires ValidLen(len) && 64 % (len / 4) != 0
    ensures var d := len / 4; var n := 64 / d;
            Crosses(SlotStart(n, d), len) && 0 < n < Capacity(d) && SlotStart(n, d) + d < SLOTS
  {
    var d := len / 4;
    var n := 64 / d;
    DivMod(64, d);
    assert n > 0 by {
      DivAtLeast(64, d, 1);
    }
    assert SlotStart(n, d) < 64 < SlotStart(n, d) + d;
    SlotStartStep(n, d);
    CapacityCounts(d, n + 1);
  }

  /** The read delivers some record of the run whole, or nothing. */
  ghost predicate WholeRead(r: Option<seq<bv32>>, es: seq<Event>) {
    r.None? || exists e <- es :: !e.Read? && r == Some(WordsOf(e.dat))
  }

  /** So it is after every run. */
  ghost predicate NeverTorn(flag: bv32, len: nat) {
    forall es: seq<Event> | GoodRun(flag, len, es) ::
      WholeRead(ReadRecord(ExecAll(Blank(SLOTS), flag, len, es), flag, len), es)
  }

  /** A reset can tear records exactly if their slots do not tile the pages - provided there is a record of this length
      to store at all. */
  lemma TornExactly(flag: bv32, len: nat, rec: seq<bv8>)
    requires flag != BLANK && GoodRecord(flag, len, rec)
    ensures NeverTorn(flag, len) <==> 64 % (len / 4) == 0
  {
    hide ReadRecord, ExecAll, WordsOf, CutRun, WholeRead;
    if 64 % (len / 4) == 0 {
      forall es: seq<Event> | GoodRun(flag, len, es)
        ensures WholeRead(ReadRecord(ExecAll(Blank(SLOTS), flag, len, es), flag, len), es)
      {
        WholeOrNothing(flag, len, es);
      }
    } else {
      var rec' := ZeroTailed(rec);
      ZeroTailIsGood(flag, len, rec);
      var es := CutRun(rec', 64 / (len / 4));
      CutRunTears(flag, len, rec');
      TornIsNotWhole(len, rec', SlotStart(64 / (len / 4), len / 4));
      var r := ReadRecord(ExecAll(Blank(SLOTS), flag, len, es), flag, len);
      if WholeRead(r, es) {
        CutRunIsOnly(rec', 64 / (len / 4), r);
      }
    }
  }

  lemma WholeOrNothing(flag: bv32, len: nat, es: seq<Event>)
    requires GoodRun(flag, len, es) && 64 % (len / 4) == 0
    ensures WholeRead(ReadRecord(ExecAll(Blank(SLOTS), flag, len, es), flag, len), es)
  {
    hide ReadRecord, ExecAll, WordsOf, Crosses;
    var t := RunState(State(0, None), len / 4, es);
    ReadReturnsState(flag, len, es);
    LiveComesFrom(State(0, None), len / 4, es);
    SlotIsMultiple(State(0, None), len / 4, es);
    NoCrossing(t.slot, len);
    assert forall e <- es :: !e.Read? ==> |e.dat| == len;
  }

  /** A record of several words with its last one replaced by 0. */
  function ZeroTailed(rec: seq<bv8>): seq<bv8>
    requires |rec| >= 4
  {
    rec[..|rec| - 4] + [0, 0, 0, 0]
  }

  lemma ZeroTailIsGood(flag: bv32, len: nat, rec: seq<bv8>)
    requires GoodRecord(flag, len, rec) && 64 % (len / 4) != 0
    ensures var rec' := ZeroTailed(rec); GoodRecord(flag, len, rec') && WordsOf(rec')[len / 4 - 1] != BLANK
  {
    var rec' := ZeroTailed(rec);
    assert len / 4 >= 3;
    assert rec'[0..4] == rec[0..4];
    assert rec'[len - 4..len] == [0, 0, 0, 0] && 4 * (len / 4 - 1) == len - 4;
    ZeroWord([0, 0, 0, 0]);
    hide ToWord;
  }

  lemma ZeroWord(b: seq<bv8>)
    requires b == [0, 0, 0, 0]
    ensures ToWord(b) == 0
  {
  }

  /** n completed writes, then one cut between the two commands of the record. */
  function CutRun(rec: seq<bv8>, n: nat): seq<Event> {
    seq(n, _ => Write(rec)) + [CutWrite(rec, 2)]
  }

  lemma CutRunTears(flag: bv32, len: nat, rec: seq<bv8>)
    requires flag != BLANK && GoodRecord(flag, len, rec) && 64 % (len / 4) != 0
    ensures var es, slot := CutRun(rec, 64 / (len / 4)), SlotStart(64 / (len / 4), len / 4);
            && GoodRun(flag, len, es) && Crosses(slot, len)
            && ReadRecord(ExecAll(Blank(SLOTS), flag, len, es), flag, len) == Some(Torn(slot, rec))
  {
    hide ReadRecord, ExecAll, WordsOf, SlotStart, Capacity, Torn, Crosses;
    var d := len / 4;
    var n := 64 / d;
    var es, ws: seq<Event> := CutRun(rec, n), seq(n, _ => Write(rec));
    FirstCrossing(len);
    ReadReturnsState(flag, len, es);
    RunStateLast(State(0, None), d, es);
    assert es[..n] == ws;
    WrittenAll(rec, n);
    StateAfterWrites(d, 0, [], ws);
    NthWrites(n, WordsOf(rec), d, rec);
  }

  lemma CutRunIsOnly(rec: seq<bv8>, n: nat, r: Option<seq<bv32>>)
    requires WholeRead(r, CutRun(rec, n))
    ensures r == None || r == Some(WordsOf(rec))
  {
    assert forall e <- CutRun(rec, n) :: !e.Read? ==> e.dat == rec;
  }

  lemma {:induction false} WrittenAll(rec: seq<bv8>, n: nat)
    ensures var es: seq<Event> := seq(n, _ => Write(rec)); Written(es) == seq(n, _ => rec)
    decreases n
  {
    if n > 0 {
      var es: seq<Event> := seq(n, _ => Write(rec));
      WrittenAll(rec, n - 1);
      assert es[1..] == seq(n - 1, _ => Write(rec));
    }
  }

  lemma TornIsNotWhole(len: nat, rec: seq<bv8>, slot: nat)
    requires ValidLen(len) && |rec| == len && Crosses(slot, len) && WordsOf(rec)[len / 4 - 1] != BLANK
    ensures Torn(slot, rec) != WordsOf(rec)
  {
    assert Torn(slot, rec)[len / 4 - 1] == BLANK;
  }

  /** The first multiple of d from 1024 on is 1024 itself exactly when d divides 1024. */
  lemma ExactMultiple(n: nat, d: nat)
    requires 0 < d && 0 < n && SlotStart(n - 1, d) < SLOTS <= SlotStart(n, d)
    ensures SlotStart(n, d) == SLOTS <==> SLOTS % d == 0
  {
    hide SlotStart;
    var q := SLOTS / d;
    DivisionRest(d);
    SlotStartStep(q, d);
    if SLOTS % d == 0 {
      SlotStartOrder(n - 1, q, d);
      SlotStartMonotone(n, q, d);
    } else if SlotStart(n, d) == SLOTS {
      SlotStartOrder(n, q + 1, d);
      SlotStartMonotone(n, q, d);
    }
  }

  lemma DivisionRest(d: nat)
    requires d > 0
    ensures SlotStart(SLOTS / d, d) + SLOTS % d == SLOTS
  {
  }

  lemma SlotStartOrder(m: nat, n: nat, d: nat)
    requires SlotStart(m, d) < SlotStart(n, d)
    ensures m < n
  {
    if n <= m {
      SlotStartMonotone(n, m, d);
    }
  }
}

/** The value cell of flash_write_val and flash_read_val: one 32-bit variable kept in a 4 KB sector.

    The protocol is given as the list of flash operations each call performs; a reset is a call cut after any
    number of them.  The main result is that a sector under any run of calls and resets is a plain variable. */
module ValueCell {
  import opened Bytes
  import opened Cells

  function FirstUnmarked(ws: Sector, flag: bv32): nat {
    Scan(ws, flag, 0, 1, SLOTS)
  }

  /** The flash operations of flash_write_val. */
  function WriteOps(ws: Sector, flag: bv32, dat: bv32): seq<WordOp> {
    var i := FirstUnmarked(ws, flag);
    if i < SLOTS && ws[i] != BLANK then
      if i == SLOTS - 1 then [Wipe, Put(0, ToBytes(dat))]
      else [Put(i, ToBytes(flag)), Put(i + 1, ToBytes(dat))]
    else [Put(i, ToBytes(dat))]
  }

  /** The value flash_read_val returns, and the clean-up erase it may perform. */
  function ReadResult(ws: Sector, flag: bv32): bv32 {
    var i := FirstUnmarked(ws, flag);
    if i < SLOTS && ws[i] != BLANK then ws[i] else flag
  }

  function ReadOps(ws: Sector, flag: bv32): seq<WordOp> {
    var i := FirstUnmarked(ws, flag);
    if i < SLOTS && ws[i] != BLANK then [] else if i > 1000 then [Wipe] else []
  }

  // ----- runs -----

  type Event = Cells.Event<bv32>

  function EventOps(ws: Sector, flag: bv32, e: Event): seq<WordOp> {
    match e
    case Write(dat) => WriteOps(ws, flag, dat)
    case CutWrite(dat, n) => Cut(WriteOps(ws, flag, dat), n)
    case Read => ReadOps(ws, flag)
  }

  function Exec(ws: Sector, flag: bv32, e: Event): Sector {
    ApplyWords(ws, EventOps(ws, flag, e))
  }

  function ExecAll(ws: Sector, flag: bv32, es: seq<Event>): Sector
    decreases |es|
  {
    if es == [] then ws else ExecAll(Exec(ws, flag, es[0]), flag, es[1..])
  }

  function CountWipes(ops: seq<WordOp>): nat
    decreases |ops|
  {
    if ops == [] then 0 else (if ops[0].Wipe? then 1 else 0) + CountWipes(ops[1..])
  }

  /** Sector erases over a run. */
  function Wear(ws: Sector, flag: bv32, es: seq<Event>): nat
    decreases |es|
  {
    if es == [] then 0 else CountWipes(EventOps(ws, flag, es[0])) + Wear(Exec(ws, flag, es[0]), flag, es[1..])
  }

  ghost predicate AdmissibleRun(flag: bv32, es: seq<Event>) {
    flag != BLANK && forall e <- es :: !e.Read? ==> Admissible(flag, e.dat)
  }

  // ----- the variable a run must look like -----

  /** None is the state in which a read returns the marker. A write first withdraws the old word, if there is
      one, and then stores the new one. */
  function VarStep(v: Option<bv32>, e: Event): Option<bv32> {
    match e
    case Write(dat) => Some(dat)
    case CutWrite(dat, n) => if n == 0 then v else if v.None? || n > 1 then Some(dat) else None
    case Read => v
  }

  function VarRun(v: Option<bv32>, es: seq<Event>): Option<bv32>
    decreases |es|
  {
    if es == [] then v else VarRun(VarStep(v, es[0]), es[1..])
  }

  /** The sector holds the variable v: used-up slots, at most one live word, blanks; never all used up. */
  ghost predicate Holds(ws: Sector, flag: bv32, v: Option<bv32>) {
    var p := FirstUnmarked(ws, flag);
    p < SLOTS && Shape(ws, flag, 1, p, Live(v))
  }

  lemma HoldsAt(ws: Sector, flag: bv32, v: Option<bv32>, p: nat)
    requires p < SLOTS && Shape(ws, flag, 1, p, Live(v))
    ensures FirstUnmarked(ws, flag) == p && Holds(ws, flag, v)
  {
    LiveWord(ws, flag, v, p);
    ScanFinds(ws, flag, 0, p, 1, SLOTS);
  }

  lemma LiveWord(ws: Sector, flag: bv32, v: Option<bv32>, p: nat)
    requires p < SLOTS && Shape(ws, flag, 1, p, Live(v))
    ensures ws[p] == ValueOr(v, BLANK) && ws[p] != flag && (v.Some? ==> ws[p] != BLANK)
  {
    if v.Some? {
      assert ws[p..p + 1][0] == v.value;
    }
  }

  /** Where the next word goes. */
  function NextSlot(ws: Sector, flag: bv32, v: Option<bv32>): nat {
    var p := FirstUnmarked(ws, flag);
    if v.None? then p else if p == SLOTS - 1 then 0 else p + 1
  }

  lemma CountWipesOfTwo(op: WordOp, op': WordOp)
    ensures CountWipes([op]) == (if op.Wipe? then 1 else 0)
    ensures CountWipes([op, op']) == (if op.Wipe? then 1 else 0) + (if op'.Wipe? then 1 else 0)
  {
    assert [op][1..] == [];
    assert [op, op'][1..] == [op'] && [op'][1..] == [];
  }

  /** The first operation of a write that finds a live word: mark it, or erase when it is in the last slot. */
  function RoomOp(ws: Sector, flag: bv32): WordOp {
    var p := FirstUnmarked(ws, flag);
    if p == SLOTS - 1 then Wipe else Put(p, ToBytes(flag))
  }

  lemma WriteOpsForm(ws: Sector, flag: bv32, v: Option<bv32>, dat: bv32)
    requires Holds(ws, flag, v)
    ensures var last := Put(NextSlot(ws, flag, v), ToBytes(dat));
            WriteOps(ws, flag, dat) == if v.None? then [last] else [RoomOp(ws, flag), last]
  {
    LiveWord(ws, flag, v, FirstUnmarked(ws, flag));
  }

  lemma MakeRoom(ws: Sector, flag: bv32, v: Option<bv32>)
    requires Holds(ws, flag, v) && v.Some?
    ensures var ws' := ApplyWord(ws, RoomOp(ws, flag));
            Holds(ws', flag, None) && FirstUnmarked(ws', flag) == NextSlot(ws, flag, v)
  {
    var p := FirstUnmarked(ws, flag);
    if p == SLOTS - 1 {
      BlankShape(SLOTS, flag, 1);
    } else {
      PutMarker(ws, flag, 1, p, Live(v));
    }
    HoldsAt(ApplyWord(ws, RoomOp(ws, flag)), flag, None, NextSlot(ws, flag, v));
  }

  lemma Store(ws: Sector, flag: bv32, dat: bv32)
    requires Holds(ws, flag, None) && Admissible(flag, dat)
    ensures var p := FirstUnmarked(ws, flag);
            var ws' := ApplyWord(ws, Put(p, ToBytes(dat)));
            Holds(ws', flag, Some(dat)) && FirstUnmarked(ws', flag) == p
  {
    var p := FirstUnmarked(ws, flag);
    WordsOfOne(dat);
    PutLive(ws, flag, 1, p, ToBytes(dat));
    HoldsAt(ApplyWord(ws, Put(p, ToBytes(dat))), flag, Some(dat), p);
  }

  /** Each flash operation of a write, in order: what the sector holds once it is done, and where. */
  lemma WriteSteps(ws: Sector, flag: bv32, v: Option<bv32>, dat: bv32)
    requires Holds(ws, flag, v) && Admissible(flag, dat)
    ensures var ops := WriteOps(ws, flag, dat);
            && |ops| == (if v.None? then 1 else 2)
            && CountWipes(ops) == (if v.Some? && FirstUnmarked(ws, flag) == SLOTS - 1 then 1 else 0)
            && (v.Some? ==> Holds(ApplyWords(ws, ops[..1]), flag, None))
            && Holds(ApplyWords(ws, ops), flag, Some(dat))
            && FirstUnmarked(ApplyWords(ws, ops), flag) == NextSlot(ws, flag, v)
            && forall op <- ops :: op.Put? ==> op.slot < SLOTS
  {
    hide ApplyWord, ApplyWords, WriteOps, CountWipes;
    var ops := WriteOps(ws, flag, dat);
    WriteOpsForm(ws, flag, v, dat);
    CountWipesOfTwo(ops[0], ops[|ops| - 1]);
    ApplyOneWord(ws, ops[0]);
    if v.None? {
      Store(ws, flag, dat);
    } else {
      MakeRoom(ws, flag, v);
      Store(ApplyWord(ws, ops[0]), flag, dat);
      ApplyTwoWords(ws, ops[0], ops[1]);
      assert ops[..1] == [ops[0]];
    }
  }

  /** A read returns the variable and keeps it. It erases the sector exactly if there is no live word and more than 1000
      slots are used up. */
  lemma ReadStep(ws: Sector, flag: bv32, v: Option<bv32>)
    requires Holds(ws, flag, v)
    ensures ReadResult(ws, flag) == ValueOr(v, flag)
    ensures Holds(Exec(ws, flag, Read), flag, v)
    ensures ReadOps(ws, flag) == if v.None? && FirstUnmarked(ws, flag) > 1000 then [Wipe] else []
    ensures ReadOps(ws, flag) != [] ==> FirstUnmarked(Exec(ws, flag, Read), flag) == 0
  {
    LiveWord(ws, flag, v, FirstUnmarked(ws, flag));
    var ops := ReadOps(ws, flag);
    if ops != [] {
      ApplyOneWord(ws, Wipe);
      BlankShape(SLOTS, flag, 1);
      HoldsAt(Blank(SLOTS), flag, None, 0);
    }
  }

  lemma EventStep(ws: Sector, flag: bv32, v: Option<bv32>, e: Event)
    requires Holds(ws, flag, v) && (!e.Read? ==> Admissible(flag, e.dat))
    ensures Holds(Exec(ws, flag, e), flag, VarStep(v, e))
  {
    hide WriteOps, Holds, CountWipes;
    match e
    case Read => ReadStep(ws, flag, v);
    case Write(dat) => WriteSteps(ws, flag, v, dat);
    case CutWrite(dat, n) =>
      WriteSteps(ws, flag, v, dat);
      if n == 0 {
        assert WriteOps(ws, flag, dat)[..n] == [];
      }
  }

  /** Refinement: over any run of writes, reads and resets, the sector holds exactly the variable. */
  lemma {:induction false} RunRefinesVariable(ws: Sector, flag: bv32, v: Option<bv32>, es: seq<Event>)
    requires Holds(ws, flag, v) && AdmissibleRun(flag, es)
    ensures Holds(ExecAll(ws, flag, es), flag, VarRun(v, es))
    decreases |es|
  {
    if es != [] {
      EventStep(ws, flag, v, es[0]);
      RunRefinesVariable(Exec(ws, flag, es[0]), flag, VarStep(v, es[0]), es[1..]);
    }
  }

  lemma BlankHoldsNone(flag: bv32)
    requires flag != BLANK
    ensures Holds(Blank(SLOTS), flag, None) && FirstUnmarked(Blank(SLOTS), flag) == 0
  {
    BlankShape(SLOTS, flag, 1);
    HoldsAt(Blank(SLOTS), flag, None, 0);
  }

  /** From a blank sector, whatever happened before, a read returns what the variable holds; and the sector is
      never all markers, so no write is ever pushed past its end. */
  lemma ReadReturnsVariable(flag: bv32, es: seq<Event>)
    requires AdmissibleRun(flag, es)
    ensures var ws := ExecAll(Blank(SLOTS), flag, es);
            && ReadResult(ws, flag) == ValueOr(VarRun(None, es), flag)
            && FirstUnmarked(ws, flag) < SLOTS
            && forall dat, op | Admissible(flag, dat) && op in WriteOps(ws, flag, dat) :: op.Put? ==> op.slot < SLOTS
  {
    BlankHoldsNone(flag);
    RunRefinesVariable(Blank(SLOTS), flag, None, es);
    var ws := ExecAll(Blank(SLOTS), flag, es);
    ReadStep(ws, flag, VarRun(None, es));
    forall dat, op | Admissible(flag, dat) && op in WriteOps(ws, flag, dat)
      ensures op.Put? ==> op.slot < SLOTS
    {
      WriteSteps(ws, flag, VarRun(None, es), dat);
    }
  }

  /** Reset safety, one cut: afterwards a read returns the word before, the new word, or the marker. */
  lemma CutWriteIsSafe(flag: bv32, es: seq<Event>, dat: bv32, n: nat)
    requires AdmissibleRun(flag, es) && Admissible(flag, dat)
    ensures var ws := ExecAll(Blank(SLOTS), flag, es);
            ReadResult(Exec(ws, flag, CutWrite(dat, n)), flag) in {ReadResult(ws, flag), dat, flag}
  {
    BlankHoldsNone(flag);
    RunRefinesVariable(Blank(SLOTS), flag, None, es);
    var ws, v := ExecAll(Blank(SLOTS), flag, es), VarRun(None, es);
    EventStep(ws, flag, v, CutWrite(dat, n));
    ReadStep(ws, flag, v);
    ReadStep(Exec(ws, flag, CutWrite(dat, n)), flag, VarStep(v, CutWrite(dat, n)));
  }

  /** Reset safety, whole runs: once a write has completed, no earlier word ever comes back, however many
      later writes are cut. */
  lemma NoOlderWordReturns(flag: bv32, es: seq<Event>, dat: bv32, es': seq<Event>)
    requires AdmissibleRun(flag, es + [Write(dat)] + es')
    ensures var r := ReadResult(ExecAll(Blank(SLOTS), flag, es + [Write(dat)] + es'), flag);
            r == flag || r == dat || exists e <- es' :: !e.Read? && e.dat == r
  {
    var run := es + [Write(dat)] + es';
    ReadReturnsVariable(flag, run);
    VarRunConcat(None, es + [Write(dat)], es');
    VarRunConcat(None, es, [Write(dat)]);
    assert [Write(dat)][1..] == [];
    VarRunComesFrom(Some(dat), es');
  }

  lemma {:induction false} VarRunConcat(v: Option<bv32>, es: seq<Event>, es': seq<Event>)
    ensures VarRun(v, es + es') == VarRun(VarRun(v, es), es')
    decreases |es|
  {
    if es == [] {
      assert es + es' == es';
    } else {
      assert (es + es')[1..] == es[1..] + es';
      VarRunConcat(VarStep(v, es[0]), es[1..], es');
    }
  }

  lemma {:induction false} VarRunComesFrom(v: Option<bv32>, es: seq<Event>)
    ensures var v' := VarRun(v, es);
            v' == None || v' == v || exists e <- es :: !e.Read? && v' == Some(e.dat)
    decreases |es|
  {
    if es != [] {
      VarRunComesFrom(VarStep(v, es[0]), es[1..]);
      assert forall e <- es[1..] :: e in es;
    }
  }

  // ----- wear -----

  /** Without resets every write moves one slot on, wrapping round through an erase: counting slots passed
      from the start p, erases * 1024 + current slot = p + number of writes. */
  lemma {:induction false} WearFrom(ws: Sector, flag: bv32, v: Option<bv32>, es: seq<Event>, p: int)
    requires Holds(ws, flag, v) && AdmissibleRun(flag, es) && forall e <- es :: !e.CutWrite?
    requires if v.None? then FirstUnmarked(ws, flag) == 0 && p == -1 else p == FirstUnmarked(ws, flag)
    ensures v.Some? || Written(es) != [] ==>
      Wear(ws, flag, es) * SLOTS + FirstUnmarked(ExecAll(ws, flag, es), flag) == p + |Written(es)|
    decreases |es|
  {
    if es != [] {
      hide WriteOps, ReadOps, Holds, CountWipes, Exec, EventOps, FirstUnmarked, Admissible;
      var ws' := Exec(ws, flag, es[0]);
      WearStep(ws, flag, v, es[0], p);
      WearFrom(ws', flag, VarStep(v, es[0]), es[1..], if es[0].Write? then FirstUnmarked(ws', flag) else p);
    }
  }

  lemma {:induction false} VarRunEndsInLast(v: Option<bv32>, es: seq<Event>)
    requires forall e <- es :: !e.CutWrite?
    ensures VarRun(v, es) == if Written(es) == [] then v else Some(Written(es)[|Written(es)| - 1])
    decreases |es|
  {
    if es != [] {
      VarRunEndsInLast(VarStep(v, es[0]), es[1..]);
    }
  }

  lemma WearStep(ws: Sector, flag: bv32, v: Option<bv32>, e: Event, p: int)
    requires Holds(ws, flag, v) && !e.CutWrite? && (e.Write? ==> Admissible(flag, e.dat))
    requires if v.None? then FirstUnmarked(ws, flag) == 0 && p == -1 else p == FirstUnmarked(ws, flag)
    ensures Holds(Exec(ws, flag, e), flag, VarStep(v, e))
    ensures e.Write? ==> CountWipes(EventOps(ws, flag, e)) * SLOTS + FirstUnmarked(Exec(ws, flag, e), flag) == p + 1
    ensures e.Read? ==> CountWipes(EventOps(ws, flag, e)) == 0 && Exec(ws, flag, e) == ws
  {
    EventStep(ws, flag, v, e);
    if e.Write? {
      WriteSteps(ws, flag, v, e.dat);
    } else {
      ReadStep(ws, flag, v);
    }
  }

  /** Exact wear: from a blank sector, n >= 1 writes (and any reads) without resets erase it exactly (n - 1) / 1024
      times and leave the last word, live, in slot (n - 1) mod 1024. */
  lemma ExactWear(flag: bv32, es: seq<Event>)
    requires AdmissibleRun(flag, es) && (forall e <- es :: !e.CutWrite?) && Written(es) != []
    ensures var n := |Written(es)|;
            var ws := ExecAll(Blank(SLOTS), flag, es);
            && Wear(Blank(SLOTS), flag, es) == (n - 1) / SLOTS
            && FirstUnmarked(ws, flag) == (n - 1) % SLOTS
            && ws[(n - 1) % SLOTS] == Written(es)[n - 1]
            && ReadResult(ws, flag) == Written(es)[n - 1]
  {
    BlankHoldsNone(flag);
    WearFrom(Blank(SLOTS), flag, None, es, -1);
    VarRunEndsInLast(None, es);
    RunRefinesVariable(Blank(SLOTS), flag, None, es);
    var ws := ExecAll(Blank(SLOTS), flag, es);
    LiveWord(ws, flag, VarRun(None, es), FirstUnmarked(ws, flag));
    ReadStep(ws, flag, VarRun(None, es));
  }

  // ----- the clean-up erase of a read -----

  /** When a read erases: after n >= 1 writes and one more that was cut between its two operations, exactly if the last
      word was in one of the slots 1000 to 1022.  (From slot 1023 the cut write has erased already.) */
  lemma ReaderErasesExactly(flag: bv32, es: seq<Event>, dat: bv32)
    requires AdmissibleRun(flag, es) && (forall e <- es :: !e.CutWrite?) && Written(es) != [] && Admissible(flag, dat)
    ensures var ws := Exec(ExecAll(Blank(SLOTS), flag, es), flag, CutWrite(dat, 1));
            ReadOps(ws, flag) == if 1000 <= (|Written(es)| - 1) % SLOTS <= 1022 then [Wipe] else []
  {
    hide WriteOps, ReadOps, Holds, FirstUnmarked, Admissible;
    BlankHoldsNone(flag);
    ExactWear(flag, es);
    VarRunEndsInLast(None, es);
    RunRefinesVariable(Blank(SLOTS), flag, None, es);
    CutAfterMark(ExecAll(Blank(SLOTS), flag, es), flag, VarRun(None, es), dat);
  }

  lemma CutAfterMark(ws: Sector, flag: bv32, v: Option<bv32>, dat: bv32)
    requires Holds(ws, flag, v) && v.Some? && Admissible(flag, dat)
    ensures var p := FirstUnmarked(ws, flag);
            ReadOps(Exec(ws, flag, CutWrite(dat, 1)), flag) == if 1000 <= p <= 1022 then [Wipe] else []
  {
    hide ApplyWord, WriteOps, ReadOps, Holds, FirstUnmarked;
    WriteOpsForm(ws, flag, v, dat);
    assert WriteOps(ws, flag, dat)[..1] == [RoomOp(ws, flag)];
    ApplyOneWord(ws, RoomOp(ws, flag));
    MakeRoom(ws, flag, v);
    BeforeEnd(ws, flag, v);
    ReadStep(ApplyWord(ws, RoomOp(ws, flag)), flag, None);
  }

  lemma BeforeEnd(ws: Sector, flag: bv32, v: Option<bv32>)
    requires Holds(ws, flag, v)
    ensures FirstUnmarked(ws, flag) < SLOTS
  {
  }

  /** What no run reaches: on a sector of 1024 markers a write goes to the first word behind the sector, and a read
      returns the marker and erases. */
  lemma FullOfMarkers(ws: Sector, flag: bv32, dat: bv32)
    requires flag != BLANK && forall j | 0 <= j < SLOTS :: ws[j] == flag
    ensures WriteOps(ws, flag, dat) == [Put(1024, ToBytes(dat))]
    ensures ReadResult(ws, flag) == flag && ReadOps(ws, flag) == [Wipe]
  {
    ScanPastMarkers(ws, flag, 0);
  }

  // ----- why the words must be admissible -----

  /** A sector whose live word, in slot p, is any word but the marker. */
  ghost predicate LiveAt(ws: Sector, flag: bv32, p: nat) {
    && flag != BLANK && p < SLOTS && Markers(ws, flag, 0, p, 1)
    && ws[p] != BLANK && ws[p] != flag
    && forall j | p < j < SLOTS :: ws[j] == BLANK
  }

  /** What programming the marker over a word leaves. */
  function Marked(flag: bv32, w: bv32): bv32 {
    w & flag
  }

  /** When a word can be replaced: it is in the last slot, which is erased and not marked; or the marker fits into
      it; or, by coincidence, what the marker leaves of it is the new word.  Else the read finds the mangled old
      word first. */
  lemma ReplaceableExactly(ws: Sector, flag: bv32, p: nat, w: bv32)
    requires LiveAt(ws, flag, p) && w != BLANK && w != flag
    ensures ReadResult(Exec(ws, flag, Write(w)), flag) == w
            <==> p == SLOTS - 1 || Marked(flag, ws[p]) == flag || Marked(flag, ws[p]) == w
  {
    hide ToBytes, Exec, FirstUnmarked, Marked;
    FoundAt(ws, flag, p);
    if p == SLOTS - 1 {
      WriteAfterErase(ws, flag, w);
      FoundAt(Exec(ws, flag, Write(w)), flag, 0);
    } else {
      WriteAfterMark(ws, flag, p, w);
      MarkedIsNotBlank(flag, ws[p]);
      ReadAfterMark(ws, Exec(ws, flag, Write(w)), flag, p, Marked(flag, ws[p]), w);
    }
  }

  /** x was left in the slot before w. */
  lemma ReadAfterMark(ws: Sector, ws': Sector, flag: bv32, p: nat, x: bv32, w: bv32)
    requires LiveAt(ws, flag, p) && p < SLOTS - 1 && w != BLANK && w != flag && x != BLANK
    requires ws' == ws[p := x][p + 1 := w]
    ensures ReadResult(ws', flag) == if x == flag then w else x
  {
    hide FirstUnmarked;
    MarkersKept(ws, ws', flag, 0, p, 1);
    if x == flag {
      MarkersExtend(ws', flag, 0, p, 1);
      FoundAt(ws', flag, p + 1);
    } else {
      FoundAt(ws', flag, p);
    }
  }

  lemma FoundAt(ws: Sector, flag: bv32, p: nat)
    requires flag != BLANK && p < SLOTS && Markers(ws, flag, 0, p, 1) && ws[p] != flag
    ensures FirstUnmarked(ws, flag) == p
  {
    ScanFinds(ws, flag, 0, p, 1, SLOTS);
  }

  lemma WriteAfterErase(ws: Sector, flag: bv32, w: bv32)
    requires FirstUnmarked(ws, flag) == SLOTS - 1 && ws[SLOTS - 1] != BLANK
    ensures Exec(ws, flag, Write(w))[0] == w
  {
    hide ToBytes, FirstUnmarked, ApplyWord;
    var put := Put(0, ToBytes(w));
    ApplyTwoWords(ws, Wipe, put);
    WipeBlanks(ws);
    PutOneWord(Blank(SLOTS), 0, w);
    AndBlank(w);
  }

  lemma WriteAfterMark(ws: Sector, flag: bv32, p: nat, w: bv32)
    requires p < SLOTS - 1 && FirstUnmarked(ws, flag) == p && ws[p] != BLANK && ws[p + 1] == BLANK
    ensures Exec(ws, flag, Write(w)) == ws[p := Marked(flag, ws[p])][p + 1 := w]
  {
    hide ToBytes, FirstUnmarked, ApplyWord;
    var mark, put := Put(p, ToBytes(flag)), Put(p + 1, ToBytes(w));
    ApplyTwoWords(ws, mark, put);
    PutOneWord(ws, p, flag);
    PutOneWord(ws[p := Marked(flag, ws[p])], p + 1, w);
    AndBlank(w);
  }

  lemma MarkedIsNotBlank(flag: bv32, w: bv32)
    requires flag != BLANK
    ensures Marked(flag, w) != BLANK
  {
  }

  /** From a blank sector: w0, and then w over it. */
  lemma ReplaceableFromBlank(flag: bv32, w0: bv32, w: bv32)
    requires flag != BLANK && w0 != BLANK && w0 != flag && w != BLANK && w != flag
    ensures ReadResult(Exec(Exec(Blank(SLOTS), flag, Write(w0)), flag, Write(w)), flag) == w
            <==> Marked(flag, w0) == flag || Marked(flag, w0) == w
  {
    hide *;
    FirstWriteLives(flag, w0);
    ReplaceableFirst(Exec(Blank(SLOTS), flag, Write(w0)), flag, w0, w);
  }

  lemma ReplaceableFirst(ws: Sector, flag: bv32, w0: bv32, w: bv32)
    requires LiveAt(ws, flag, 0) && ws[0] == w0 && w != BLANK && w != flag
    ensures ReadResult(Exec(ws, flag, Write(w)), flag) == w <==> Marked(flag, w0) == flag || Marked(flag, w0) == w
  {
    hide Exec, ReadResult, LiveAt, Marked;
    ReplaceableExactly(ws, flag, 0, w);
  }

  lemma FirstWriteLives(flag: bv32, w: bv32)
    requires flag != BLANK && w != BLANK && w != flag
    ensures var ws := Exec(Blank(SLOTS), flag, Write(w)); LiveAt(ws, flag, 0) && ws[0] == w
  {
    hide Exec;
    FirstWrite(flag, w);
  }

  lemma FirstWrite(flag: bv32, w: bv32)
    requires flag != BLANK && w != BLANK && w != flag
    ensures Exec(Blank(SLOTS), flag, Write(w)) == Blank(SLOTS)[0 := w]
  {
    hide ToBytes, ApplyWord;
    BlankHoldsNone(flag);
    ApplyOneWord(Blank(SLOTS), Put(0, ToBytes(w)));
    PutOneWord(Blank(SLOTS), 0, w);
    assert Blank(SLOTS)[0] == BLANK;
    AndBlank(w);
  }
}

/** The write-limited cell of flash_subregion_write_val and flash_subregion_read_val: `num` slots, never erased.

    As with the value cell, a run may mix attempts to write, reads and resets. */
module LimitedCell {
  import opened Bytes
  import opened Cells

  /** The return code of a write and its flash operations; the region is the |ws| = num words. */
  function Attempt(ws: seq<bv32>, flag: bv32, dat: bv32): (bv32, seq<WordOp>) {
    var num := |ws|;
    var i := Scan(ws, flag, 0, 1, num);
    if i < num && ws[i] != BLANK then
      if i >= num - 1 then (flag, [])
      else (1, [Put(i, ToBytes(flag)), Put(i + 1, ToBytes(dat))])
    else (1, [Put(i, ToBytes(dat))])
  }

  function ReadResult(ws: seq<bv32>, flag: bv32): bv32 {
    var i := Scan(ws, flag, 0, 1, |ws|);
    if i < |ws| && ws[i] != BLANK then ws[i] else flag
  }

  type Event = Cells.Event<bv32>

  function EventOps(ws: seq<bv32>, flag: bv32, e: Event): seq<WordOp> {
    match e
    case Write(dat) => Attempt(ws, flag, dat).1
    case CutWrite(dat, n) => Cut(Attempt(ws, flag, dat).1, n)
    case Read => []
  }

  function Exec(ws: seq<bv32>, flag: bv32, e: Event): (ws': seq<bv32>)
    ensures |ws'| == |ws|
  {
    ApplyWords(ws, EventOps(ws, flag, e))
  }

  function ExecAll(ws: seq<bv32>, flag: bv32, es: seq<Event>): (ws': seq<bv32>)
    ensures |ws'| == |ws|
    decreases |es|
  {
    if es == [] then ws else ExecAll(Exec(ws, flag, es[0]), flag, es[1..])
  }

  /** Words that reached the flash over a run: those of accepted writes, and of writes cut only afterwards. */
  function StoredCount(ws: seq<bv32>, flag: bv32, es: seq<Event>): nat
    decreases |es|
  {
    if es == [] then 0 else
      (if StoresWord(ws, flag, es[0]) then 1 else 0) + StoredCount(Exec(ws, flag, es[0]), flag, es[1..])
  }

  predicate StoresWord(ws: seq<bv32>, flag: bv32, e: Event) {
    !e.Read? && var ops := Attempt(ws, flag, e.dat).1; ops != [] && EventOps(ws, flag, e) == ops
  }

  ghost predicate AdmissibleRun(flag: bv32, es: seq<Event>) {
    flag != BLANK && forall e <- es :: !e.Read? ==> Admissible(flag, e.dat)
  }

  // ----- the variable a run must look like -----

  /** The slot in use, and the word in it, if any. */
  datatype State = State(slot: nat, live: Option<bv32>) {
    predicate Full(num: nat) {
      live.Some? && slot + 1 == num
    }

    /** How many words have been stored. */
    function Count(): nat {
      slot + if live.Some? then 1 else 0
    }

    /** Each stored word takes the next slot. */
    function Stored(dat: bv32): State {
      State(Count(), Some(dat))
    }

    function Next(num: nat, e: Event): State {
      match e
      case Write(dat) => if Full(num) then this else Stored(dat)
      case CutWrite(dat, n) =>
        if n == 0 || Full(num) then this
        else if live.Some? && n == 1 then State(Count(), None)
        else Stored(dat)
      case Read => this
    }
  }

  function RunState(s: State, num: nat, es: seq<Event>): State
    decreases |es|
  {
    if es == [] then s else RunState(s.Next(num, es[0]), num, es[1..])
  }

  ghost predicate Holds(ws: seq<bv32>, flag: bv32, s: State) {
    s.slot < |ws| && Shape(ws, flag, 1, s.slot, Live(s.live))
  }

  lemma ScanAt(ws: seq<bv32>, flag: bv32, s: State)
    requires Holds(ws, flag, s)
    ensures Scan(ws, flag, 0, 1, |ws|) == s.slot && ws[s.slot] == ValueOr(s.live, BLANK)
    ensures s.live.Some? ==> ws[s.slot] != BLANK
  {
    if s.live.Some? {
      assert ws[s.slot..s.slot + 1][0] == s.live.value;
    }
    ScanFinds(ws, flag, 0, s.slot, 1, |ws|);
  }

  lemma AttemptForm(ws: seq<bv32>, flag: bv32, s: State, dat: bv32)
    requires Holds(ws, flag, s)
    ensures Attempt(ws, flag, dat) ==
            if s.Full(|ws|) then (flag, [])
            else if s.live.Some? then (1, [Put(s.slot, ToBytes(flag)), Put(s.slot + 1, ToBytes(dat))])
            else (1, [Put(s.slot, ToBytes(dat))])
  {
    hide Scan, ToBytes;
    ScanAt(ws, flag, s);
  }

  /** The two operations of a write. */
  lemma Marks(ws: seq<bv32>, flag: bv32, s: State)
    requires Holds(ws, flag, s) && s.live.Some? && !s.Full(|ws|)
    ensures Holds(ApplyWord(ws, Put(s.slot, ToBytes(flag))), flag, State(s.slot + 1, None))
  {
    PutMarker(ws, flag, 1, s.slot, Live(s.live));
  }

  lemma Stores(ws: seq<bv32>, flag: bv32, s: State, dat: bv32)
    requires Holds(ws, flag, s) && s.live.None? && Admissible(flag, dat)
    ensures Holds(ApplyWord(ws, Put(s.slot, ToBytes(dat))), flag, State(s.slot, Some(dat)))
  {
    WordsOfOne(dat);
    PutLive(ws, flag, 1, s.slot, ToBytes(dat));
  }

  /** One event: what the region holds afterwards, whether a word was stored, and that no operation leaves it. */
  lemma EventStep(ws: seq<bv32>, flag: bv32, s: State, e: Event)
    requires Holds(ws, flag, s) && (!e.Read? ==> Admissible(flag, e.dat))
    ensures Holds(Exec(ws, flag, e), flag, s.Next(|ws|, e))
    ensures s.Next(|ws|, e).Count() == s.Count() + if StoresWord(ws, flag, e) then 1 else 0
    ensures forall op <- EventOps(ws, flag, e) :: op.Put? && op.slot < |ws| && |op.data| == 4
  {
    NothingApplied(ws);
    if !e.Read? {
      hide ApplyWord, ApplyWords, Attempt, Holds, ToBytes, State.Full;
      WriteOpsStep(ws, flag, s, e.dat);
      var ops := Attempt(ws, flag, e.dat).1;
      assert ops[..0] == [] && (|ops| == 2 ==> ops[..1] == [ops[0]]);
    }
  }

  /** The operations of one attempt, in order. */
  lemma WriteOpsStep(ws: seq<bv32>, flag: bv32, s: State, dat: bv32)
    requires Holds(ws, flag, s) && Admissible(flag, dat)
    ensures var ops := Attempt(ws, flag, dat).1;
            && |ops| == (if s.Full(|ws|) then 0 else if s.live.Some? then 2 else 1)
            && (forall op <- ops :: op.Put? && op.slot < |ws| && |op.data| == 4)
            && (|ops| == 2 ==> Holds(ApplyWords(ws, [ops[0]]), flag, State(s.Count(), None)))
            && (ops != [] ==> Holds(ApplyWords(ws, ops), flag, s.Stored(dat)))
  {
    hide ApplyWord, ApplyWords, Attempt, Holds, ToBytes;
    HoldsInside(ws, flag, s);
    AttemptForm(ws, flag, s, dat);
    var ops := Attempt(ws, flag, dat).1;
    if !s.Full(|ws|) {
      ApplyOneWord(ws, ops[0]);
      if s.live.Some? {
        Marks(ws, flag, s);
        Stores(ApplyWord(ws, ops[0]), flag, State(s.slot + 1, None), dat);
        ApplyTwoWords(ws, ops[0], ops[1]);
      } else {
        Stores(ws, flag, s, dat);
      }
    }
  }

  lemma HoldsInside(ws: seq<bv32>, flag: bv32, s: State)
    requires Holds(ws, flag, s)
    ensures s.slot < |ws|
  {
  }

  lemma NothingApplied(ws: seq<bv32>)
    ensures ApplyWords(ws, []) == ws
  {
  }

  /** Refinement: over any run of attempts, reads and resets the region holds exactly the state, and the slots used
      are the words stored. */
  lemma {:induction false} RunRefines(ws: seq<bv32>, flag: bv32, s: State, es: seq<Event>)
    requires Holds(ws, flag, s) && AdmissibleRun(flag, es)
    ensures Holds(ExecAll(ws, flag, es), flag, RunState(s, |ws|, es))
    ensures RunState(s, |ws|, es).Count() == s.Count() + StoredCount(ws, flag, es)
    decreases |es|
  {
    if es != [] {
      hide Holds, Exec, StoresWord, State.Next, State.Count, Admissible;
      EventStep(ws, flag, s, es[0]);
      RunRefines(Exec(ws, flag, es[0]), flag, s.Next(|ws|, es[0]), es[1..]);
    }
  }

  lemma BlankHolds(num: nat, flag: bv32)
    requires num > 0 && flag != BLANK
    ensures Holds(Blank(num), flag, State(0, None))
  {
    BlankShape(num, flag, 1);
  }

  /** Resets included, a blank region takes exactly `num` words: a write is accepted while fewer have been stored and
      refused, changing nothing, from then on.  A read returns the word in use.  The return code tells the two outcomes
      apart because the marker is not 1. */
  lemma AcceptsExactlyNum(num: nat, flag: bv32, es: seq<Event>, dat: bv32)
    requires num > 0 && flag != 1 && AdmissibleRun(flag, es)
    ensures var ws := ExecAll(Blank(num), flag, es);
            var (r, ops) := Attempt(ws, flag, dat);
            && StoredCount(Blank(num), flag, es) <= num
            && (r == 1 <==> StoredCount(Blank(num), flag, es) < num)
            && (r != 1 ==> r == flag && ops == [])
            && ReadResult(ws, flag) == ValueOr(RunState(State(0, None), num, es).live, flag)
  {
    BlankHolds(num, flag);
    RunRefines(Blank(num), flag, State(0, None), es);
    var ws, s := ExecAll(Blank(num), flag, es), RunState(State(0, None), num, es);
    AttemptForm(ws, flag, s, dat);
    ScanAt(ws, flag, s);
  }

  /** What no run reaches: where every slot is used up, as it is if num = 0, a write is accepted and goes to the word
      behind the region. */
  lemma FullOfMarkers(ws: seq<bv32>, flag: bv32, dat: bv32)
    requires flag != BLANK && forall j | 0 <= j < |ws| :: ws[j] == flag
    ensures Attempt(ws, flag, dat) == (1, [Put(|ws|, ToBytes(dat))])
    ensures ReadResult(ws, flag) == flag
  {
    ScanPastMarkers(ws, flag, 0);
  }

  /** Without resets: of n writes the first num are stored, and a read returns the last of those. */
  lemma LastAcceptedIsRead(num: nat, flag: bv32, es: seq<Event>)
    requires num > 0 && AdmissibleRun(flag, es) && forall e <- es :: !e.CutWrite?
    ensures var n := |Written(es)|;
            var k := if n < num then n else num;
            && StoredCount(Blank(num), flag, es) == k
            && ReadResult(ExecAll(Blank(num), flag, es), flag) == if k == 0 then flag else Written(es)[k - 1]
  {
    BlankHolds(num, flag);
    RunRefines(Blank(num), flag, State(0, None), es);
    StateAfterWrites(State(0, None), num, es);
    ScanAt(ExecAll(Blank(num), flag, es), flag, RunState(State(0, None), num, es));
  }

  lemma {:induction false} StateAfterWrites(s: State, num: nat, es: seq<Event>)
    requires s.Count() <= num && (s.live.Some? || s.slot == 0) && num > 0 && forall e <- es :: !e.CutWrite?
    ensures var t, n := RunState(s, num, es), |Written(es)|;
            && t.Count() == (if s.Count() + n < num then s.Count() + n else num)
            && (t.live.Some? || t == s)
            && t.live == (if t.Count() == s.Count() then s.live else Some(Written(es)[t.Count() - s.Count() - 1]))
    decreases |es|
  {
    if es != [] {
      hide State.Next, State.Count, Written;
      WrittenRest(es);
      WriteTakesSlot(s, num, es[0]);
      StateAfterWrites(s.Next(num, es[0]), num, es[1..]);
    }
  }

  lemma WrittenRest(es: seq<Event>)
    requires es != []
    ensures Written(es) == (if es[0].Write? then [es[0].dat] else []) + Written(es[1..])
  {
  }

  lemma WriteTakesSlot(s: State, num: nat, e: Event)
    requires s.Count() <= num && (s.live.Some? || s.slot == 0) && num > 0 && !e.CutWrite?
    ensures var t := s.Next(num, e);
            if e.Write? && s.Count() < num then t.Count() == s.Count() + 1 && t.live == Some(e.dat) else t == s
  {
  }

  /** Once a write has been accepted no earlier word ever comes back, however many later ones are cut: a read returns
      that word, or one written later, or the marker. */
  lemma NoOlderWordReturns(num: nat, flag: bv32, es: seq<Event>, dat: bv32, es': seq<Event>)
    requires num > 0 && flag != 1 && AdmissibleRun(flag, es + [Write(dat)] + es')
    requires Attempt(ExecAll(Blank(num), flag, es), flag, dat).0 == 1
    ensures var r := ReadResult(ExecAll(Blank(num), flag, es + [Write(dat)] + es'), flag);
            r == flag || r == dat || exists e <- es' :: !e.Read? && e.dat == r
  {
    hide ExecAll, Attempt, ReadResult, Holds, Admissible;
    var s0, run := State(0, None), es + [Write(dat)] + es';
    assert AdmissibleRun(flag, es) by {
      assert forall e <- es :: e in run;
    }
    BlankHolds(num, flag);
    RunRefines(Blank(num), flag, s0, es);
    AttemptForm(ExecAll(Blank(num), flag, es), flag, RunState(s0, num, es), dat);
    AcceptsExactlyNum(num, flag, run, dat);
    RunStateConcat(s0, num, es + [Write(dat)], es');
    RunStateConcat(s0, num, es, [Write(dat)]);
    assert [Write(dat)][1..] == [];
    LiveComesFrom(RunState(s0, num, es).Next(num, Write(dat)), num, es');
  }

  lemma {:induction false} RunStateConcat(s: State, num: nat, es: seq<Event>, es': seq<Event>)
    ensures RunState(s, num, es + es') == RunState(RunState(s, num, es), num, es')
    decreases |es|
  {
    if es == [] {
      assert es + es' == es';
    } else {
      assert (es + es')[1..] == es[1..] + es';
      RunStateConcat(s.Next(num, es[0]), num, es[1..], es');
    }
  }

  lemma {:induction false} LiveComesFrom(s: State, num: nat, es: seq<Event>)
    ensures var t := RunState(s, num, es);
            t.live == None || t.live == s.live || exists e <- es :: !e.Read? && t.live == Some(e.dat)
    decreases |es|
  {
    if es != [] {
      LiveComesFrom(s.Next(num, es[0]), num, es[1..]);
      assert forall e <- es[1..] :: e in es;
      assert es[0] in es;
    }
  }
}

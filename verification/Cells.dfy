/** Append-only cells on a region of 32-bit flash words, before any particular cell protocol.

    A cell is a row of slots, `stride` words apart: first used-up slots, whose first word has been overwritten
    with the marker, then at most one live record, then blank words. */
module Cells {
  import opened Bytes

  const BLANK: bv32 := 0xFFFF_FFFF

  /** Words of a 4 KB sector. */
  const SLOTS: nat := 1024

  type Sector = ws: seq<bv32> | |ws| == SLOTS witness seq(SLOTS, _ => BLANK)

  datatype Option<T> = None | Some(value: T)

  /** One flash operation, at word granularity: program `data` from word `slot` on, or erase the region. */
  datatype WordOp = Put(slot: nat, data: seq<bv8>) | Wipe

  // ----- what can happen to a cell -----

  /** A call that completes, or a write cut by a reset after its first n flash operations. */
  datatype Event<T> = Write(dat: T) | CutWrite(dat: T, n: nat) | Read

  function Cut(ops: seq<WordOp>, n: nat): seq<WordOp> {
    if n < |ops| then ops[..n] else ops
  }

  /** What the completed writes of a run wrote. */
  function Written<T>(es: seq<Event<T>>): seq<T>
    decreases |es|
  {
    if es == [] then [] else (if es[0].Write? then [es[0].dat] else []) + Written(es[1..])
  }

  function ValueOr(v: Option<bv32>, flag: bv32): bv32 {
    match v case None => flag case Some(w) => w
  }

  function Live(v: Option<bv32>): seq<bv32> {
    match v case None => [] case Some(w) => [w]
  }

  // ----- words -----

  function WordsOf(data: seq<bv8>): (ws: seq<bv32>)
    ensures |ws| == |data| / 4
  {
    seq(|data| / 4, i requires 0 <= i < |data| / 4 => ToWord(data[4 * i..4 * i + 4]))
  }

  function Blank(n: nat): (ws: seq<bv32>)
    ensures |ws| == n
  {
    seq(n, _ => BLANK)
  }

  /** Programming words from `slot` on; what would lie past the region is not part of it. */
  function AndWords(ws: seq<bv32>, slot: nat, d: seq<bv32>): (ws': seq<bv32>)
    ensures |ws'| == |ws|
  {
    seq(|ws|, i requires 0 <= i < |ws| => if slot <= i < slot + |d| then ws[i] & d[i - slot] else ws[i])
  }

  lemma AndWordsSplit(ws: seq<bv32>, slot: nat, a: seq<bv32>, b: seq<bv32>)
    ensures AndWords(AndWords(ws, slot, a), slot + |a|, b) == AndWords(ws, slot, a + b)
  {
  }

  function ApplyWord(ws: seq<bv32>, op: WordOp): (ws': seq<bv32>)
    ensures |ws'| == |ws|
  {
    match op
    case Wipe => Blank(|ws|)
    case Put(slot, data) => AndWords(ws, slot, WordsOf(data))
  }

  function ApplyWords(ws: seq<bv32>, ops: seq<WordOp>): (ws': seq<bv32>)
    ensures |ws'| == |ws|
    decreases |ops|
  {
    if ops == [] then ws else ApplyWords(ApplyWord(ws, ops[0]), ops[1..])
  }

  lemma ApplyOneWord(ws: seq<bv32>, op: WordOp)
    ensures ApplyWords(ws, [op]) == ApplyWord(ws, op)
  {
    assert [op][1..] == [];
  }

  lemma ApplyTwoWords(ws: seq<bv32>, op: WordOp, op': WordOp)
    ensures ApplyWords(ws, [op, op']) == ApplyWord(ApplyWord(ws, op), op')
  {
    assert [op, op'][1..] == [op'];
    ApplyOneWord(ApplyWord(ws, op), op');
  }

  lemma WipeBlanks(ws: seq<bv32>)
    ensures ApplyWord(ws, Wipe) == Blank(|ws|)
  {
  }

  lemma WordsOfOne(w: bv32)
    ensures WordsOf(ToBytes(w)) == [w]
  {
    assert ToBytes(w)[0..4] == ToBytes(w);
    WordRoundTrip(w);
  }

  /** The words of a record determine its bytes. */
  lemma WordsNameBytes(a: seq<bv8>, b: seq<bv8>)
    requires |a| == |b| && |a| % 4 == 0 && WordsOf(a) == WordsOf(b)
    ensures a == b
  {
    hide ToWord, ToBytes;
    forall i | 0 <= i < |a| ensures a[i] == b[i] {
      var k := i / 4;
      assert WordsOf(a)[k] == WordsOf(b)[k];
      BytesRoundTrip(a[4 * k..4 * k + 4]);
      BytesRoundTrip(b[4 * k..4 * k + 4]);
      assert a[4 * k..4 * k + 4][i % 4] == a[i] && b[4 * k..4 * k + 4][i % 4] == b[i];
    }
  }

  lemma PutOneWord(ws: seq<bv32>, slot: nat, w: bv32)
    requires slot < |ws|
    ensures ApplyWord(ws, Put(slot, ToBytes(w))) == ws[slot := ws[slot] & w]
  {
    WordsOfOne(w);
  }

  lemma AndBlank(w: bv32)
    ensures BLANK & w == w
  {
  }

  // ----- the scan -----

  /** The first slot from i on, in steps of `stride`, that does not hold the marker; or the first at or past `limit`. */
  function Scan(ws: seq<bv32>, flag: bv32, i: nat, stride: nat, limit: nat): nat
    requires stride > 0 && limit <= |ws|
    decreases limit - i, ws
  {
    if i >= limit || ws[i] == BLANK || ws[i] != flag then i else Scan(ws, flag, i + stride, stride, limit)
  }

  /** Slots i, i + stride, .. before p all hold the marker, and p is one of these steps. */
  ghost predicate Markers(ws: seq<bv32>, flag: bv32, i: nat, p: nat, stride: nat)
    requires stride > 0
    decreases p - i, ws
  {
    i == p || (i < p && i < |ws| && ws[i] == flag && Markers(ws, flag, i + stride, p, stride))
  }

  /** The shape every protocol keeps: markers up to p, the live record (possibly empty) at p, blanks after it. */
  ghost predicate Shape(ws: seq<bv32>, flag: bv32, stride: nat, p: nat, live: seq<bv32>) {
    && stride > 0 && flag != BLANK
    && p + |live| <= |ws|
    && (live == [] || |live| == stride)
    && Markers(ws, flag, 0, p, stride)
    && ws[p..p + |live|] == live
    && (live != [] ==> Admissible(flag, live[0]))
    && forall j | p + |live| <= j < |ws| :: ws[j] == BLANK
  }

  /** A storable word: not blank, not the marker, and the marker can be programmed over it. */
  predicate Admissible(flag: bv32, w: bv32) {
    w != BLANK && w != flag && w & flag == flag
  }

  lemma {:induction false} ScanFinds(ws: seq<bv32>, flag: bv32, i: nat, p: nat, stride: nat, limit: nat)
    requires stride > 0 && limit <= |ws| && flag != BLANK
    requires Markers(ws, flag, i, p, stride)
    requires i <= p < limit + stride && (p < limit ==> ws[p] != flag)
    requires i < p ==> p - stride < limit
    ensures Scan(ws, flag, i, stride, limit) == p
    decreases p - i
  {
    if i < p {
      MarkersStep(ws, flag, i, p, stride);
      ScanFinds(ws, flag, i + stride, p, stride, limit);
    }
  }

  lemma {:induction false} ScanPastMarkers(ws: seq<bv32>, flag: bv32, i: nat)
    requires flag != BLANK && i <= |ws| && forall j | i <= j < |ws| :: ws[j] == flag
    ensures Scan(ws, flag, i, 1, |ws|) == |ws|
    decreases |ws| - i
  {
    if i < |ws| {
      ScanPastMarkers(ws, flag, i + 1);
    }
  }

  lemma ScanStep(ws: seq<bv32>, flag: bv32, i: nat, stride: nat, limit: nat)
    requires stride > 0 && i < limit <= |ws| && ws[i] != BLANK && ws[i] == flag
    ensures Scan(ws, flag, i, stride, limit) == Scan(ws, flag, i + stride, stride, limit)
  {
  }

  lemma MarkersStep(ws: seq<bv32>, flag: bv32, i: nat, p: nat, stride: nat)
    requires stride > 0 && i < p && Markers(ws, flag, i, p, stride)
    ensures i + stride <= p && Markers(ws, flag, i + stride, p, stride)
  {
  }

  /** Markers survive any change from p on. */
  lemma {:induction false} MarkersKept(ws: seq<bv32>, ws': seq<bv32>, flag: bv32, i: nat, p: nat, stride: nat)
    requires stride > 0 && |ws| == |ws'| && Markers(ws, flag, i, p, stride)
    requires forall j | 0 <= j < p && j < |ws| :: ws'[j] == ws[j]
    ensures Markers(ws', flag, i, p, stride)
    decreases p - i
  {
    if i < p {
      MarkersKept(ws, ws', flag, i + stride, p, stride);
    }
  }

  lemma {:induction false} MarkersExtend(ws: seq<bv32>, flag: bv32, i: nat, p: nat, stride: nat)
    requires stride > 0 && Markers(ws, flag, i, p, stride) && p < |ws| && ws[p] == flag
    ensures Markers(ws, flag, i, p + stride, stride)
    decreases p - i
  {
    if i < p {
      MarkersExtend(ws, flag, i + stride, p, stride);
    } else {
      assert Markers(ws, flag, i + stride, p + stride, stride);
    }
  }

  // ----- the three moves -----

  /** Programming a record into the blank part makes it live. */
  lemma PutLive(ws: seq<bv32>, flag: bv32, stride: nat, p: nat, data: seq<bv8>)
    requires Shape(ws, flag, stride, p, [])
    requires p + stride <= |ws| && |data| / 4 == stride && Admissible(flag, WordsOf(data)[0])
    ensures Shape(ApplyWord(ws, Put(p, data)), flag, stride, p, WordsOf(data))
  {
    PutOnBlank(ws, p, data);
    hide ApplyWord, WordsOf;
    MarkersKept(ws, ApplyWord(ws, Put(p, data)), flag, 0, p, stride);
  }

  lemma PutOnBlank(ws: seq<bv32>, p: nat, data: seq<bv8>)
    requires p + |data| / 4 <= |ws| && forall j | p <= j < |ws| :: ws[j] == BLANK
    ensures var ws', n := ApplyWord(ws, Put(p, data)), |data| / 4;
            && ws'[p..p + n] == WordsOf(data)
            && (forall j | 0 <= j < p :: ws'[j] == ws[j])
            && (forall j | p + n <= j < |ws| :: ws'[j] == BLANK)
  {
    hide WordsOf;
    var ws', n, d := ApplyWord(ws, Put(p, data)), |data| / 4, WordsOf(data);
    forall j | p <= j < p + n ensures ws'[j] == d[j - p] {
      AndBlank(d[j - p]);
    }
  }

  /** Programming the marker over the live record's first word uses its slot up. */
  lemma PutMarker(ws: seq<bv32>, flag: bv32, stride: nat, p: nat, live: seq<bv32>)
    requires Shape(ws, flag, stride, p, live) && live != []
    ensures Shape(ApplyWord(ws, Put(p, ToBytes(flag))), flag, stride, p + stride, [])
  {
    var ws' := ApplyWord(ws, Put(p, ToBytes(flag)));
    WordsOfOne(flag);
    assert ws[p] == live[0] by {
      assert ws[p..p + |live|][0] == ws[p];
    }
    MarkersKept(ws, ws', flag, 0, p, stride);
    MarkersExtend(ws', flag, 0, p, stride);
  }

  lemma BlankShape(n: nat, flag: bv32, stride: nat)
    requires stride > 0 && flag != BLANK
    ensures Shape(Blank(n), flag, stride, 0, [])
  {
  }
}

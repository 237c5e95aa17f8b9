/** Bytes and little-endian 32-bit words, as C reads them through an `unsigned char *`. */
module Bytes {

  /** The 4-bit value x.  A table keeps integer-to-bit-vector conversion out of every proof that sends an address. */
  function Nibble(x: nat): (b: bv8)
    requires x < 16
    ensures b as int == x && b < 16
  {
    match x
    case 0 => 0 case 1 => 1 case 2 => 2 case 3 => 3
    case 4 => 4 case 5 => 5 case 6 => 6 case 7 => 7
    case 8 => 8 case 9 => 9 case 10 => 10 case 11 => 11
    case 12 => 12 case 13 => 13 case 14 => 14 case _ => 15
  }

  lemma NibblesJoin(hi: bv8, lo: bv8)
    requires hi < 16 && lo < 16
    ensures ((hi << 4) | lo) as int == 16 * (hi as int) + lo as int
  {
  }

  /** The cast (unsigned char)x of a value that fits. */
  function ToByte(x: nat): (b: bv8)
    requires x < 256
    ensures b as int == x
  {
    NibblesJoin(Nibble(x / 16), Nibble(x % 16));
    (Nibble(x / 16) << 4) | Nibble(x % 16)
  }

  function ToBytes(w: bv32): (b: seq<bv8>)
    ensures |b| == 4
  {
    [(w & 0xFF) as bv8, ((w >> 8) & 0xFF) as bv8, ((w >> 16) & 0xFF) as bv8, ((w >> 24) & 0xFF) as bv8]
  }

  function ToWord(b: seq<bv8>): bv32
    requires |b| == 4
  {
    (b[0] as bv32) | ((b[1] as bv32) << 8) | ((b[2] as bv32) << 16) | ((b[3] as bv32) << 24)
  }

  /** The first byte is the lowest. */
  lemma LittleEndian(b: seq<bv8>)
    requires |b| == 4
    ensures ToWord(b) & 0xFF == b[0] as bv32 && (ToWord(b) >> 8) & 0xFF == b[1] as bv32
    ensures (ToWord(b) >> 16) & 0xFF == b[2] as bv32 && ToWord(b) >> 24 == b[3] as bv32
  {
  }

  lemma WordRoundTrip(w: bv32)
    ensures ToWord(ToBytes(w)) == w
  {
  }

  lemma BytesRoundTrip(b: seq<bv8>)
    requires |b| == 4
    ensures ToBytes(ToWord(b)) == b
  {
  }

  /** AND on words is AND on their bytes. */
  lemma AndIsBytewise(b: seq<bv8>, c: seq<bv8>, d: seq<bv8>)
    requires |b| == |c| == |d| == 4
    requires d[0] == b[0] & c[0] && d[1] == b[1] & c[1] && d[2] == b[2] & c[2] && d[3] == b[3] & c[3]
    ensures ToWord(d) == ToWord(b) & ToWord(c)
  {
  }

  lemma Mod16(x: nat)
    ensures x / 0x100 % 0x100 * 0x100 + x % 0x100 == x % 0x1_0000
  {
  }

  lemma Mod24(x: nat)
    ensures x / 0x1_0000 % 0x100 * 0x1_0000 + x / 0x100 % 0x100 * 0x100 + x % 0x100 == x % 0x100_0000
  {
    var y := x / 0x100;
    assert x % 0x100_0000 == y % 0x1_0000 * 0x100 + x % 0x100;
    assert y % 0x1_0000 == y / 0x100 % 0x100 * 0x100 + y % 0x100;
    assert y / 0x100 == x / 0x1_0000;
  }
}

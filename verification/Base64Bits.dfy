/**
 The shifts and masks of src/protocol/jwt.c on machine words, and the integers they stand
 for. Values start as bytes, so that every step is about eight bits or purely about bits.
 */
module Base64Bits {

  // ---------------------------------------------------------------- one byte

  /** Counting up from zero, which makes the casts plain. */
  function ToByte(i: int): (b: bv8)
    requires 0 <= i < 256
    ensures b as int == i
    decreases i
  {
    if i == 0 then 0
    else
      var b := ToByte(i - 1); Successor(b); b + 1
  }

  lemma Successor(b: bv8)
    ensures b as int < 255 ==> (b + 1) as int == b as int + 1
  {
    assert b as int < 255 ==> b < 255;
  }

  lemma ThereAndBack(b: bv8)
    ensures (b as int) as bv8 == b
  {
  }

  lemma ByteOfInt(i: int)
    requires 0 <= i < 256
    ensures (i as bv8) as int == i
  {
    ThereAndBack(ToByte(i));
  }

  lemma Widened(v: bv8)
    ensures (v as bv32) as int == v as int
  {
  }

  lemma Shifts(v: bv8)
    ensures (v >> 2) as int == v as int / 4
    ensures (v >> 4) as int == v as int / 16
    ensures (v >> 6) as int == v as int / 64
  {
  }

  lemma Mask3(v: bv8)
    ensures (v & 3) as int == v as int % 4
  {
  }

  lemma Mask15(v: bv8)
    ensures (v & 15) as int == v as int % 16
  {
  }

  lemma Mask63(v: bv8)
    ensures (v & 63) as int == v as int % 64
  {
  }

  lemma Halves(v: bv8)
    ensures v as int == (v >> 2) as int * 4 + (v & 3) as int
    ensures v as int == (v >> 4) as int * 16 + (v & 15) as int
    ensures v as int == (v >> 6) as int * 64 + (v & 63) as int
  {
    Shifts(v);
    Mask3(v);
    Mask15(v);
    Mask63(v);
  }

  // ---------------------------------------------------------------- the encoder

  /** The word b of the encoding loop. */
  function Packed(x: bv8, y: bv8, z: bv8): bv32 {
    (x as bv32 << 16) | (y as bv32 << 8) | (z as bv32)
  }

  /** Each masked part of the word is made of the bits of one or two bytes. */
  lemma PackedParts(x: bv8, y: bv8, z: bv8)
    ensures (Packed(x, y, z) >> 18) & 0x3f == (x >> 2) as bv32
    ensures (Packed(x, y, z) >> 12) & 0x3f == (((x & 3) << 4) | (y >> 4)) as bv32
    ensures (Packed(x, y, z) >> 6) & 0x3f == (((y & 15) << 2) | (z >> 6)) as bv32
    ensures Packed(x, y, z) & 0x3f == (z & 63) as bv32
  {
  }

  lemma JoinedAt4(x: bv8, y: bv8)
    ensures (((x & 3) << 4) | (y >> 4)) as int == x as int % 4 * 16 + y as int / 16
  {
    var v := ((x & 3) << 4) | (y >> 4);
    assert v >> 4 == x & 3 && v & 15 == y >> 4;
    Halves(v);
    Mask3(x);
    Shifts(y);
  }

  lemma JoinedAt2(y: bv8, z: bv8)
    ensures (((y & 15) << 2) | (z >> 6)) as int == y as int % 16 * 4 + z as int / 64
  {
    var v := ((y & 15) << 2) | (z >> 6);
    assert v >> 2 == y & 15 && v & 3 == z >> 6;
    Halves(v);
    Mask15(y);
    Shifts(z);
  }

  /** The four table indices of the encoding loop. */
  function Sextets(b: bv32): (int, int, int, int) {
    (((b >> 18) & 0x3f) as int, ((b >> 12) & 0x3f) as int, ((b >> 6) & 0x3f) as int, (b & 0x3f) as int)
  }

  lemma SextetsOf(x: bv8, y: bv8, z: bv8)
    ensures Sextets(Packed(x, y, z)) ==
              (x as int / 4, x as int % 4 * 16 + y as int / 16, y as int % 16 * 4 + z as int / 64, z as int % 64)
  {
    PackedParts(x, y, z);
    JoinedAt4(x, y);
    JoinedAt2(y, z);
    Shifts(x);
    Mask63(z);
    Widened(x >> 2);
    Widened(((x & 3) << 4) | (y >> 4));
    Widened(((y & 15) << 2) | (z >> 6));
    Widened(z & 63);
  }

  /** The words of shorter groups: a byte that is never or-ed in counts as zero. */
  lemma ShortGroups(x: bv8, y: bv8)
    ensures x as bv32 << 16 == Packed(x, 0, 0)
    ensures (x as bv32 << 16) | (y as bv32 << 8) == Packed(x, y, 0)
  {
    NoBits(x as bv32 << 16);
    NoBits((x as bv32 << 16) | (y as bv32 << 8));
  }

  lemma NoBits(w: bv32)
    ensures w | ((0 as bv8) as bv32 << 8) == w && w | (0 as bv8) as bv32 == w
  {
  }

  /** The four table indices of one turn of the encoding loop; missing bytes are zero. */
  method EncoderBits(x: int, y: int, z: int) returns (d0: int, d1: int, d2: int, d3: int)
    requires 0 <= x < 256 && 0 <= y < 256 && 0 <= z < 256
    ensures d0 == x / 4 && d1 == x % 4 * 16 + y / 16 && d2 == y % 16 * 4 + z / 64 && d3 == z % 64
  {
    hide Packed, Sextets;
    ByteOfInt(x);
    ByteOfInt(y);
    ByteOfInt(z);
    SextetsOf(x as bv8, y as bv8, z as bv8);
    var d := Sextets(Packed(x as bv8, y as bv8, z as bv8));
    d0, d1, d2, d3 := d.0, d.1, d.2, d.3;
  }

  // ---------------------------------------------------------------- the decoder

  /** The three expressions of the decoding loop, before the cast to a byte. */
  function First(d0: bv8, d1: bv8): bv32 {
    (d0 as bv32 << 2) | (d1 as bv32 >> 4)
  }

  function Second(d1: bv8, d2: bv8): bv32 {
    ((d1 as bv32 & 0x0f) << 4) | (d2 as bv32 >> 2)
  }

  function Third(d2: bv8, d3: bv8): bv32 {
    ((d2 as bv32 & 0x03) << 6) | (d3 as bv32)
  }

  /** The cast to unsigned char. */
  function Truncated(w: bv32): int {
    (w & 0xff) as int
  }

  lemma FirstParts(d0: bv8, d1: bv8)
    requires d0 < 64 && d1 < 64
    ensures var v := (d0 << 2) | (d1 >> 4);
            First(d0, d1) & 0xff == v as bv32 && v >> 2 == d0 && v & 3 == d1 >> 4
  {
  }

  lemma FirstByte(d0: bv8, d1: bv8)
    requires d0 < 64 && d1 < 64
    ensures Truncated(First(d0, d1)) == d0 as int * 4 + d1 as int / 16
  {
    var v := (d0 << 2) | (d1 >> 4);
    FirstParts(d0, d1);
    hide First;
    Widened(v);
    Halves(v);
    Shifts(d1);
  }

  lemma SecondParts(d1: bv8, d2: bv8)
    requires d1 < 64 && d2 < 64
    ensures var v := ((d1 & 15) << 4) | (d2 >> 2);
            Second(d1, d2) & 0xff == v as bv32 && v >> 4 == d1 & 15 && v & 15 == d2 >> 2
  {
  }

  lemma SecondByte(d1: bv8, d2: bv8)
    requires d1 < 64 && d2 < 64
    ensures Truncated(Second(d1, d2)) == d1 as int % 16 * 16 + d2 as int / 4
  {
    var v := ((d1 & 15) << 4) | (d2 >> 2);
    SecondParts(d1, d2);
    hide Second;
    Widened(v);
    Halves(v);
    Mask15(d1);
    Shifts(d2);
  }

  lemma ThirdParts(d2: bv8, d3: bv8)
    requires d2 < 64 && d3 < 64
    ensures var v := ((d2 & 3) << 6) | d3;
            Third(d2, d3) & 0xff == v as bv32 && v >> 6 == d2 & 3 && v & 63 == d3
  {
  }

  lemma ThirdByte(d2: bv8, d3: bv8)
    requires d2 < 64 && d3 < 64
    ensures Truncated(Third(d2, d3)) == d2 as int % 4 * 64 + d3 as int
  {
    var v := ((d2 & 3) << 6) | d3;
    ThirdParts(d2, d3);
    hide Third;
    Widened(v);
    Halves(v);
    Mask3(d2);
  }

  /** Digits of at most six bits as bytes. */
  lemma DigitOfInt(d: int)
    requires 0 <= d < 64
    ensures (d as bv8) as int == d && d as bv8 < 64
  {
    ByteOfInt(d);
  }

  /** The three values that one turn of the decoding loop stores; each fits, so the cast drops nothing. */
  method DecoderBits(d0: int, d1: int, d2: int, d3: int) returns (b0: int, b1: int, b2: int)
    requires 0 <= d0 < 64 && 0 <= d1 < 64 && 0 <= d2 < 64 && 0 <= d3 < 64
    ensures b0 == d0 * 4 + d1 / 16 < 256 && b1 == d1 % 16 * 16 + d2 / 4 < 256 && b2 == d2 % 4 * 64 + d3 < 256
  {
    hide First, Second, Third, Truncated;
    DigitOfInt(d0);
    DigitOfInt(d1);
    DigitOfInt(d2);
    DigitOfInt(d3);
    FirstByte(d0 as bv8, d1 as bv8);
    SecondByte(d1 as bv8, d2 as bv8);
    ThirdByte(d2 as bv8, d3 as bv8);
    b0 := Truncated(First(d0 as bv8, d1 as bv8));
    b1 := Truncated(Second(d1 as bv8, d2 as bv8));
    b2 := Truncated(Third(d2 as bv8, d3 as bv8));
  }
}

/**
 * Fixed-width big-endian integer codecs: be16/be32/be64 encode and decode
 * (include/wirecc/wirecc.h:205-272).
 *
 * The source shifts and masks machine integers; here a value is a natural
 * number below 2^16, 2^32 or 2^64, a byte is a natural below 256, and
 * `(val >> s) & 0xff` is written `val / 2^s % 0x100`. Decoding ORs shifted
 * bytes whose bit ranges are disjoint, which is the sum written below.
 * The reference meaning of "big-endian" is BigEndianValue, the positional
 * value of a byte string read most significant byte first.
 */
module Endian {

  type Byte = b: int | 0 <= b < 0x100
  type U16 = x: int | 0 <= x < 0x1_0000
  type U32 = x: int | 0 <= x < 0x1_0000_0000
  type U64 = x: int | 0 <= x < 0x1_0000_0000_0000_0000

  /** Positional value of `bytes`, most significant byte first. */
  function BigEndianValue(bytes: seq<Byte>): nat
  {
    if bytes == [] then 0
    else BigEndianValue(bytes[..|bytes| - 1]) * 0x100 + bytes[|bytes| - 1]
  }

  // ---------------------------------------------------------------- 64 bits

  /** be64encode: the eight bytes of `v`, most significant first. */
  function Encode64(v: U64): (r: seq<Byte>)
    ensures |r| == 8
    ensures BigEndianValue(r) == v
  {
    var r := [ v / 0x100_0000_0000_0000 % 0x100, v / 0x1_0000_0000_0000 % 0x100,
               v / 0x100_0000_0000 % 0x100,      v / 0x1_0000_0000 % 0x100,
               v / 0x100_0000 % 0x100,           v / 0x1_0000 % 0x100,
               v / 0x100 % 0x100,                v % 0x100 ];
    Digits64(v);
    ValueOf8(r);
    r
  }

  /** be64decode: the value of the first eight bytes of `b`, most significant first. */
  function Decode64(b: seq<Byte>): (v: U64)
    requires |b| >= 8
    ensures v == BigEndianValue(b[..8])
  {
    ValueOf8(b[..8]);
    (b[7] as int)
    + (b[6] as int) * 0x100
    + (b[5] as int) * 0x1_0000
    + (b[4] as int) * 0x100_0000
    + (b[3] as int) * 0x1_0000_0000
    + (b[2] as int) * 0x100_0000_0000
    + (b[1] as int) * 0x1_0000_0000_0000
    + (b[0] as int) * 0x100_0000_0000_0000
  }

  lemma Decode64Encode64(v: U64)
    ensures Decode64(Encode64(v)) == v
  {
    assert Encode64(v)[..8] == Encode64(v);
  }

  lemma Encode64Decode64(b: seq<Byte>)
    requires |b| >= 8
    ensures Encode64(Decode64(b)) == b[..8]
  {
    var v := Decode64(b);
    var b0, b1, b2, b3, b4, b5, b6, b7 :=
      b[0] as int, b[1] as int, b[2] as int, b[3] as int,
      b[4] as int, b[5] as int, b[6] as int, b[7] as int;
    Digit(v, 0, b0,
          b1 * 0x1_0000_0000_0000 + b2 * 0x100_0000_0000 + b3 * 0x1_0000_0000
          + b4 * 0x100_0000 + b5 * 0x1_0000 + b6 * 0x100 + b7, 0x100_0000_0000_0000);
    Digit(v, b0, b1,
          b2 * 0x100_0000_0000 + b3 * 0x1_0000_0000 + b4 * 0x100_0000
          + b5 * 0x1_0000 + b6 * 0x100 + b7, 0x1_0000_0000_0000);
    Digit(v, b0 * 0x100 + b1, b2,
          b3 * 0x1_0000_0000 + b4 * 0x100_0000 + b5 * 0x1_0000 + b6 * 0x100 + b7,
          0x100_0000_0000);
    Digit(v, b0 * 0x1_0000 + b1 * 0x100 + b2, b3,
          b4 * 0x100_0000 + b5 * 0x1_0000 + b6 * 0x100 + b7, 0x1_0000_0000);
    Digit(v, b0 * 0x100_0000 + b1 * 0x1_0000 + b2 * 0x100 + b3, b4,
          b5 * 0x1_0000 + b6 * 0x100 + b7, 0x100_0000);
    Digit(v, b0 * 0x1_0000_0000 + b1 * 0x100_0000 + b2 * 0x1_0000 + b3 * 0x100 + b4, b5,
          b6 * 0x100 + b7, 0x1_0000);
    Digit(v, b0 * 0x100_0000_0000 + b1 * 0x1_0000_0000 + b2 * 0x100_0000
             + b3 * 0x1_0000 + b4 * 0x100 + b5, b6, b7, 0x100);
    Digit(v, b0 * 0x1_0000_0000_0000 + b1 * 0x100_0000_0000 + b2 * 0x1_0000_0000
             + b3 * 0x100_0000 + b4 * 0x1_0000 + b5 * 0x100 + b6, b7, 0, 1);
  }

  // ---------------------------------------------------------------- 32 bits

  /** be32encode: the four bytes of `v`, most significant first. */
  function Encode32(v: U32): (r: seq<Byte>)
    ensures |r| == 4
    ensures BigEndianValue(r) == v
  {
    var r := [ v / 0x100_0000 % 0x100, v / 0x1_0000 % 0x100, v / 0x100 % 0x100, v % 0x100 ];
    Digits32(v);
    ValueOf4(r);
    r
  }

  /** be32decode: the value of the first four bytes of `b`, most significant first. */
  function Decode32(b: seq<Byte>): (v: U32)
    requires |b| >= 4
    ensures v == BigEndianValue(b[..4])
  {
    ValueOf4(b[..4]);
    (b[3] as int) + (b[2] as int) * 0x100 + (b[1] as int) * 0x1_0000 + (b[0] as int) * 0x100_0000
  }

  lemma Decode32Encode32(v: U32)
    ensures Decode32(Encode32(v)) == v
  {
    assert Encode32(v)[..4] == Encode32(v);
  }

  lemma Encode32Decode32(b: seq<Byte>)
    requires |b| >= 4
    ensures Encode32(Decode32(b)) == b[..4]
  {
    var v := Decode32(b);
    var b0, b1, b2, b3 := b[0] as int, b[1] as int, b[2] as int, b[3] as int;
    Digit(v, 0, b0, b1 * 0x1_0000 + b2 * 0x100 + b3, 0x100_0000);
    Digit(v, b0, b1, b2 * 0x100 + b3, 0x1_0000);
    Digit(v, b0 * 0x100 + b1, b2, b3, 0x100);
    Digit(v, b0 * 0x1_0000 + b1 * 0x100 + b2, b3, 0, 1);
  }

  // ---------------------------------------------------------------- 16 bits

  /** be16encode: the two bytes of `v`, most significant first. */
  function Encode16(v: U16): (r: seq<Byte>)
    ensures |r| == 2
    ensures BigEndianValue(r) == v
  {
    var r := [ v / 0x100 % 0x100, v % 0x100 ];
    DivUnique(v / 0x100, 0x100, 0, v / 0x100);
    ValueOf2(r);
    r
  }

  /** be16decode: the value of the first two bytes of `b`, most significant first. */
  function Decode16(b: seq<Byte>): (v: U16)
    requires |b| >= 2
    ensures v == BigEndianValue(b[..2])
  {
    ValueOf2(b[..2]);
    (b[1] as int) + (b[0] as int) * 0x100
  }

  lemma Decode16Encode16(v: U16)
    ensures Decode16(Encode16(v)) == v
  {
    assert Encode16(v)[..2] == Encode16(v);
  }

  lemma Encode16Decode16(b: seq<Byte>)
    requires |b| >= 2
    ensures Encode16(Decode16(b)) == b[..2]
  {
    var v := Decode16(b);
    Digit(v, 0, b[0] as int, b[1] as int, 0x100);
    Digit(v, b[0] as int, b[1] as int, 0, 1);
  }

  /** The byte order the header's tests pin down: most significant byte first. */
  lemma KnownEncodings()
    ensures Encode64(0x1234_5678_9ABC_DEF0) == [0x12, 0x34, 0x56, 0x78, 0x9A, 0xBC, 0xDE, 0xF0]
    ensures Encode32(0x1234_5678) == [0x12, 0x34, 0x56, 0x78]
    ensures Encode16(0x1234) == [0x12, 0x34]
  {
  }

  // ------------------------------------------------------- arithmetic helpers

  /** Division is determined by any quotient/remainder pair. */
  lemma DivUnique(v: int, d: int, q: int, r: int)
    requires d > 0 && v == d * q + r && 0 <= r < d
    ensures v / d == q && v % d == r
  {
    var q', r' := v / d, v % d;
    assert v == d * q' + r' && 0 <= r' < d;
    assert d * (q' - q) == r - r';
    if q' > q { MulAtLeast(d, q' - q); assert false; }
    if q' < q { MulAtLeast(d, q - q'); assert false; }
  }

  lemma MulAtLeast(d: int, k: int)
    requires d > 0 && k >= 1
    ensures d * k >= d
  {
  }

  /** Keeping one more byte of `v` adds that byte at weight `scale`. */
  lemma ModSplit(v: nat, scale: int)
    requires scale > 0
    ensures v % (scale * 0x100) == v % scale + v / scale % 0x100 * scale
  {
    var q, r := v / scale, v % scale;
    var q2, d := q / 0x100, q % 0x100;
    calc {
      v;
      scale * q + r;
      scale * (0x100 * q2 + d) + r;
      { Distrib(scale, 0x100 * q2, d); }
      scale * (0x100 * q2) + scale * d + r;
      (scale * 0x100) * q2 + (scale * d + r);
    }
    Distrib(scale, d, 0xFF - d);
    MulNonneg(scale, 0xFF - d);
    DivUnique(v, scale * 0x100, q2, scale * d + r);
  }

  lemma Distrib(a: int, b: int, c: int)
    ensures a * (b + c) == a * b + a * c
  {
  }

  lemma MulNonneg(a: int, b: int)
    requires a >= 0 && b >= 0
    ensures a * b >= 0
  {
  }

  /** The byte `d` sitting at weight `scale` is recovered by shifting and masking. */
  lemma Digit(v: int, high: int, d: int, low: int, scale: int)
    requires scale > 0 && high >= 0 && 0 <= d < 0x100 && 0 <= low < scale
    requires v == high * 0x100 * scale + d * scale + low
    ensures v / scale % 0x100 == d
  {
    assert v == scale * (high * 0x100 + d) + low;
    DivUnique(v, scale, high * 0x100 + d, low);
    DivUnique(high * 0x100 + d, 0x100, high, d);
  }

  /** A 64-bit value is the weighted sum of its eight shifted-and-masked bytes. */
  lemma Digits64(v: U64)
    ensures v == v % 0x100
               + v / 0x100 % 0x100 * 0x100
               + v / 0x1_0000 % 0x100 * 0x1_0000
               + v / 0x100_0000 % 0x100 * 0x100_0000
               + v / 0x1_0000_0000 % 0x100 * 0x1_0000_0000
               + v / 0x100_0000_0000 % 0x100 * 0x100_0000_0000
               + v / 0x1_0000_0000_0000 % 0x100 * 0x1_0000_0000_0000
               + v / 0x100_0000_0000_0000 % 0x100 * 0x100_0000_0000_0000
  {
    DivUnique(v, 0x1_0000_0000_0000_0000, 0, v);
    ModSplit(v, 0x100_0000_0000_0000);
    ModSplit(v, 0x1_0000_0000_0000);
    ModSplit(v, 0x100_0000_0000);
    ModSplit(v, 0x1_0000_0000);
    ModSplit(v, 0x100_0000);
    ModSplit(v, 0x1_0000);
    ModSplit(v, 0x100);
  }

  /** A 32-bit value is the weighted sum of its four shifted-and-masked bytes. */
  lemma Digits32(v: U32)
    ensures v == v % 0x100
               + v / 0x100 % 0x100 * 0x100
               + v / 0x1_0000 % 0x100 * 0x1_0000
               + v / 0x100_0000 % 0x100 * 0x100_0000
  {
    DivUnique(v, 0x1_0000_0000, 0, v);
    ModSplit(v, 0x100_0000);
    ModSplit(v, 0x1_0000);
    ModSplit(v, 0x100);
  }

  lemma ValueStep(s: seq<Byte>, k: nat)
    requires k < |s|
    ensures BigEndianValue(s[..k + 1]) == BigEndianValue(s[..k]) * 0x100 + s[k]
  {
    assert s[..k + 1][..k] == s[..k];
  }

  lemma ValueOf8(s: seq<Byte>)
    requires |s| == 8
    ensures BigEndianValue(s) == (s[7] as int) + (s[6] as int) * 0x100
      + (s[5] as int) * 0x1_0000 + (s[4] as int) * 0x100_0000
      + (s[3] as int) * 0x1_0000_0000 + (s[2] as int) * 0x100_0000_0000
      + (s[1] as int) * 0x1_0000_0000_0000 + (s[0] as int) * 0x100_0000_0000_0000
  {
    assert s[..0] == [];
    ValueStep(s, 0); ValueStep(s, 1); ValueStep(s, 2); ValueStep(s, 3);
    ValueStep(s, 4); ValueStep(s, 5); ValueStep(s, 6); ValueStep(s, 7);
    assert s[..8] == s;
  }

  lemma ValueOf4(s: seq<Byte>)
    requires |s| == 4
    ensures BigEndianValue(s) == (s[3] as int) + (s[2] as int) * 0x100
      + (s[1] as int) * 0x1_0000 + (s[0] as int) * 0x100_0000
  {
    assert s[..0] == [];
    ValueStep(s, 0); ValueStep(s, 1); ValueStep(s, 2); ValueStep(s, 3);
    assert s[..4] == s;
  }

  lemma ValueOf2(s: seq<Byte>)
    requires |s| == 2
    ensures BigEndianValue(s) == (s[1] as int) + (s[0] as int) * 0x100
  {
    assert s[..0] == [];
    ValueStep(s, 0); ValueStep(s, 1);
    assert s[..2] == s;
  }
}

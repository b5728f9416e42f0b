/**
 * The byte layout ByteBuffer produces and consumes (include/wirecc/wirecc.h:293-461),
 * stated as functions on byte strings:
 *
 *   unsigned 64/32-bit  big-endian, 8 or 4 bytes
 *   signed 32-bit       the 4 big-endian bytes of its two's-complement pattern
 *   bool                one byte, 1 or 0; any nonzero byte reads as true
 *   string, buffer      4-byte count n, then n raw bytes
 *   ResourceSet         4-byte count n, then n signed 32-bit ints, ascending
 *
 * and the effect of one fixed-width write on the buffer contents (WriteAt).
 */
module WireFormat {
  import opened Endian

  /** One more than the largest `unsigned int`: counts are stored modulo this. */
  const WRAP: int := 0x1_0000_0000

  type Int32 = x: int | -0x8000_0000 <= x < 0x8000_0000

  /** `unsigned int tmp = val;` in writeInt: the same 32 bits read as unsigned. */
  function Unsigned(v: Int32): (u: U32)
    ensures (u - v) % WRAP == 0
  {
    if v < 0 then v + WRAP else v
  }

  /** `val = tmp;` in readInt: the 32 bits of an unsigned int read as two's complement. */
  function Signed(u: U32): (v: Int32)
    ensures (u - v) % WRAP == 0
  {
    if u < 0x8000_0000 then u else u - WRAP
  }

  lemma SignedUnsigned(v: Int32)
    ensures Signed(Unsigned(v)) == v
  {
  }

  lemma UnsignedSigned(u: U32)
    ensures Unsigned(Signed(u)) == u
  {
  }

  function Zeros(n: nat): (r: seq<Byte>)
    ensures |r| == n && forall i :: 0 <= i < n ==> r[i] == 0
  {
    seq(n, _ => 0)
  }

  /**
   * The contents after a fixed-width write at cursor `pos`: the vector grows by
   * |bytes| zero bytes at its end (`buf.resize(buf.size() + w)`) and `bytes` is
   * then stored from offset `pos`. When the cursor is at the end this is an
   * append; when it is not, earlier bytes are overwritten and zeros remain at
   * the tail.
   */
  function WriteAt(buf: seq<Byte>, pos: nat, bytes: seq<Byte>): (r: seq<Byte>)
    requires pos <= |buf|
    ensures |r| == |buf| + |bytes|
    ensures pos == |buf| ==> r == buf + bytes
  {
    var grown := buf + Zeros(|bytes|);
    grown[..pos] + bytes + grown[pos + |bytes|..]
  }

  /** A write keeps the bytes before the cursor and leaves `bytes` from the cursor on. */
  lemma WriteAtSlices(buf: seq<Byte>, pos: nat, bytes: seq<Byte>)
    requires pos <= |buf|
    ensures WriteAt(buf, pos, bytes)[..pos] == buf[..pos]
    ensures WriteAt(buf, pos, bytes)[pos..pos + |bytes|] == bytes
  {
  }

  /** Two writes in a row at consecutive positions are one write of both byte strings. */
  lemma WriteAtTwice(buf: seq<Byte>, pos: nat, x: seq<Byte>, y: seq<Byte>)
    requires pos <= |buf|
    ensures pos + |x| <= |WriteAt(buf, pos, x)|
    ensures WriteAt(WriteAt(buf, pos, x), pos + |x|, y) == WriteAt(buf, pos, x + y)
  {
    var once := WriteAt(buf, pos, x);
    var lhs := WriteAt(once, pos + |x|, y);
    var rhs := WriteAt(buf, pos, x + y);
    var grown := buf + Zeros(|x| + |y|);
    WriteAtSlices(buf, pos, x);
    WriteAtSlices(once, pos + |x|, y);
    WriteAtSlices(buf, pos, x + y);
    assert |lhs| == |rhs|;
    forall i | 0 <= i < |lhs|
      ensures lhs[i] == rhs[i]
    {
      if i < pos {
        assert lhs[i] == once[..pos][i] == buf[..pos][i];
      } else if i < pos + |x| {
        assert lhs[i] == once[pos..pos + |x|][i - pos] == x[i - pos];
      } else if i < pos + |x| + |y| {
        assert lhs[i] == y[i - pos - |x|];
      } else {
        assert rhs[i] == grown[i];
        if i < |buf| {
          assert once[i] == (buf + Zeros(|x|))[i] == buf[i];
        }
      }
    }
  }

  function BoolBytes(b: bool): (r: seq<Byte>)
    ensures |r| == 1
  {
    [if b then 1 else 0]
  }

  function IntBytes(v: Int32): (r: seq<Byte>)
    ensures |r| == 4
  {
    Encode32(Unsigned(v))
  }

  /**
   * A string or a nested buffer's content behind its count. The count is taken
   * as an `unsigned int`, and only that many bytes follow.
   */
  function LengthPrefixed(s: seq<Byte>): (r: seq<Byte>)
    ensures |r| == 4 + |s| % WRAP
    ensures |s| < WRAP ==> r == Encode32(|s|) + s
  {
    var n := |s| % WRAP;
    Encode32(n) + s[..n]
  }

  /** The signed ints of `xs`, in order, 4 bytes each. */
  function IntsBytes(xs: seq<Int32>): (r: seq<Byte>)
    ensures |r| == 4 * |xs|
  {
    if xs == [] then [] else IntsBytes(xs[..|xs| - 1]) + IntBytes(xs[|xs| - 1])
  }

  /** Encoding one more int appends its four bytes. */
  lemma IntsBytesSnoc(xs: seq<Int32>, i: nat)
    requires i < |xs|
    ensures IntsBytes(xs[..i + 1]) == IntsBytes(xs[..i]) + IntBytes(xs[i])
  {
    assert xs[..i + 1][..i] == xs[..i];
  }

  /** Writing the next int after a prefix of `xs` extends the prefix by one. */
  lemma WriteIntsStep(buf: seq<Byte>, pos: nat, head: seq<Byte>, xs: seq<Int32>, i: nat,
                      cur: seq<Byte>, at: nat)
    requires pos <= |buf| && i < |xs|
    requires cur == WriteAt(buf, pos, head + IntsBytes(xs[..i]))
    requires at == pos + |head| + 4 * i
    ensures at <= |cur|
    ensures WriteAt(cur, at, IntBytes(xs[i])) == WriteAt(buf, pos, head + IntsBytes(xs[..i + 1]))
  {
    WriteAtTwice(buf, pos, head + IntsBytes(xs[..i]), IntBytes(xs[i]));
    IntsBytesSnoc(xs, i);
    assert head + IntsBytes(xs[..i]) + IntBytes(xs[i]) == head + IntsBytes(xs[..i + 1]);
  }

  /** A ResourceSet: its size as an `unsigned int`, then every member, ascending. */
  function RsetBytes(s: set<Int32>): (r: seq<Byte>)
    ensures |r| == 4 + 4 * |s|
  {
    Encode32(|s| % WRAP) + IntsBytes(Ascending(s))
  }

  // ----------------------------------------------- iterating a std::set in order

  /** `m` is no greater than any member of `s`. */
  predicate IsLeast(m: Int32, s: set<Int32>)
  {
    forall x :: x in s ==> m <= x
  }

  /** The members of `xs` rise strictly from left to right. */
  predicate Increasing(xs: seq<Int32>)
  {
    forall i, j :: 0 <= i < j < |xs| ==> xs[i] < xs[j]
  }

  function Least(s: set<Int32>): (m: Int32)
    requires s != {}
    ensures m in s && IsLeast(m, s)
  {
    LeastExists(s);
    var m :| m in s && IsLeast(m, s);
    m
  }

  lemma LeastExists(s: set<Int32>)
    requires s != {}
    ensures exists m :: m in s && IsLeast(m, s)
  {
    var y :| y in s;
    var rest := s - {y};
    if rest == {} {
      assert s == {y};
      assert IsLeast(y, s);
    } else {
      LeastExists(rest);
      var m :| m in rest && IsLeast(m, rest);
      var least := if y < m then y else m;
      forall x | x in s
        ensures least <= x
      {
        if x != y { assert x in rest; }
      }
      assert least in s && IsLeast(least, s);
    }
  }

  /** The members of `s` in the order a std::set visits them: strictly ascending. */
  function Ascending(s: set<Int32>): (r: seq<Int32>)
    ensures |r| == |s|
    decreases |s|
  {
    if s == {} then []
    else
      var m := Least(s);
      [m] + Ascending(s - {m})
  }

  /** Ascending lists exactly the members of the set. */
  lemma {:induction false} AscendingMembers(s: set<Int32>)
    ensures forall x :: x in Ascending(s) <==> x in s
    decreases |s|
  {
    if s != {} {
      var m := Least(s);
      AscendingMembers(s - {m});
      assert Ascending(s) == [m] + Ascending(s - {m});
    }
  }

  lemma AscendingElements(s: set<Int32>)
    ensures Elements(Ascending(s)) == s
  {
    AscendingMembers(s);
  }

  /** Ascending lists the members in strictly increasing order, hence each once. */
  lemma {:induction false} AscendingIncreasing(s: set<Int32>)
    ensures Increasing(Ascending(s))
    decreases |s|
  {
    if s != {} {
      var m := Least(s);
      var rest := Ascending(s - {m});
      AscendingIncreasing(s - {m});
      AscendingMembers(s - {m});
      var r := [m] + rest;
      assert Ascending(s) == r;
      forall i, j | 0 <= i < j < |r|
        ensures r[i] < r[j]
      {
        assert r[j] == rest[j - 1] && r[j] in s - {m};
        if 0 < i {
          assert r[i] == rest[i - 1];
        }
      }
    }
  }

  // --------------------------------------------------------------- decoding

  /** The elements of a sequence, as readRset's repeated `insert` collects them. */
  function Elements(xs: seq<Int32>): (r: set<Int32>)
    ensures forall x :: x in r <==> x in xs
  {
    set x | x in xs
  }

  /** There is a 4-byte count at `pos` and that many bytes after it. */
  predicate HasLengthPrefixed(buf: seq<Byte>, pos: nat)
  {
    pos + 4 <= |buf| && pos + 4 + Decode32(buf[pos..]) <= |buf|
  }

  /** The bytes readString and readBuffer take from `pos`: those behind the count. */
  function LengthPrefixedAt(buf: seq<Byte>, pos: nat): (r: seq<Byte>)
    requires HasLengthPrefixed(buf, pos)
    ensures |r| == Decode32(buf[pos..])
    ensures LengthPrefixed(r) == buf[pos..pos + 4 + |r|]
  {
    var n := Decode32(buf[pos..]);
    var r := buf[pos + 4..pos + 4 + n];
    Encode32Decode32(buf[pos..]);
    assert buf[pos..pos + 4 + n] == buf[pos..][..4] + r;
    r
  }

  /** There is a 4-byte count at `pos` and that many 4-byte ints after it. */
  predicate HasRset(buf: seq<Byte>, pos: nat)
  {
    pos + 4 <= |buf| && pos + 4 + 4 * Decode32(buf[pos..]) <= |buf|
  }

  /** The `n` signed ints stored from `pos`, in order. */
  function IntsAt(buf: seq<Byte>, pos: nat, n: nat): (r: seq<Int32>)
    requires pos + 4 * n <= |buf|
    ensures |r| == n
  {
    if n == 0 then []
    else IntsAt(buf, pos, n - 1) + [Signed(Decode32(buf[pos + 4 * (n - 1)..]))]
  }

  /** The set readRset decodes from `pos`. */
  function RsetAt(buf: seq<Byte>, pos: nat): set<Int32>
    requires HasRset(buf, pos)
  {
    Elements(IntsAt(buf, pos + 4, Decode32(buf[pos..])))
  }

  // ------------------------------------------------------------ round trips

  /** Four bytes at `at` that encode the unsigned `v` read back there as `v`. */
  lemma UintDecodes(buf: seq<Byte>, at: nat, v: U32)
    requires at + 4 <= |buf| && buf[at..at + 4] == Encode32(v)
    ensures Decode32(buf[at..]) == v
  {
    assert buf[at..][..4] == buf[at..at + 4];
    Decode32Encode32(v);
  }

  /** Four bytes at `at` that encode the signed `x` read back there as `x`. */
  lemma IntDecodes(buf: seq<Byte>, at: nat, x: Int32)
    requires at + 4 <= |buf| && buf[at..at + 4] == IntBytes(x)
    ensures Signed(Decode32(buf[at..])) == x
  {
    UintDecodes(buf, at, Unsigned(x));
    SignedUnsigned(x);
  }

  /** Wherever the encoding of `xs` lies in a buffer, decoding it there gives `xs` back. */
  lemma {:induction false} IntsRoundTrip(buf: seq<Byte>, pos: nat, xs: seq<Int32>)
    requires pos + 4 * |xs| <= |buf|
    requires buf[pos..pos + 4 * |xs|] == IntsBytes(xs)
    ensures IntsAt(buf, pos, |xs|) == xs
  {
    if xs != [] {
      var k := |xs| - 1;
      var front, last := xs[..k], xs[k];
      IntsBytesSnoc(xs, k);
      assert xs[..k + 1] == xs;
      SliceSplit(buf, pos, IntsBytes(front), IntBytes(last));
      IntsRoundTrip(buf, pos, front);
      IntDecodes(buf, pos + 4 * k, last);
      assert xs == front + [last];
    }
  }

  /** A slice holding `a + b` holds `a` and then `b`. */
  lemma SliceSplit(buf: seq<Byte>, pos: nat, a: seq<Byte>, b: seq<Byte>)
    requires pos + |a| + |b| <= |buf|
    requires buf[pos..pos + |a| + |b|] == a + b
    ensures buf[pos..pos + |a|] == a
    ensures buf[pos + |a|..pos + |a| + |b|] == b
  {
    assert buf[pos..pos + |a|] == (a + b)[..|a|];
    assert buf[pos + |a|..pos + |a| + |b|] == (a + b)[|a|..];
  }

  lemma ReadBackU64(buf: seq<Byte>, pos: nat, v: U64)
    requires pos <= |buf|
    ensures pos + 8 <= |WriteAt(buf, pos, Encode64(v))|
    ensures Decode64(WriteAt(buf, pos, Encode64(v))[pos..]) == v
  {
    var w := WriteAt(buf, pos, Encode64(v));
    WriteAtSlices(buf, pos, Encode64(v));
    assert w[pos..][..8] == Encode64(v);
    Decode64Encode64(v);
  }

  lemma ReadBackU32(buf: seq<Byte>, pos: nat, v: U32)
    requires pos <= |buf|
    ensures pos + 4 <= |WriteAt(buf, pos, Encode32(v))|
    ensures Decode32(WriteAt(buf, pos, Encode32(v))[pos..]) == v
  {
    var w := WriteAt(buf, pos, Encode32(v));
    WriteAtSlices(buf, pos, Encode32(v));
    assert w[pos..][..4] == Encode32(v);
    Decode32Encode32(v);
  }

  lemma ReadBackInt(buf: seq<Byte>, pos: nat, v: Int32)
    requires pos <= |buf|
    ensures pos + 4 <= |WriteAt(buf, pos, IntBytes(v))|
    ensures Signed(Decode32(WriteAt(buf, pos, IntBytes(v))[pos..])) == v
  {
    ReadBackU32(buf, pos, Unsigned(v));
    SignedUnsigned(v);
  }

  lemma ReadBackBool(buf: seq<Byte>, pos: nat, b: bool)
    requires pos <= |buf|
    ensures pos < |WriteAt(buf, pos, BoolBytes(b))|
    ensures (WriteAt(buf, pos, BoolBytes(b))[pos] != 0) == b
  {
    var w := WriteAt(buf, pos, BoolBytes(b));
    WriteAtSlices(buf, pos, BoolBytes(b));
    assert w[pos] == w[pos..pos + 1][0];
  }

  /** A string (or nested buffer) written at `pos` is read back whole from `pos`. */
  lemma ReadBackLengthPrefixed(buf: seq<Byte>, pos: nat, s: seq<Byte>)
    requires pos <= |buf|
    requires |s| < WRAP
    ensures HasLengthPrefixed(WriteAt(buf, pos, LengthPrefixed(s)), pos)
    ensures LengthPrefixedAt(WriteAt(buf, pos, LengthPrefixed(s)), pos) == s
  {
    var w := WriteAt(buf, pos, LengthPrefixed(s));
    var bytes := Encode32(|s|) + s;
    WriteAtSlices(buf, pos, bytes);
    assert w[pos..pos + |bytes|] == bytes;
    assert w[pos..][..4] == Encode32(|s|);
    Decode32Encode32(|s|);
    assert w[pos + 4..pos + 4 + |s|] == bytes[4..] == s;
  }

  /**
   * A string of any length is read back cut to its first |s| mod 2^32 bytes,
   * since the count written before it is truncated to an `unsigned int`.
   */
  lemma ReadBackTruncated(buf: seq<Byte>, pos: nat, s: seq<Byte>)
    requires pos <= |buf|
    ensures HasLengthPrefixed(WriteAt(buf, pos, LengthPrefixed(s)), pos)
    ensures LengthPrefixedAt(WriteAt(buf, pos, LengthPrefixed(s)), pos) == s[..|s| % WRAP]
  {
    var n := |s| % WRAP;
    DivUnique(n, WRAP, 0, n);
    assert s[..n][..n] == s[..n];
    ReadBackLengthPrefixed(buf, pos, s[..n]);
  }

  /** Wherever the encoding of a ResourceSet lies in a buffer, it decodes there to the same set. */
  lemma RsetDecodes(buf: seq<Byte>, pos: nat, s: set<Int32>)
    requires |s| < WRAP
    requires pos + |RsetBytes(s)| <= |buf|
    requires buf[pos..pos + |RsetBytes(s)|] == RsetBytes(s)
    ensures HasRset(buf, pos) && Decode32(buf[pos..]) == |s| && RsetAt(buf, pos) == s
  {
    var xs := Ascending(s);
    RsetBytesSplit(s);
    CountedIntsDecode(buf, pos, xs);
    AscendingElements(s);
  }

  lemma RsetBytesSplit(s: set<Int32>)
    requires |s| < WRAP
    ensures |Ascending(s)| == |s|
    ensures RsetBytes(s) == Encode32(|Ascending(s)|) + IntsBytes(Ascending(s))
  {
    DivUnique(|s|, WRAP, 0, |s|);
  }

  /** A count followed by that many ints decodes, wherever it lies, to those ints. */
  lemma CountedIntsDecode(buf: seq<Byte>, pos: nat, xs: seq<Int32>)
    requires |xs| < WRAP
    requires pos + 4 + 4 * |xs| <= |buf|
    requires buf[pos..pos + 4 + 4 * |xs|] == Encode32(|xs|) + IntsBytes(xs)
    ensures HasRset(buf, pos) && Decode32(buf[pos..]) == |xs|
    ensures IntsAt(buf, pos + 4, |xs|) == xs
  {
    SliceSplit(buf, pos, Encode32(|xs|), IntsBytes(xs));
    UintDecodes(buf, pos, |xs|);
    IntsRoundTrip(buf, pos + 4, xs);
  }

  /** A ResourceSet written at `pos` reads back as the same set. */
  lemma ReadBackRset(buf: seq<Byte>, pos: nat, s: set<Int32>)
    requires pos <= |buf|
    requires |s| < WRAP
    ensures HasRset(WriteAt(buf, pos, RsetBytes(s)), pos)
    ensures Decode32(WriteAt(buf, pos, RsetBytes(s))[pos..]) == |s|
    ensures RsetAt(WriteAt(buf, pos, RsetBytes(s)), pos) == s
  {
    WriteAtSlices(buf, pos, RsetBytes(s));
    RsetDecodes(WriteAt(buf, pos, RsetBytes(s)), pos, s);
  }
}

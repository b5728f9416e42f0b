/**
 * ByteBuffer (include/wirecc/wirecc.h:281-512): a growable byte vector `buf`
 * and one cursor `pos` shared by reads and writes.
 *
 * Fixed-width writes grow `buf` by their width at the end and then store
 * their bytes from `pos` (WriteAt); writeBuffer and concat insert at the end
 * of `buf` instead. The two agree whenever `pos == |buf|`, which clear and
 * every write keep (AtEnd); the header warns against mixing reads and
 * writes, and a write after rewinding overwrites earlier bytes. Reading or
 * writing past the end of `buf` is undefined behaviour in the source and is
 * excluded by `requires`.
 */
module ByteBuffers {
  import opened Endian
  import opened WireFormat

  class ByteBuffer {
    var buf: seq<Byte>
    var pos: nat

    /** The cursor sits at the end of the contents, so every write appends. */
    predicate AtEnd()
      reads this
    {
      pos == |buf|
    }

    /** A new buffer is empty with the cursor at 0. */
    constructor ()
      ensures buf == [] && pos == 0
    {
      buf, pos := [], 0;
    }

    /** readBuffer: the count at the cursor, then `load` that many bytes into `buffer`. */
    method ReadBuffer(buffer: ByteBuffer)
      requires buffer != this
      requires HasLengthPrefixed(buf, pos)
      modifies this`pos, buffer
      ensures buffer.buf == LengthPrefixedAt(buf, old(pos))
      ensures buffer.pos == 0
      ensures pos == old(pos) + 4 + |buffer.buf|
    {
      var size := ReadUint();
      buffer.Load(buf[pos..], size);
      pos := pos + size;
    }

    /**
     * writeBuffer: the nested buffer's size at the cursor, then its whole
     * content (not from its cursor) inserted at the end of `buf`.
     */
    method WriteBuffer(b: ByteBuffer)
      requires b != this
      requires pos <= |buf|
      modifies this
      ensures buf == WriteAt(old(buf), old(pos), Encode32(b.Size())) + b.buf[..b.Size()]
      ensures pos == old(pos) + 4 + b.Size()
      ensures old(AtEnd()) ==> AtEnd() && buf == old(buf) + LengthPrefixed(b.buf)
    {
      WriteUint(b.Size());
      buf := buf + b.buf[..b.Size()];
      pos := pos + b.Size();
    }

    method ReadU64() returns (val: U64)
      requires pos + 8 <= |buf|
      modifies this`pos
      ensures val == Decode64(buf[old(pos)..])
      ensures pos == old(pos) + 8
    {
      val := Decode64(buf[pos..]);
      pos := pos + 8;
    }

    method WriteU64(val: U64)
      requires pos <= |buf|
      modifies this
      ensures buf == WriteAt(old(buf), old(pos), Encode64(val))
      ensures pos == old(pos) + 8
      ensures old(AtEnd()) ==> AtEnd()
    {
      buf := buf + Zeros(8);
      Store(Encode64(val));
    }

    method ReadUint() returns (val: U32)
      requires pos + 4 <= |buf|
      modifies this`pos
      ensures val == Decode32(buf[old(pos)..])
      ensures pos == old(pos) + 4
    {
      val := Decode32(buf[pos..]);
      pos := pos + 4;
    }

    method WriteUint(val: U32)
      requires pos <= |buf|
      modifies this
      ensures buf == WriteAt(old(buf), old(pos), Encode32(val))
      ensures pos == old(pos) + 4
      ensures old(AtEnd()) ==> AtEnd()
    {
      buf := buf + Zeros(4);
      Store(Encode32(val));
    }

    /** readInt: an unsigned int reinterpreted as two's complement. */
    method ReadInt() returns (val: Int32)
      requires pos + 4 <= |buf|
      modifies this`pos
      ensures val == Signed(Decode32(buf[old(pos)..]))
      ensures pos == old(pos) + 4
    {
      var tmp := ReadUint();
      val := Signed(tmp);
    }

    /** writeInt: the two's-complement bits written as an unsigned int. */
    method WriteInt(val: Int32)
      requires pos <= |buf|
      modifies this
      ensures buf == WriteAt(old(buf), old(pos), IntBytes(val))
      ensures pos == old(pos) + 4
      ensures old(AtEnd()) ==> AtEnd()
    {
      var tmp := Unsigned(val);
      WriteUint(tmp);
    }

    /** readRset: the count, then that many ints inserted into the caller's set `val`. */
    method ReadRset(val: set<Int32>) returns (r: set<Int32>)
      requires HasRset(buf, pos)
      modifies this`pos
      ensures r == val + RsetAt(buf, old(pos))
      ensures pos == old(pos) + 4 + 4 * Decode32(buf[old(pos)..])
    {
      ghost var first := pos + 4;
      var size := ReadUint();
      ghost var count := size;
      r := val;
      while size > 0
        invariant 0 <= size <= count
        invariant pos == first + 4 * (count - size)
        invariant r == val + Elements(IntsAt(buf, first, count - size))
      {
        var x := ReadInt();
        r := r + {x};
        size := size - 1;
        assert IntsAt(buf, first, count - size) == IntsAt(buf, first, count - size - 1) + [x];
      }
    }

    /** writeRset: the set's size, then each member in the set's (ascending) order. */
    method WriteRset(val: set<Int32>)
      requires pos <= |buf|
      modifies this
      ensures buf == WriteAt(old(buf), old(pos), RsetBytes(val))
      ensures pos == old(pos) + |RsetBytes(val)|
      ensures old(AtEnd()) ==> AtEnd()
    {
      ghost var start, before := pos, buf;
      var size := |val| % WRAP;
      WriteUint(size);
      var members := Ascending(val);
      assert Encode32(size) + IntsBytes(members[..0]) == Encode32(size);
      for i := 0 to |members|
        invariant pos == start + 4 + 4 * i
        invariant buf == WriteAt(before, start, Encode32(size) + IntsBytes(members[..i]))
      {
        WriteIntsStep(before, start, Encode32(size), members, i, buf, pos);
        WriteInt(members[i]);
      }
      assert members[..|members|] == members;
    }

    /** readString: the count, then that many bytes appended to the caller's string `val`. */
    method ReadString(val: seq<Byte>) returns (r: seq<Byte>)
      requires HasLengthPrefixed(buf, pos)
      modifies this`pos
      ensures r == val + LengthPrefixedAt(buf, old(pos))
      ensures pos == old(pos) + 4 + Decode32(buf[old(pos)..])
    {
      var size := ReadUint();
      ghost var first, count := pos, size;
      r := val;
      while size > 0
        invariant 0 <= size <= count
        invariant pos == first + (count - size)
        invariant r == val + buf[first..pos]
      {
        r := r + [buf[pos]];
        pos := pos + 1;
        size := size - 1;
      }
    }

    /** writeString: the count, then the characters stored one by one from the cursor. */
    method WriteString(val: seq<Byte>)
      requires pos <= |buf|
      modifies this
      ensures buf == WriteAt(old(buf), old(pos), LengthPrefixed(val))
      ensures pos == old(pos) + |LengthPrefixed(val)|
      ensures old(AtEnd()) ==> AtEnd()
    {
      ghost var start, before := pos, buf;
      var size := |val| % WRAP;
      WriteUint(size);
      buf := buf + Zeros(size);
      ghost var grown := buf;
      for i := 0 to size
        invariant pos == start + 4 + i
        invariant buf == grown[..start + 4] + val[..i] + grown[start + 4 + i..]
      {
        buf := buf[pos := val[i]];
        pos := pos + 1;
        assert val[..i + 1] == val[..i] + [val[i]];
      }
      WriteAtTwice(before, start, Encode32(size), val[..size]);
    }

    /** writeCstring: the characters before the terminating NUL, written as a string. */
    method WriteCstring(val: seq<Byte>)
      requires 0 in val
      requires pos <= |buf|
      modifies this
      ensures buf == WriteAt(old(buf), old(pos), LengthPrefixed(val[..CStringLength(val)]))
      ensures pos == old(pos) + |LengthPrefixed(val[..CStringLength(val)])|
      ensures old(AtEnd()) ==> AtEnd()
    {
      WriteString(val[..CStringLength(val)]);
    }

    /** readBool: any nonzero byte is true. */
    method ReadBool() returns (val: bool)
      requires pos < |buf|
      modifies this`pos
      ensures val == (buf[old(pos)] != 0)
      ensures pos == old(pos) + 1
    {
      val := buf[pos] != 0;
      pos := pos + 1;
    }

    method WriteBool(val: bool)
      requires pos <= |buf|
      modifies this
      ensures buf == WriteAt(old(buf), old(pos), BoolBytes(val))
      ensures pos == old(pos) + 1
      ensures old(AtEnd()) ==> AtEnd()
    {
      buf := buf + Zeros(1);
      buf := buf[pos := if val then 1 else 0];
      pos := pos + 1;
    }

    /** data(): the whole backing vector, whatever the cursor. */
    function Data(): seq<Byte>
      reads this
    {
      buf
    }

    /** size(): the vector's length as an `unsigned int`. */
    function Size(): (n: U32)
      reads this
      ensures |buf| < WRAP ==> n == |buf|
    {
      |buf| % WRAP
    }

    method Clear()
      modifies this
      ensures buf == [] && pos == 0
    {
      buf, pos := [], 0;
    }

    /** setPos: moves the cursor, unchecked. */
    method SetPos(newPos: U32)
      modifies this`pos
      ensures pos == newPos
    {
      pos := newPos;
    }

    function GetPos(): nat
      reads this
    {
      pos
    }

    /** load: the contents become the first `size` bytes of `data`, the cursor 0. */
    method Load(data: seq<Byte>, size: U32)
      requires size <= |data|
      modifies this
      ensures buf == data[..size] && pos == 0
    {
      Clear();
      buf := data[..size] + buf;
    }

    /** concat: the first `size` bytes of `data` appended, the cursor advanced by `size`. */
    method Concat(data: seq<Byte>, size: U32)
      requires size <= |data|
      modifies this
      ensures buf == old(buf) + data[..size]
      ensures pos == old(pos) + size
      ensures old(AtEnd()) ==> AtEnd()
    {
      buf := buf + data[..size];
      pos := pos + size;
    }

    /** Stores `bytes` over the vector from the cursor and moves the cursor past them. */
    method Store(bytes: seq<Byte>)
      requires pos + |bytes| <= |buf|
      modifies this
      ensures buf == old(buf[..pos]) + bytes + old(buf[pos + |bytes|..])
      ensures pos == old(pos) + |bytes|
    {
      buf := buf[..pos] + bytes + buf[pos + |bytes|..];
      pos := pos + |bytes|;
    }
  }

  /** Length of a NUL-terminated string: the index of its first zero byte. */
  function CStringLength(s: seq<Byte>): (n: nat)
    requires 0 in s
    ensures n < |s| && s[n] == 0
    ensures forall i :: 0 <= i < n ==> s[i] != 0
  {
    if s[0] == 0 then 0 else 1 + CStringLength(s[1..])
  }

  // ----------------------------------------------------------------------
  // Write, rewind, read: the round trips a cleared buffer supports.

  method U64RoundTrip(v: U64) returns (read: U64, size: nat, end: nat)
    ensures read == v && size == 8 && end == 8
  {
    var b := new ByteBuffer();
    b.Clear();
    b.WriteU64(v);
    size := |b.Data()|;
    b.SetPos(0);
    ReadBackU64([], 0, v);
    read := b.ReadU64();
    end := b.GetPos();
  }

  method UintRoundTrip(v: U32) returns (read: U32, size: nat, end: nat)
    ensures read == v && size == 4 && end == 4
  {
    var b := new ByteBuffer();
    b.Clear();
    b.WriteUint(v);
    size := |b.Data()|;
    b.SetPos(0);
    ReadBackU32([], 0, v);
    read := b.ReadUint();
    end := b.GetPos();
  }

  method IntRoundTrip(v: Int32) returns (read: Int32, size: nat, end: nat)
    ensures read == v && size == 4 && end == 4
  {
    var b := new ByteBuffer();
    b.Clear();
    b.WriteInt(v);
    size := |b.Data()|;
    b.SetPos(0);
    ReadBackInt([], 0, v);
    read := b.ReadInt();
    end := b.GetPos();
  }

  /** Two booleans written back to back read back in order. */
  method BoolRoundTrip(x: bool, y: bool) returns (readX: bool, readY: bool, end: nat)
    ensures readX == x && readY == y && end == 2
  {
    var b := new ByteBuffer();
    b.Clear();
    b.WriteBool(x);
    b.WriteBool(y);
    b.SetPos(0);
    readX := b.ReadBool();
    readY := b.ReadBool();
    end := b.GetPos();
  }

  /** A string, empty or not, reads back into an empty string as itself. */
  method StringRoundTrip(s: seq<Byte>) returns (read: seq<Byte>, end: nat)
    requires |s| < WRAP
    ensures read == s && end == 4 + |s|
  {
    var b := new ByteBuffer();
    b.Clear();
    b.WriteString(s);
    b.SetPos(0);
    ReadBackLengthPrefixed([], 0, s);
    read := b.ReadString([]);
    end := b.GetPos();
  }

  /** writeCstring, then readString: the characters before the NUL. */
  method CstringRoundTrip(s: seq<Byte>) returns (read: seq<Byte>)
    requires 0 in s && |s| <= WRAP
    ensures read == s[..CStringLength(s)]
  {
    var b := new ByteBuffer();
    b.Clear();
    b.WriteCstring(s);
    b.SetPos(0);
    ReadBackLengthPrefixed([], 0, s[..CStringLength(s)]);
    read := b.ReadString([]);
  }

  /** A ResourceSet, empty or not, reads back into an empty set as the same set. */
  method RsetRoundTrip(s: set<Int32>) returns (read: set<Int32>, end: nat)
    requires |s| < WRAP
    ensures read == s && end == 4 + 4 * |s|
  {
    var b := new ByteBuffer();
    b.Clear();
    b.WriteRset(s);
    b.SetPos(0);
    ReadBackRset([], 0, s);
    read := b.ReadRset({});
    end := b.GetPos();
  }

  /**
   * A buffer holding an unsigned int and a string is nested in another with
   * writeBuffer, extracted with readBuffer, and both values read back.
   */
  method NestedRoundTrip(u: U32, s: seq<Byte>) returns (readU: U32, readS: seq<Byte>, outerEnd: nat)
    requires |s| < WRAP - 8
    ensures readU == u && readS == s
    ensures outerEnd == 4 + 4 + 4 + |s|
  {
    var inner := new ByteBuffer();
    var outer := new ByteBuffer();
    inner.WriteUint(u);
    inner.WriteString(s);
    ghost var content := inner.buf;
    assert content == Encode32(u) + LengthPrefixed(s);
    outer.WriteBuffer(inner);
    outer.SetPos(0);
    var extracted := new ByteBuffer();
    ReadBackLengthPrefixed([], 0, content);
    outer.ReadBuffer(extracted);
    outerEnd := outer.GetPos();
    assert extracted.buf == content;
    extracted.SetPos(0);
    ReadBackU32([], 0, u);
    readU := extracted.ReadUint();
    ReadBackLengthPrefixed(Encode32(u), 4, s);
    readS := extracted.ReadString([]);
  }

  /**
   * Any buffer shorter than 2^32 bytes, nested into a new buffer with
   * writeBuffer and extracted after rewinding with readBuffer, comes back
   * with the same contents and its cursor at 0.
   */
  method BufferRoundTrip(b: ByteBuffer) returns (content: seq<Byte>, cursor: nat, end: nat)
    requires |b.buf| < WRAP
    ensures content == b.buf && cursor == 0
    ensures end == 4 + |b.buf|
  {
    var outer := new ByteBuffer();
    outer.WriteBuffer(b);
    outer.SetPos(0);
    ReadBackLengthPrefixed([], 0, b.buf);
    var extracted := new ByteBuffer();
    outer.ReadBuffer(extracted);
    content, cursor := extracted.Data(), extracted.GetPos();
    end := outer.GetPos();
  }

  /** load then concat: the sizes grow by what each copies in. */
  method LoadThenConcat(data: seq<Byte>, n: U32, m: U32) returns (loaded: nat, concatenated: nat, end: nat)
    requires n <= |data| && m <= |data|
    ensures loaded == n && concatenated == n + m && end == m
  {
    var b := new ByteBuffer();
    b.Clear();
    b.Load(data, n);
    loaded := |b.Data()|;
    b.Concat(data, m);
    concatenated := |b.Data()|;
    end := b.GetPos();
  }
}

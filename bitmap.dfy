/**
 * Bitmap (include/wirecc/wirecc.h:519-598): up to 64 flags packed in one
 * unsigned 64-bit word, with a mask of the bits the bitmap was built for.
 *
 * Bit positions are `unsigned int` in the source and `bv32` here; the word
 * and the mask are `uint64_t` and `bv64`. The methods of `Bitmap` state the
 * new word exactly as the source computes it; the lemmas before the class
 * say what that computation does to every bit.
 */
module Bitmaps {

  type Word = bv64

  /** The word with only bit `i` set: `(uint64_t) 1 << i`. */
  function Bit(i: bv32): Word
    requires i < 64
  {
    (1 as Word) << i
  }

  /** Bit `i` of a word: the lowest bit of the word shifted right by `i`. */
  predicate Has(f: Word, i: bv32)
    requires i < 64
  {
    (f >> i) & 1 == 1
  }

  /** The source's test `(f & (1 << i)) > 0` reads exactly bit `i`. */
  lemma IsSetReadsBit(f: Word, i: bv32)
    requires i < 64
    ensures f & Bit(i) != 0 <==> Has(f, i)
  {
  }

  /**
   * The mask of a bitmap built for `maxBits` bits, `2^maxBits - 1`: the word
   * whose set bits are those below `maxBits`.
   */
  function MaskOf(maxBits: bv32): Word
    requires maxBits < 64
  {
    Bit(maxBits) - 1
  }

  /** Bit `i` of the mask is set exactly when `i` is below `maxBits`. */
  lemma MaskBits(maxBits: bv32, i: bv32)
    requires maxBits < 64 && i < 64
    ensures Has(MaskOf(maxBits), i) <==> i < maxBits
  {
  }

  /** The mask for `n + 1` bits is the mask for `n` bits with bit `n` set. */
  lemma MaskStep(n: bv32)
    requires n < 63
    ensures MaskOf(n + 1) == MaskOf(n) | Bit(n)
  {
  }

  /** set: bit `b` becomes set and every other bit keeps its value. */
  lemma SetBit(f: Word, b: bv32, i: bv32)
    requires b < 64 && i < 64
    ensures Has(f | Bit(b), i) <==> i == b || Has(f, i)
  {
  }

  /** SetBit for every bit at once. */
  lemma SetBits(f: Word, b: bv32)
    requires b < 64
    ensures forall i: bv32 :: i < 64 ==> (Has(f | Bit(b), i) <==> i == b || Has(f, i))
  {
    forall i: bv32 | i < 64
      ensures Has(f | Bit(b), i) <==> i == b || Has(f, i)
    {
      SetBit(f, b, i);
    }
  }

  /** unset away from its own bit: a bit other than `b` survives exactly when it is below `maxBits`. */
  lemma UnsetOther(f: Word, maxBits: bv32, b: bv32, i: bv32)
    requires maxBits < 64 && b < 64 && i < 64 && i != b
    ensures Has(f & (MaskOf(maxBits) ^ Bit(b)), i) <==> Has(f, i) && i < maxBits
  {
  }

  /** unset at its own bit: bit `b` survives exactly when it is at or above `maxBits`. */
  lemma UnsetOwn(f: Word, maxBits: bv32, b: bv32)
    requires maxBits < 64 && b < 64
    ensures Has(f & (MaskOf(maxBits) ^ Bit(b)), b) <==> Has(f, b) && b >= maxBits
  {
  }

  /**
   * unset: bit `b` is cleared when it is below `maxBits` and kept when it is
   * not, and every other bit at or above `maxBits` is cleared.
   */
  lemma UnsetBit(f: Word, maxBits: bv32, b: bv32, i: bv32)
    requires maxBits < 64 && b < 64 && i < 64
    ensures Has(f & (MaskOf(maxBits) ^ Bit(b)), i) <==>
      Has(f, i) && (if i == b then b >= maxBits else i < maxBits)
  {
    if i == b {
      UnsetOwn(f, maxBits, b);
    } else {
      UnsetOther(f, maxBits, b, i);
    }
  }

  /** UnsetBit for every bit at once. */
  lemma UnsetBits(f: Word, maxBits: bv32, b: bv32)
    requires maxBits < 64 && b < 64
    ensures forall i: bv32 :: i < 64 ==> (Has(f & (MaskOf(maxBits) ^ Bit(b)), i) <==>
      Has(f, i) && (if i == b then b >= maxBits else i < maxBits))
  {
    forall i: bv32 | i < 64
      ensures Has(f & (MaskOf(maxBits) ^ Bit(b)), i) <==>
        Has(f, i) && (if i == b then b >= maxBits else i < maxBits)
    {
      UnsetBit(f, maxBits, b, i);
    }
  }

  /**
   * isEmpty's promise: the word is 0 exactly when no bit is set. The
   * converse direction reads the 64 bits one by one.
   */
  lemma EmptyIffNoBits(f: Word)
    ensures f == 0 <==> forall i: bv32 :: i < 64 ==> !Has(f, i)
  {
    if forall i: bv32 :: i < 64 ==> !Has(f, i) {
      assert !Has(f, 0);
      assert !Has(f, 1);
      assert !Has(f, 2);
      assert !Has(f, 3);
      assert !Has(f, 4);
      assert !Has(f, 5);
      assert !Has(f, 6);
      assert !Has(f, 7);
      assert !Has(f, 8);
      assert !Has(f, 9);
      assert !Has(f, 10);
      assert !Has(f, 11);
      assert !Has(f, 12);
      assert !Has(f, 13);
      assert !Has(f, 14);
      assert !Has(f, 15);
      assert !Has(f, 16);
      assert !Has(f, 17);
      assert !Has(f, 18);
      assert !Has(f, 19);
      assert !Has(f, 20);
      assert !Has(f, 21);
      assert !Has(f, 22);
      assert !Has(f, 23);
      assert !Has(f, 24);
      assert !Has(f, 25);
      assert !Has(f, 26);
      assert !Has(f, 27);
      assert !Has(f, 28);
      assert !Has(f, 29);
      assert !Has(f, 30);
      assert !Has(f, 31);
      assert !Has(f, 32);
      assert !Has(f, 33);
      assert !Has(f, 34);
      assert !Has(f, 35);
      assert !Has(f, 36);
      assert !Has(f, 37);
      assert !Has(f, 38);
      assert !Has(f, 39);
      assert !Has(f, 40);
      assert !Has(f, 41);
      assert !Has(f, 42);
      assert !Has(f, 43);
      assert !Has(f, 44);
      assert !Has(f, 45);
      assert !Has(f, 46);
      assert !Has(f, 47);
      assert !Has(f, 48);
      assert !Has(f, 49);
      assert !Has(f, 50);
      assert !Has(f, 51);
      assert !Has(f, 52);
      assert !Has(f, 53);
      assert !Has(f, 54);
      assert !Has(f, 55);
      assert !Has(f, 56);
      assert !Has(f, 57);
      assert !Has(f, 58);
      assert !Has(f, 59);
      assert !Has(f, 60);
      assert !Has(f, 61);
      assert !Has(f, 62);
      assert !Has(f, 63);
    }
  }

  class Bitmap {
    var flags: Word
    var mask: Word
    /** The number of bits the bitmap was built for. */
    ghost const maxBits: bv32

    /** The mask holds exactly the bits below `maxBits`. */
    ghost predicate Valid()
      reads this
    {
      maxBits < 64 && mask == MaskOf(maxBits)
    }

    /** A cleared bitmap for `maxBits` bits. */
    constructor (maxBits: bv8)
      requires maxBits < 64
      ensures Valid() && this.maxBits == maxBits as bv32
      ensures flags == 0
    {
      this.maxBits := maxBits as bv32;
      flags := 0;
      mask := MaskOf(maxBits as bv32);
    }

    /** isSet; IsSetReadsBit shows it is the source's `(flags & (1 << bit)) > 0`. */
    predicate IsSet(bit: bv32)
      requires bit < 64
      reads this
    {
      Has(flags, bit)
    }

    predicate IsEmpty()
      reads this
    {
      flags == 0
    }

    predicate IsFull()
      reads this
    {
      flags == mask
    }

    function GetFlags(): Word
      reads this
    {
      flags
    }

    /** set: SetBits says bit `bit` becomes set and every other bit keeps its value. */
    method Set(bit: bv32)
      requires Valid() && bit < 64
      modifies this
      ensures Valid() && mask == old(mask)
      ensures flags == old(flags) | Bit(bit)
    {
      flags := flags | Bit(bit);
    }

    /**
     * unset: UnsetBits says bit `bit` is cleared when it is below `maxBits`
     * and kept when it is not; every other bit at or above `maxBits` is cleared.
     */
    method Unset(bit: bv32)
      requires Valid() && bit < 64
      modifies this
      ensures Valid() && mask == old(mask)
      ensures flags == old(flags) & (mask ^ Bit(bit))
    {
      flags := flags & (mask ^ Bit(bit));
    }

    /** clear: no bit is set any more. */
    method Clear()
      requires Valid()
      modifies this
      ensures Valid() && mask == old(mask)
      ensures flags == 0
    {
      flags := 0;
    }
  }

  /** Setting every bit below `maxBits`, one at a time, makes a new bitmap full. */
  method FillAll(maxBits: bv8) returns (full: bool, flags: Word)
    requires maxBits < 64
    ensures full
    ensures flags == MaskOf(maxBits as bv32)
  {
    var b := new Bitmap(maxBits);
    var n := maxBits as bv32;
    var i: bv32 := 0;
    while i < n
      invariant i <= n && b.Valid() && b.maxBits == n
      invariant b.flags == MaskOf(i)
    {
      b.Set(i);
      MaskStep(i);
      i := i + 1;
    }
    full := b.IsFull();
    flags := b.GetFlags();
  }

  /**
   * An eight-bit bitmap, driven as the library's own test drives it: it starts
   * empty, not full and with flags 0; setting bits 0, 3 and 7 gives 0x89 (0b10001001), with bits 0, 3 and 7 set and
   * bit 1 clear; unsetting bit 3 leaves 0x81; setting every bit makes it
   * full, and clearing empties it again.
   */
  method EightBits() returns (emptyAtStart: bool, fullAtStart: bool, flagsAtStart: Word,
                              flags: Word, set0: bool, set1: bool, set3: bool, set7: bool,
                              emptyAfterSet: bool, unset3: Word, fullAfterFill: bool, emptyAfterClear: bool)
    ensures emptyAtStart && !fullAtStart && flagsAtStart == 0
    ensures flags == 0x89
    ensures set0 && !set1 && set3 && set7 && !emptyAfterSet
    ensures unset3 == 0x81
    ensures fullAfterFill && emptyAfterClear
  {
    var b := new Bitmap(8);
    emptyAtStart, fullAtStart, flagsAtStart := b.IsEmpty(), b.IsFull(), b.GetFlags();
    b.Set(0);
    b.Set(3);
    b.Set(7);
    flags := b.GetFlags();
    set0, set1, set3, set7 := b.IsSet(0), b.IsSet(1), b.IsSet(3), b.IsSet(7);
    emptyAfterSet := b.IsEmpty();
    b.Unset(3);
    unset3 := b.GetFlags();
    var i: bv32 := 0;
    while i < 8
      invariant i <= 8 && b.Valid() && b.mask == 0xFF
      invariant b.flags == unset3 | MaskOf(i)
    {
      b.Set(i);
      i := i + 1;
    }
    fullAfterFill := b.IsFull();
    b.Clear();
    emptyAfterClear := b.IsEmpty();
  }

  /** A one-bit bitmap starts empty and is full once bit 0 is set. */
  method OneBit() returns (emptyAtStart: bool, fullAfterSet: bool)
    ensures emptyAtStart && fullAfterSet
  {
    var b := new Bitmap(1);
    emptyAtStart := b.IsEmpty();
    b.Set(0);
    fullAfterSet := b.IsFull();
  }

  /**
   * The library's test expects 0b10010001 after setting bits 0, 3 and 7, but
   * that word has bit 4 set and bit 3 clear; the three bits make 0b10001001.
   */
  lemma TestedFlagsDiffer()
    ensures Bit(0) | Bit(3) | Bit(7) == 0x89
    ensures 0x91 != 0x89 as Word && Has(0x91, 4) && !Has(0x91, 3)
  {
  }
}

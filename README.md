# wirecc in Dafny

A model of the header-only C++ library wirecc (`include/wirecc/wirecc.h`), which
serialises values into a byte vector for sending over the wire. The model covers
five parts of the library, one module each:

- `Endian` (`endian.dfy`) covers the big-endian helpers `be64encode`/`be64decode`,
  `be32encode`/`be32decode` and `be16encode`/`be16decode`. Each encoder is a
  function from an unsigned value to its bytes, most significant byte first.
  Each decoder reads the first 8, 4 or 2 bytes of a byte sequence.
- `WireFormat` (`wire_format.dfy`) holds the byte layouts the buffer writes, stated as
  functions:
  - a `bool` is one byte;
  - an `int` is its two's-complement `unsigned int`;
  - a string is a 32-bit count followed by its bytes;
  - a `ResourceSet` is a 32-bit count followed by its members in ascending order.

  This module also has the lemmas that read each layout back.
- `ByteBuffers` (`byte_buffer.dfy`) models the `ByteBuffer` class:
  - a growable byte vector `buf`;
  - one cursor `pos`, shared by reads and writes;
  - each read and write method, with the new contents and cursor stated exactly;
  - write–rewind–read clients for each kind of value.
- `Combinations` (`combinations.dfy`) models the `CombinationGenerator` class. It
  steps a selection mask with `std::next_permutation`, which appears here as a
  function on `seq<bool>`. The module proves how the mask is ordered and ranked,
  and proves that draining a generator yields exactly Binomial(n, k) combinations.
- `Sampling` (`sampling.dfy`) models the `RandomGenerator` class, which draws the
  keys of a map without replacement. The value `rand()` returns is a parameter
  of `Get`.
- `Bitmaps` (`bitmap.dfy`) models the `Bitmap` class, a 64-bit word of flags with a
  mask of the bits it was built for. Its lemmas say, bit by bit, what `set` and
  `unset` do.

## Model

| member | source | states |
|---|---|---|
| Endian.Encode64 | include/wirecc/wirecc.h:205-215 | eight bytes whose big-endian value is the input |
| Endian.Decode64 | include/wirecc/wirecc.h:222-228 | the big-endian value of the first eight bytes |
| Endian.Decode64Encode64 | include/wirecc/wirecc.h:205-228 | decoding an encoded 64-bit value gives the value back |
| Endian.Encode64Decode64 | include/wirecc/wirecc.h:205-228 | encoding the decoded value gives back the eight bytes that were read |
| Endian.Encode32 | include/wirecc/wirecc.h:235-241 | four bytes whose big-endian value is the input |
| Endian.Decode32 | include/wirecc/wirecc.h:248-251 | the big-endian value of the first four bytes |
| Endian.Decode32Encode32 | include/wirecc/wirecc.h:235-251 | 32-bit round trip from value to bytes to value |
| Endian.Encode32Decode32 | include/wirecc/wirecc.h:235-251 | 32-bit round trip from bytes to value to bytes |
| Endian.Encode16 | include/wirecc/wirecc.h:258-262 | two bytes whose big-endian value is the input |
| Endian.Decode16 | include/wirecc/wirecc.h:269-272 | the big-endian value of the first two bytes |
| Endian.Decode16Encode16 | include/wirecc/wirecc.h:258-272 | 16-bit round trip from value to bytes to value |
| Endian.Encode16Decode16 | include/wirecc/wirecc.h:258-272 | 16-bit round trip from bytes to value to bytes |
| Endian.KnownEncodings | include/wirecc/wirecc.h:205-262 | 0x123456789ABCDEF0 encodes as 12 34 56 78 9A BC DE F0, and likewise for 0x12345678 and 0x1234 |
| WireFormat.Unsigned | include/wirecc/wirecc.h:369-373 | the `unsigned int` an `int` converts to is congruent to it modulo 2^32 |
| WireFormat.Signed | include/wirecc/wirecc.h:358-363 | the `int` an `unsigned int` converts to is congruent to it modulo 2^32 |
| WireFormat.SignedUnsigned | include/wirecc/wirecc.h:358-373 | every `int`, negatives included, survives the conversion to `unsigned int` and back |
| WireFormat.UnsignedSigned | include/wirecc/wirecc.h:358-373 | every `unsigned int` survives the conversion to `int` and back |
| WireFormat.WriteAt | include/wirecc/wirecc.h:326-331 | growing the vector and storing bytes at the cursor adds their count to its length, and appends them when the cursor is at the end |
| WireFormat.WriteAtSlices | include/wirecc/wirecc.h:326-331 | bytes before the cursor are unchanged, and the stored bytes sit at the cursor |
| WireFormat.WriteAtTwice | include/wirecc/wirecc.h:422-431 | two writes in sequence equal one write of the concatenated bytes |
| WireFormat.BoolBytes | include/wirecc/wirecc.h:456-461 | a bool takes one byte |
| WireFormat.IntBytes | include/wirecc/wirecc.h:369-373 | an int takes four bytes |
| WireFormat.LengthPrefixed | include/wirecc/wirecc.h:422-431 | a string takes 4 + its length (mod 2^32) bytes: the 32-bit count, then its bytes |
| WireFormat.IntsBytes | include/wirecc/wirecc.h:394-402 | a sequence of ints takes four bytes each |
| WireFormat.IntsBytesSnoc | include/wirecc/wirecc.h:394-402 | the layout of one more int is the earlier layout followed by that int's four bytes |
| WireFormat.WriteIntsStep | include/wirecc/wirecc.h:394-402 | writing the next int at the cursor extends the written layout by that int |
| WireFormat.RsetBytes | include/wirecc/wirecc.h:394-402 | a ResourceSet takes 4 + 4·size bytes |
| WireFormat.Least | include/wirecc/wirecc.h:394-402 | the least member of a non-empty set |
| WireFormat.LeastExists | include/wirecc/wirecc.h:394-402 | every non-empty set of ints has a least member |
| WireFormat.Ascending | include/wirecc/wirecc.h:394-402 | the set's members in iteration order have as many entries as the set |
| WireFormat.AscendingMembers | include/wirecc/wirecc.h:394-402 | the ascending listing holds exactly the set's members |
| WireFormat.AscendingElements | include/wirecc/wirecc.h:379-402 | collecting the ascending listing back into a set gives the original set |
| WireFormat.AscendingIncreasing | include/wirecc/wirecc.h:394-402 | the listing is strictly increasing, as `std::set` iteration is |
| WireFormat.Elements | include/wirecc/wirecc.h:379-388 | inserting a sequence of ints into a set yields exactly the sequence's members |
| WireFormat.LengthPrefixedAt | include/wirecc/wirecc.h:408-416 | the string read at the cursor has the decoded count as its length, and re-encoding it gives the bytes it was read from |
| WireFormat.IntsAt | include/wirecc/wirecc.h:379-388 | reading n ints at the cursor gives n values |
| WireFormat.UintDecodes | include/wirecc/wirecc.h:337-352 | an encoded `unsigned int` at a position decodes to itself |
| WireFormat.IntDecodes | include/wirecc/wirecc.h:358-373 | an encoded int, negatives included, decodes to itself |
| WireFormat.IntsRoundTrip | include/wirecc/wirecc.h:379-402 | a written sequence of ints reads back as the same sequence |
| WireFormat.ReadBackU64 | include/wirecc/wirecc.h:316-331 | what writeU64 stores at the cursor, readU64 reads back from there |
| WireFormat.ReadBackU32 | include/wirecc/wirecc.h:337-352 | what writeUint stores at the cursor, readUint reads back from there |
| WireFormat.ReadBackInt | include/wirecc/wirecc.h:358-373 | what writeInt stores at the cursor, readInt reads back from there |
| WireFormat.ReadBackBool | include/wirecc/wirecc.h:446-461 | what writeBool stores at the cursor, readBool reads back from there |
| WireFormat.ReadBackLengthPrefixed | include/wirecc/wirecc.h:408-431 | a string shorter than 2^32 bytes written at the cursor, empty or not, reads back as itself |
| WireFormat.ReadBackTruncated | include/wirecc/wirecc.h:408-431 | a string of any length written at the cursor reads back as its first |s| mod 2^32 bytes, because the count is stored as an `unsigned int` |
| WireFormat.RsetDecodes | include/wirecc/wirecc.h:379-402 | the bytes of a set's layout decode to its size and to the set itself |
| WireFormat.RsetBytesSplit | include/wirecc/wirecc.h:394-402 | a set's layout is its 32-bit count followed by the layout of its ascending members |
| WireFormat.CountedIntsDecode | include/wirecc/wirecc.h:379-388 | a count followed by that many ints decodes to the count and then the ints |
| WireFormat.ReadBackRset | include/wirecc/wirecc.h:379-402 | a set of fewer than 2^32 members written at the cursor, empty or not, reads back as the same set |
| ByteBuffers.ByteBuffer.constructor | include/wirecc/wirecc.h:287 | a new buffer is empty with the cursor at 0 |
| ByteBuffers.ByteBuffer.ReadBuffer | include/wirecc/wirecc.h:293-299 | the target buffer is loaded with the counted bytes at the cursor and rewound, and the cursor moves past them |
| ByteBuffers.ByteBuffer.WriteBuffer | include/wirecc/wirecc.h:305-310 | the other buffer's size is written at the cursor, then its bytes are appended, and the cursor advances by 4 + size |
| ByteBuffers.ByteBuffer.ReadU64 | include/wirecc/wirecc.h:316-320 | the big-endian value at the cursor is returned, and the cursor advances by 8 |
| ByteBuffers.ByteBuffer.WriteU64 | include/wirecc/wirecc.h:326-331 | the vector grows by 8 and the value's bytes are stored at the cursor, which advances by 8 |
| ByteBuffers.ByteBuffer.ReadUint | include/wirecc/wirecc.h:337-341 | the 32-bit value at the cursor is returned, and the cursor advances by 4 |
| ByteBuffers.ByteBuffer.WriteUint | include/wirecc/wirecc.h:347-352 | the vector grows by 4 and the value's bytes are stored at the cursor, which advances by 4 |
| ByteBuffers.ByteBuffer.ReadInt | include/wirecc/wirecc.h:358-363 | the 32-bit value at the cursor, reinterpreted as signed, is returned; the cursor advances by 4 |
| ByteBuffers.ByteBuffer.WriteInt | include/wirecc/wirecc.h:369-373 | the int's unsigned bytes are stored at the cursor, which advances by 4 |
| ByteBuffers.ByteBuffer.ReadRset | include/wirecc/wirecc.h:379-388 | the counted ints at the cursor are inserted into the given set, and the cursor moves past them |
| ByteBuffers.ByteBuffer.WriteRset | include/wirecc/wirecc.h:394-402 | the set's count and ascending members are stored at the cursor, which moves past them |
| ByteBuffers.ByteBuffer.ReadString | include/wirecc/wirecc.h:408-416 | the counted bytes at the cursor are appended to the given string, and the cursor moves past them |
| ByteBuffers.ByteBuffer.WriteString | include/wirecc/wirecc.h:422-431 | the string's count and bytes are stored at the cursor, which moves past them |
| ByteBuffers.ByteBuffer.WriteCstring | include/wirecc/wirecc.h:437-440 | the characters before the NUL are written as a string |
| ByteBuffers.ByteBuffer.ReadBool | include/wirecc/wirecc.h:446-450 | the byte at the cursor reads as true when it is non-zero, and the cursor advances by 1 |
| ByteBuffers.ByteBuffer.WriteBool | include/wirecc/wirecc.h:456-461 | the vector grows by one byte, the bool is stored at the cursor, and the cursor advances by 1 |
| ByteBuffers.ByteBuffer.Data | include/wirecc/wirecc.h:467 | the whole backing vector, whatever the cursor; the round-trip clients read the sizes they state from it |
| ByteBuffers.ByteBuffer.GetPos | include/wirecc/wirecc.h:486 | the cursor; the round-trip clients state where it ends through it |
| ByteBuffers.ByteBuffer.Size | include/wirecc/wirecc.h:472 | the vector's length, whenever that length fits an `unsigned int` |
| ByteBuffers.ByteBuffer.Clear | include/wirecc/wirecc.h:476 | the vector becomes empty and the cursor 0 |
| ByteBuffers.ByteBuffer.SetPos | include/wirecc/wirecc.h:481 | the cursor becomes the given position and nothing else changes |
| ByteBuffers.ByteBuffer.Load | include/wirecc/wirecc.h:492-496 | the contents become the first `size` bytes of the data, and the cursor becomes 0 |
| ByteBuffers.ByteBuffer.Concat | include/wirecc/wirecc.h:503-507 | the first `size` bytes of the data are appended, and the cursor advances by `size` |
| ByteBuffers.ByteBuffer.Store | include/wirecc/wirecc.h:326-331 | bytes stored from the cursor replace exactly the bytes they cover |
| ByteBuffers.CStringLength | include/wirecc/wirecc.h:437-440 | the index of the first NUL byte |
| ByteBuffers.U64RoundTrip | test/wirecc_test.cpp:67-78 | a written uint64 makes the size 8 and reads back unchanged |
| ByteBuffers.UintRoundTrip | test/wirecc_test.cpp:80-91 | a written unsigned int makes the size 4 and reads back unchanged |
| ByteBuffers.IntRoundTrip | test/wirecc_test.cpp:93-103 | every int, negatives included, reads back unchanged after taking 4 bytes |
| ByteBuffers.BoolRoundTrip | test/wirecc_test.cpp:129-140 | two bools read back in the order they were written |
| ByteBuffers.StringRoundTrip | test/wirecc_test.cpp:350-360 | every string shorter than 2^32 bytes, the empty one included, reads back unchanged after taking 4 + length bytes |
| ByteBuffers.CstringRoundTrip | test/wirecc_test.cpp:117-127 | a C string of at most 2^32 bytes, NUL included, reads back as the characters before its NUL |
| ByteBuffers.RsetRoundTrip | test/wirecc_test.cpp:362-372 | every ResourceSet of fewer than 2^32 members, the empty one included, reads back as the same set after taking 4 + 4·size bytes |
| ByteBuffers.NestedRoundTrip | test/wirecc_test.cpp:158-177 | an unsigned int and a string written into a buffer, nested in another buffer and extracted, read back unchanged |
| ByteBuffers.BufferRoundTrip | include/wirecc/wirecc.h:293-310 | any buffer shorter than 2^32 bytes, nested with writeBuffer and extracted after rewinding with readBuffer, comes back with the same contents and its cursor at 0; the outer cursor ends past the count and the contents |
| ByteBuffers.LoadThenConcat | test/wirecc_test.cpp:179-188 | after load the size is the loaded count; concat adds its count to both the size and the cursor |
| Combinations.Count | include/wirecc/wirecc.h:139-143 | the number of selected positions is at most the mask's length |
| Combinations.Falses | include/wirecc/wirecc.h:132 | `bmap.assign(n, false)`: n clear entries |
| Combinations.Trues | include/wirecc/wirecc.h:133 | `std::fill(..., true)`: n set entries |
| Combinations.Reverse | include/wirecc/wirecc.h:144 | the reversal step of next_permutation keeps the length |
| Combinations.LastRise | include/wirecc/wirecc.h:144 | next_permutation's pivot is the last position holding false followed by true |
| Combinations.LastTrue | include/wirecc/wirecc.h:144 | next_permutation's swap partner is the last true, and only falses follow it |
| Combinations.FirstMask | include/wirecc/wirecc.h:131-133 | the mask built on first use: n−k falses, then k trues; FirstMaskCount gives its length and count, RankFirst its rank 0 |
| Combinations.NextPermutation | include/wirecc/wirecc.h:144 | std::next_permutation on the mask: NextPermutationKeeps, NextPermutationGreater, NextPermutationWraps, NextPermutationRestarts and NextPermutationRank state what it does |
| Combinations.Selected | include/wirecc/wirecc.h:139-143 | the returned combination has as many elements as the mask selects |
| Combinations.CombinationGenerator.constructor | include/wirecc/wirecc.h:116-117 | a new generator has no mask yet and `greater` false |
| Combinations.CombinationGenerator.HasNext | include/wirecc/wirecc.h:122 | `greater`, or no mask yet and k ≤ n; AllCombinations shows it is initially true exactly when k ≤ n and stays true until the last combination, EmptyPoolNeverEnds shows it never turns false for n = k = 0 |
| Combinations.CombinationGenerator.Get | include/wirecc/wirecc.h:127-146 | returns the pool elements the current mask selects, in pool order, and sets the mask and `greater` to the result of next_permutation; the mask (first n−k false, then k true) is built on first use |
| Combinations.CountAppend | include/wirecc/wirecc.h:132-133 | the selections of two joined masks add up |
| Combinations.CountSnoc | include/wirecc/wirecc.h:139-143 | one more entry adds one selection when it is set |
| Combinations.CountTrues | include/wirecc/wirecc.h:133 | n set entries select n |
| Combinations.CountFalses | include/wirecc/wirecc.h:132 | n clear entries select nothing |
| Combinations.FirstMaskCount | include/wirecc/wirecc.h:131-133 | the first mask has the pool's length and selects exactly k |
| Combinations.ReverseIndex | include/wirecc/wirecc.h:144 | entry i of a reversal is entry n−1−i of the original |
| Combinations.ReverseShape | include/wirecc/wirecc.h:144 | reversing the last mask (trues, then falses) gives the first one |
| Combinations.NoRiseShape | include/wirecc/wirecc.h:144 | a mask with no false-before-true rise is all its trues followed by all its falses |
| Combinations.NoLastRise | include/wirecc/wirecc.h:144 | when the pivot search finds nothing, the mask has no rise |
| Combinations.SuffixShape | include/wirecc/wirecc.h:144 | after the pivot comes a false, then trues, then falses |
| Combinations.StepResult | include/wirecc/wirecc.h:144 | the advancing step sets the pivot and moves the remaining trues to the end |
| Combinations.AdvanceShape | include/wirecc/wirecc.h:144 | the swap-and-reverse step produces that shape |
| Combinations.TailCounts | include/wirecc/wirecc.h:144 | the step keeps the number of trues in the tail |
| Combinations.NextPermutationKeeps | include/wirecc/wirecc.h:144 | next_permutation keeps the mask's length and the number of selected elements |
| Combinations.NextPermutationGreater | include/wirecc/wirecc.h:144 | when it reports true, the new mask is strictly lexicographically greater (false < true) |
| Combinations.NextPermutationWraps | include/wirecc/wirecc.h:144 | it reports false exactly when the mask is the last arrangement |
| Combinations.NextPermutationRestarts | include/wirecc/wirecc.h:144 | when it reports false, the mask it leaves is the first arrangement again |
| Combinations.BinomialBeyond | include/wirecc/wirecc.h:122 | there are no ways to choose more than n elements |
| Combinations.BinomialPositive | include/wirecc/wirecc.h:122 | there is at least one way to choose k ≤ n elements |
| Combinations.RankAppend | include/wirecc/wirecc.h:144 | the rank contributed by a common prefix does not depend on the tail |
| Combinations.RankFirst | include/wirecc/wirecc.h:131-133 | the first mask has rank 0 |
| Combinations.RankLast | include/wirecc/wirecc.h:144 | the last mask has rank C(n,k)−1 |
| Combinations.RankBound | include/wirecc/wirecc.h:144 | every mask's rank is below C(n,k) |
| Combinations.NextPermutationRank | include/wirecc/wirecc.h:144 | each advancing step raises the rank by exactly one |
| Combinations.StepRanks | include/wirecc/wirecc.h:144 | the ranks of the tail before and after a step |
| Combinations.AdvancesBelowLast | include/wirecc/wirecc.h:122-146 | next_permutation reports true exactly when the rank is below C(n,k)−1, so `hasNext` stays true until the last combination |
| Combinations.SelectedFrom | include/wirecc/wirecc.h:139-143 | every returned element comes from the pool |
| Combinations.SelectedInjective | include/wirecc/wirecc.h:139-143 | over distinct elements, different masks return different combinations |
| Combinations.AllCombinations | include/wirecc/wirecc.h:116-146 | draining a generator over n ≥ 1 elements: nothing when k > n, otherwise exactly C(n,k) combinations of k elements each, all different when the elements are; the i-th combination is the pool-order selection of the k-element mask of rank i |
| Combinations.ListedSnoc | include/wirecc/wirecc.h:127-146 | the combination of the next mask in rank order extends the listing |
| Combinations.ListedSizes | include/wirecc/wirecc.h:139-143 | every listed combination has k elements |
| Combinations.ListedDistinct | include/wirecc/wirecc.h:139-144 | the listed combinations are pairwise different over distinct elements |
| Combinations.EmptyPoolNeverEnds | include/wirecc/wirecc.h:122-146 | with an empty pool and k = 0, `hasNext` is true, `get` returns the empty combination, and `hasNext` is still true afterwards |
| Sampling.RandomGenerator.constructor | include/wirecc/wirecc.h:168 | a new generator has an empty working list |
| Sampling.RandomGenerator.Reset | include/wirecc/wirecc.h:172 | the working list is emptied, so the next draw starts over from the whole map |
| Sampling.RandomGenerator.Get | include/wirecc/wirecc.h:178-194 | the key at `r mod size` of the working list (refilled from the map when it is empty) is returned and removed; the remaining keys plus the returned key are exactly the list before the draw; the returned key is always a key of the map |
| Sampling.Drawn | include/wirecc/wirecc.h:178-191 | a key taken from the working list, which never holds more than the map's keys, is a key of the map |
| Sampling.RemoveAt | include/wirecc/wirecc.h:190-192 | erasing one position removes exactly that element |
| Sampling.DrawAll | include/wirecc/wirecc.h:178-194 | as many draws as the map has keys return every key exactly once, whatever `rand()` returns |
| Sampling.DrawStep | include/wirecc/wirecc.h:178-194 | after each draw, the drawn keys and the remaining keys together make up the map's keys |
| Sampling.ResetStartsOver | include/wirecc/wirecc.h:172-194 | after reset, the next draw again chooses from the whole map |
| Sampling.TwoDraws | include/wirecc/wirecc.h:178-194 | two draws from a two-key map return both keys |
| Bitmaps.IsSetReadsBit | include/wirecc/wirecc.h:537-540 | isSet's `(flags & (1 << bit)) > 0` holds exactly when bit `bit` of the word is 1 |
| Bitmaps.MaskBits | include/wirecc/wirecc.h:526-530 | the mask 2^maxBits − 1 has exactly the bits below maxBits set |
| Bitmaps.MaskStep | include/wirecc/wirecc.h:526-530 | the mask for n+1 bits is the mask for n bits with bit n added |
| Bitmaps.SetBit | include/wirecc/wirecc.h:564-568 | after set(b), bit b is 1 and every other bit keeps its value |
| Bitmaps.SetBits | include/wirecc/wirecc.h:564-568 | after set(b), for every bit at once: bit b is 1 and the others keep their values |
| Bitmaps.UnsetOther | include/wirecc/wirecc.h:574-577 | after unset(b), a bit other than b keeps its value when below maxBits and is cleared otherwise |
| Bitmaps.UnsetOwn | include/wirecc/wirecc.h:574-577 | after unset(b), bit b is cleared when b < maxBits and kept otherwise |
| Bitmaps.UnsetBit | include/wirecc/wirecc.h:574-577 | both cases of unset, for any one bit |
| Bitmaps.UnsetBits | include/wirecc/wirecc.h:574-577 | both cases of unset, for every bit at once |
| Bitmaps.EmptyIffNoBits | include/wirecc/wirecc.h:543-549 | isEmpty holds exactly when no bit is set |
| Bitmaps.Bitmap.constructor | include/wirecc/wirecc.h:526-530 | a new bitmap has no flags set and the mask for its maxBits |
| Bitmaps.Bitmap.IsSet | include/wirecc/wirecc.h:537-540 | bit `bit` of the flags; IsSetReadsBit shows it is the source's `(flags & (1 << bit)) > 0` |
| Bitmaps.Bitmap.IsEmpty | include/wirecc/wirecc.h:546-549 | the flags are 0; EmptyIffNoBits shows this is exactly when no bit is set, EightBits and OneBit use it |
| Bitmaps.Bitmap.IsFull | include/wirecc/wirecc.h:555-558 | the flags equal the mask; FillAll shows that setting every bit below maxBits makes it hold |
| Bitmaps.Bitmap.GetFlags | include/wirecc/wirecc.h:591-594 | the flags word; EightBits states its value after each step of the test scenario |
| Bitmaps.Bitmap.Set | include/wirecc/wirecc.h:564-568 | the flags become the old flags with bit `bit` or-ed in; the mask is unchanged |
| Bitmaps.Bitmap.Unset | include/wirecc/wirecc.h:574-577 | the flags become the old flags and-ed with the mask with bit `bit` flipped |
| Bitmaps.Bitmap.Clear | include/wirecc/wirecc.h:582-585 | the flags become 0 and the mask is unchanged |
| Bitmaps.FillAll | include/wirecc/wirecc.h:555-568 | setting every bit below maxBits makes a new bitmap full, with the flags equal to the mask |
| Bitmaps.EightBits | test/wirecc_test.cpp:191-228 | an 8-bit bitmap starts empty, not full and with flags 0; setting bits 0, 3 and 7 gives 0x89 with bits 0, 3 and 7 set and bit 1 clear; unsetting bit 3 gives 0x81; setting all bits makes it full; clear makes it empty |
| Bitmaps.OneBit | test/wirecc_test.cpp:374-380 | a one-bit bitmap starts empty and is full after setting bit 0 |
| Bitmaps.TestedFlagsDiffer | test/wirecc_test.cpp:200-208 | bits 0, 3 and 7 make 0x89; the word 0b10010001 (0x91) differs, having bit 4 set and bit 3 clear |

## Left out

- `rand()` is not modelled. The value it returns is the parameter `r` of `Sampling.RandomGenerator.Get`, so the model says nothing about how the draws are distributed.
- The `Bitmap` constructor computes `std::pow(2, maxBits)` in floating point. The model restricts `maxBits` to below 64, where that value is exact, so the default `Bitmap()` with 64 bits is not modelled.
- In `Bitmap`, `isSet` and `unset` with a bit of 64 or more shift out of range, which is undefined behaviour in C++. The model requires `bit < 64`, as it does for `set`, where the source asserts it.
- `Bitmaps.Bitmap.Unset`: the contract states exactly what the source does. That includes clearing every bit at or above `maxBits` and leaving bit `bit` in place when `bit >= maxBits`; the lemmas `UnsetOwn` and `UnsetOther` spell this out.
- `deallocValues` (include/wirecc/wirecc.h:73-83) is not part of this model. It walks a range of a map of pointers, deletes each non-null value and sets it to null, which needs a heap of C++ objects that the model does not have.
- `Iterator` (include/wirecc/wirecc.h:55-61) is not modelled as a type. It holds a container's `const_iterator`s and its element count. Its one use in the core is the walk over a `ResourceSet` in `writeRset` (include/wirecc/wirecc.h:398-401), which is modelled by `WireFormat.Ascending`, the set's members in iteration order.
- `getIteratorFromMap` (include/wirecc/wirecc.h:92-100) is not part of this model. It looks a `ResourceId` up in a map and returns an `Iterator` over the `ResourceSet` it finds, or an empty `Iterator` when the key is missing. Nothing in the core calls it.
- `WIRECC_ASSERT` can be compiled in or out. The conditions it asserts, such as `bit < 64` in `set` and a non-empty map in the first `get`, become `requires` clauses.
- Both generators hold a pointer to the caller's container. The model takes a value snapshot of it (`pool`), so it does not capture changes the caller makes to the container while a generator is in use.
- The container of `CombinationGenerator` and the map of `RandomGenerator` are represented by their elements or keys in iteration order, as a sequence. A `ResourceSet` is a `set<int>` whose iteration order is ascending.
- `std::next_permutation` is modelled by its specified behaviour on a `vector<bool>`, as the function `NextPermutation` on `seq<bool>`.
- `Combinations.AllCombinations`: requires a non-empty pool. With an empty pool and k = 0 the generator never ends, because the mask is never built; `EmptyPoolNeverEnds` shows this.
- `std::string` is modelled as a sequence of bytes. `writeCstring` takes a byte sequence that contains a NUL, and writes the bytes before it.
- `pos` is an unbounded natural number rather than an `unsigned int`. Reads and writes past the end of the vector are undefined behaviour in the source and are excluded by `requires`.
- `WireFormat.ReadBackLengthPrefixed`, `WireFormat.ReadBackRset`, `ByteBuffers.StringRoundTrip`, `ByteBuffers.RsetRoundTrip`: require fewer than 2^32 bytes or members, because longer inputs do not round-trip. `writeString` and `writeBuffer` store the length as an `unsigned int`, so a longer string reads back as its first |s| mod 2^32 bytes (`WireFormat.ReadBackTruncated`), and a set of 2^32 members would read back as empty. `ByteBuffers.CstringRoundTrip` requires at most 2^32 bytes, NUL included, for the same reason.
- `ByteBuffers.ByteBuffer.Size`: the result is the length modulo 2^32, and the contract speaks only of vectors shorter than 2^32 bytes.
- `ByteBuffers.ByteBuffer.ReadBuffer`: requires that the target is a different buffer from the source. In the source, reading a buffer into itself would `load` over the data being read.
- `ByteBuffers.ByteBuffer.WriteBuffer`: requires that the nested buffer is a different buffer from the one written to. In the source, `writeBuffer(*this)` inserts a range of `buf` into `buf` itself after `writeUint` has grown it, which is undefined behaviour.
- `ByteBuffers.ByteBuffer.Data`: returns the whole vector as a value. It does not model a pointer into the vector, or the undefined `&buf[0]` of an empty vector.
- `Endian.Decode32`, `Endian.Decode16`: `be32decode`/`be16decode` shift bytes promoted to `int`, and `buf[0] << 24` can exceed INT_MAX. `Decode32`/`Decode16` take the mathematical value.
- The test files' printing and counting harness is left out. The library's own test scenarios are restated as client methods instead.

## Findings

| source | as written | input that shows it | evidently intended | confidence | as-written member | corrected member |
|---|---|---|---|---|---|---|
| test/wirecc_test.cpp:208 | after `set(0)`, `set(3)` and `set(7)` on an 8-bit bitmap, the test expects `getFlags() == 0b10010001` | `Bitmap bitmap(8)` followed by set(0), set(3) and set(7): the word is 0b10001001 (0x89). 0b10010001 (0x91) has bit 4 set and bit 3 clear | the expected word is 0b10001001 | not executed | Bitmaps.TestedFlagsDiffer | Bitmaps.EightBits |

# Multi-word fixed-width integers of vecpp, in Dafny

This project models the arbitrary-width integer engine of vecpp's `ap_math`
layer. It is instantiated at the width the tests use, 80 bits. It covers five
parts of the library:

- `detail::Int_storage<80, uint64_t>` (int_storage.h). This is a little-endian
  array of two 64-bit words. Only the 16 low bits of the last word are meant to
  be used; the bits above them are padding and should stay zero. It holds every
  limb algorithm: bit access, the padding mask, invert, add and subtract with
  carry, the bitwise operators, the two shifts, the unsigned compare, the
  single-word multiply built from half-word products, the leading-zero count,
  and the restoring long division `udivmod`.
- `Large_ap_int<80>` (large_signed.h). This is a two's-complement signed view
  over that storage: construction from `int64` and from decimal text,
  comparison, the unary and arithmetic operators, sign-magnitude
  multiplication and division, shifts, and the decimal stream output.
- `Large_ap_uint<80>` (large_unsigned.h). This is the same storage read as an
  unsigned number.
- The older self-contained `Large_ap_int<80>` (large.h). It has a single-word
  carry ripple for `+= int64` and `-= int64` and a word-against-`int64`
  compare. Its long division compares with the signed order.
- `std::numeric_limits<Large_ap_int<80>>` (limits.h): `min`, `lowest`, `max`,
  `digits`, `digits10` and `is_modulo`.

## Layout

Each C++ class whose methods update words in place is a Dafny `class`:

| Dafny | C++ | Fields |
|---|---|---|
| `IntStorage.Storage` | `Int_storage` | `const data: array<Word>` |
| `LargeSigned.LargeInt` | `Large_ap_int` of large_signed.h | `const data_: Storage` |
| `LargeUnsigned.LargeUint` | `Large_ap_uint` | `const data_: Storage` |
| `LegacyLarge.LegacyInt` | `Large_ap_int` of large.h | `const v_: Storage` |

The methods have `modifies` clauses on the word arrays. Their `ensures` clauses
state the new words or the value the words stand for.

The modules are:

| Module | Contents |
|---|---|
| `Words` | `uint64_t` as `nat < 2^64`. Every native wrap-around is written as `% 2^64`. `&`, `|` and `^` are defined bit by bit. |
| `Limbs` | Abstraction functions (below), and the constants `W = 2`, `LW = 16`, `BITS = 80`. |
| `LimbOps` | The specification functions of the word algorithms (`Inverted`, `Filled`, `LShifted`, `RShifted`, `RShiftedFixed`, `Clz`, …) and their value lemmas. |
| `WordLoops` | The loops of int_storage.h as methods over `array<Word>`, each proved against those functions. |
| `DivisionFacts` | The long division on values (`DivLoop`, `UDivModValues`), its loop invariant and its correctness. |
| `IntStorage` | The `Storage` class. |
| `Decimal` | Decimal text and the digit generation of the stream operators. |
| `Wrapping` | Arithmetic modulo 2^80. |
| `SignedValues` | The signed meaning of the operators: `Quotient`, `Remainder`, `ParseSigned`, `RenderSigned`. |
| `LargeSigned`, `LargeUnsigned`, `LegacyLarge`, `Limits` | The classes and limits above. |

The abstraction functions in `Limbs` are:

- `Val(s)`, the little-endian value of the words;
- `Low(s) = Val(s) mod 2^80`;
- `SVal(s)`, the two's-complement reading of `Low(s)`;
- `Wrap` and `Signed`, which reduce an integer modulo 2^80 to the unsigned and
  the signed range.

I/O, clocks and randomness do not occur in the core. The `std::ostream` in the
stream operators is replaced by the returned string.

## Behaviour worth knowing

The first three points below are what the code does, and the model follows
it. The last one is a defect, and the model states the corrected shift beside
the shift as written:

- **Sign of `%`.** The signed `%` gives the remainder the sign `neg(a) xor
  neg(b)` (large_signed.h:398-421), not the dividend's sign. `7 % -2` is `-1`,
  and `a == (a / b) * b + a % b` holds only for `b > 0` or an exact division
  (`SignedValues.RemainderSignExample`, `SignedValues.RemainderIdentity`).
- **Zero renders as empty text.** The stream operators write no digit at all
  for zero (large_signed.h:519, large_unsigned.h:407), not `"0"`.
- **No zero-divisor guard.** Division does not fail on a zero divisor. Its
  result for a zero divisor is stated (`LargeUnsigned.UnsignedQuotient`).
  A zero divisor under a numerator with bit 79 set makes `set_bit` go out of
  range, so that case is a precondition.
- **Unsigned `>>` fills with ones.** The unsigned right shift calls the
  sign-filling `rshift` (large_unsigned.h:386-391). `LargeUnsigned.LargeUint.ShrAssign`
  is the corrected logical shift, and `LargeUnsigned.SignFilledShiftExample`
  is the shift as written. See the Findings table.

Several operators of the classes are stated over five corrected operations:
the clearing `-=`, the clearing `<<=`, the clearing Self `+=` of large.h, the
`rshift` that zeroes its vacated words, and the `udivmod` that halves its
divisor logically. "## Left out" has one line per correction. Each line lists by
full name the members built on that correction, and names the Findings rows that
hold the defect, its as-written exhibit and its corrected member.

## Model

| member | source | states |
|---|---|---|
| Words.LowHalf | include/vecpp/ap_math/ap_int/int_storage.h:13-18 | The mask `~0 >> 32` keeps the 32 low bits: the result is below 2^32 and equals `v mod 2^32`. |
| Words.HighHalf | include/vecpp/ap_math/ap_int/int_storage.h:20-24 | `v >> 32` is below 2^32, and `v == high * 2^32 + low_half(v)`. |
| Words.HalfMask | include/vecpp/ap_math/ap_int/int_storage.h:15-16 | The mask `~0 >> 32` is `2^32 - 1`. |
| Words.AddCarryRule | include/vecpp/ap_math/ap_int/int_storage.h:124-131 | The per-word carry rule of `add` detects overflow exactly: the new word is `(l + r + c) mod 2^64`, and the test (`<=` with carry-in, `<` without) is true exactly when the true sum reaches 2^64. |
| Words.SubBorrowRule | include/vecpp/ap_math/ap_int/int_storage.h:143-150 | The per-word borrow rule of `subtract` detects underflow exactly: the new word is `(l - r - c) mod 2^64`, and the test (`>=` with borrow-in, `>` without) is true exactly when the true difference is negative. |
| Words.HalfProduct | include/vecpp/ap_math/ap_int/int_storage.h:248-251 | A product of two half words never wraps a 64-bit word. |
| Words.HalfDecomposition | include/vecpp/ap_math/ap_int/int_storage.h:244-251 | The schoolbook split of a 64 x 64 product into four 32 x 32 partial products, none above `(2^32-1)^2`. |
| Words.AddCarryExact | include/vecpp/ap_math/ap_int/int_storage.h:256-259 | `low += x; if (low < x) ++high` adds `x` to the double word exactly while the high word has room. |
| Words.AddCrossExact | include/vecpp/ap_math/ap_int/int_storage.h:253-263 | Adding a cross product `mid * 2^32` to the pair (high from the half, low from the shifted word with its carry) is exact while the high word has room. |
| Words.MulWordCorrect | include/vecpp/ap_math/ap_int/int_storage.h:239-272 | The (low, high) pair one pass of `mul` computes is the exact double-word value `src * rhs + carry`: no wrapping addition inside it loses a carry. |
| Words.WordBitwiseBits | include/vecpp/ap_math/ap_int/int_storage.h:155-171 | Every bit of a word `&`, `\|` or `^` is the Boolean operator applied to the operands' bits at that position. |
| Words.SetBitBits | include/vecpp/ap_math/ap_int/int_storage.h:67-70 | After setting bit p, bit p is one and every other bit is unchanged. |
| Words.OrPow2 | include/vecpp/ap_math/ap_int/int_storage.h:69 | OR with the single-bit mask 2^j sets bit j, adding 2^j when it was clear and leaving the word alone when it was set. |
| Words.AndPow2 | include/vecpp/ap_math/ap_int/int_storage.h:64 | AND with the single-bit mask 2^j is non-zero exactly when bit j is set. |
| Words.ShiftPair | include/vecpp/ap_math/ap_int/int_storage.h:184-186 | `(hi << s) \| (lo >> (64 - s))`, the word a two-word shift assembles, is the plain sum of its two disjoint parts. |
| Limbs.Constants | include/vecpp/ap_math/ap_int/int_storage.h:32-37 | At 80 bits: two words, 16 bits used in the last word, `2^80 = 2^16 * 2^64`, and the two words span `2^128`. |
| Limbs.FromVal | include/vecpp/ap_math/ap_int/int_storage.h:91 | Every value below 2^128 has a two-word array standing for it. |
| Limbs.ValInjective | include/vecpp/ap_math/ap_int/int_storage.h:91 | Two word arrays with the same value are the same array. |
| Limbs.CleanIsBounded | include/vecpp/ap_math/ap_int/int_storage.h:33-37 | The padding bits are all zero exactly when the value is below 2^80. |
| Limbs.ClearedValue | include/vecpp/ap_math/ap_int/int_storage.h:95-100 | `clear_unused_bits` leaves `Val mod 2^80`, with the padding clear. |
| SignedValues.CleanCleared | include/vecpp/ap_math/ap_int/int_storage.h:95-100 | Clearing clean words changes nothing, so clearing is idempotent. |
| Limbs.SValWraps | include/vecpp/ap_math/ap_int/large_signed.h:97 | The signed reading of the words reduces to their low 80 bits, and it is the signed reduction of their value. |
| Limbs.SignedInRange | include/vecpp/ap_math/ap_int/large_signed.h:104-115 | Every integer in `[-2^79, 2^79)` is its own signed reduction. |
| Limbs.WrapOfSigned | include/vecpp/ap_math/ap_int/large_signed.h:97 | Reading an 80-bit pattern as signed and wrapping it back gives the same pattern. |
| LimbOps.ValDivMod | include/vecpp/ap_math/ap_int/int_storage.h:42-48 | Word 0 is the value mod 2^64, and word 1 is the value divided by 2^64. |
| LimbOps.BitOfVal | include/vecpp/ap_math/ap_int/int_storage.h:54-65 | Bit p of the value is bit `p % 64` of word `p / 64`. |
| LimbOps.NegativeBit | include/vecpp/ap_math/ap_int/large_signed.h:97 | Bit 79 of the value is set exactly when the signed value is negative. |
| LimbOps.SignBit | include/vecpp/ap_math/ap_int/large.h:145 | Bit 15 of the last word is set exactly when the low 80 bits reach 2^79, and exactly when the signed value is negative. |
| LimbOps.FilledValue | include/vecpp/ap_math/ap_int/int_storage.h:103-108 | `fill_unused_bits` keeps the low 80 bits and sets all padding bits, so a negative pattern becomes its signed value plus 2^128. |
| LimbOps.InvertedValue | include/vecpp/ap_math/ap_int/int_storage.h:111-117 | `invert` leaves `2^80 - 1 - Low`, with the padding clear, so the signed value `v` becomes `-v - 1`. |
| LimbOps.InvertedTwice | include/vecpp/ap_math/ap_int/int_storage.h:111-117 | On clean storage, inverting twice gives back the same words. |
| LimbOps.BitwiseClean | include/vecpp/ap_math/ap_int/int_storage.h:155-171 | `&`, `\|` and `^` of clean storages are clean. |
| LimbOps.BitwiseValueBits | include/vecpp/ap_math/ap_int/int_storage.h:155-171 | Every bit of the word-wise `&`, `\|` or `^` of two arrays is the Boolean operator on the operands' bits. |
| LimbOps.Sign | include/vecpp/ap_math/ap_int/int_storage.h:223-233 | The result of a compare is -1, 0 or 1. |
| LimbOps.CompareAtWord | include/vecpp/ap_math/ap_int/int_storage.h:223-233 | The highest word in which two arrays differ decides their order. |
| LimbOps.Log2 | include/vecpp/ap_math/ap_int/int_storage.h:280-314 | The index of the top set bit: `2^r <= x < 2^(r+1)`. |
| LimbOps.Log2Unique | include/vecpp/ap_math/ap_int/int_storage.h:280-314 | That index is the only one with this property. |
| LimbOps.Clz | include/vecpp/ap_math/ap_int/int_storage.h:280-314 | The leading-zero count of an 80-bit value is at most 80. |
| LimbOps.LShiftedValue | include/vecpp/ap_math/ap_int/int_storage.h:174-191 | `lshift(n)` gives `Val * 2^n mod 2^128`. For `n == 0` this is the same value, and the padding is not cleared. |
| LimbOps.LShiftBitsWords | include/vecpp/ap_math/ap_int/int_storage.h:180-186 | For `0 < n < 64`, each word receives its own bits moved up and the top bits of the word below. |
| LimbOps.RMovedValue | include/vecpp/ap_math/ap_int/int_storage.h:203-208 | The word-moving loop of `rshift(n)` leaves `floor(Val / 2^n)` in the words it writes. |
| LimbOps.RMovedTop | include/vecpp/ap_math/ap_int/int_storage.h:203-208 | That loop leaves the vacated top words as they were. |
| LimbOps.RShiftedUnsigned | include/vecpp/ap_math/ap_int/int_storage.h:194-220 | `rshift` as written, with bit 79 clear: the low words hold `floor(Val / 2^n)` and the vacated words are unchanged. |
| LimbOps.RShiftedSmall | include/vecpp/ap_math/ap_int/int_storage.h:194-220 | `rshift` as written, with bit 79 clear and `n < 64`, is exactly `floor(Val / 2^n)` and keeps clean storage clean. |
| LimbOps.RShiftedSigned | include/vecpp/ap_math/ap_int/int_storage.h:194-220 | `rshift` as written, with bit 79 set, is the sign-extended floor shift of the signed value with clean padding. |
| LimbOps.FillMovedValue | include/vecpp/ap_math/ap_int/int_storage.h:197-214 | After the padding fill, the moving loop and the all-ones vacated words, a negative value holds its floor-shifted signed value plus 2^128. |
| LimbOps.TopMask | include/vecpp/ap_math/ap_int/int_storage.h:216 | The intended top mask has the `bs` top bits of a word set. It is written with 64-bit arithmetic, where the source uses an `int`-typed `1 << …`. |
| LimbOps.TopMaskOr | include/vecpp/ap_math/ap_int/int_storage.h:216-217 | OR with that mask adds the mask to a word whose top `bs` bits are clear. |
| LimbOps.RShiftedStale | include/vecpp/ap_math/ap_int/int_storage.h:203-220 | As written, `[0, 1] >> 64` leaves `[1, 1]`, which is not `Val / 2^64`. |
| LimbOps.RShiftedAgrees | include/vecpp/ap_math/ap_int/int_storage.h:194-220 | The corrected shift agrees with the shift as written whenever `n < 64` or bit 79 is set. |
| LimbOps.RZeroedValue | include/vecpp/ap_math/ap_int/int_storage.h:203-208 | Moving the words down and zeroing the vacated words gives `floor(Val / 2^n)`. |
| LimbOps.RShiftedFixedUnsigned | include/vecpp/ap_math/ap_int/int_storage.h:194-220 | The corrected `rshift`, with bit 79 clear, is `floor(Val / 2^n)` and keeps clean storage clean. |
| LimbOps.RShiftedFixedSigned | include/vecpp/ap_math/ap_int/int_storage.h:194-220 | The corrected `rshift` of clean storage is clean, and its signed value is `floor(SVal / 2^n)` for either sign. |
| LimbOps.ClearSigned | include/vecpp/ap_math/ap_int/int_storage.h:218 | Clearing the padding of `y + 2^128` for a negative `y` in range leaves the signed value `y`. |
| WordLoops.WhichWord | include/vecpp/ap_math/ap_int/int_storage.h:42-44 | A bit position below 80 lies in one of the two words. |
| WordLoops.WhichBit | include/vecpp/ap_math/ap_int/int_storage.h:46-48 | `which_word(p) * 64 + which_bit(p) == p`, with `which_bit(p) < 64`. |
| WordLoops.MaskBit | include/vecpp/ap_math/ap_int/int_storage.h:50-52 | The mask is `2^which_bit(p)`. |
| WordLoops.BitAt | include/vecpp/ap_math/ap_int/int_storage.h:62-65 | `get_bit(p)` is bit p of the value. |
| WordLoops.SetBitValue | include/vecpp/ap_math/ap_int/int_storage.h:67-70 | `set_bit(p)` adds 2^p to the value when bit p was clear, and leaves it when set. |
| WordLoops.SetBitClean | include/vecpp/ap_math/ap_int/int_storage.h:67-70 | `set_bit(p)` with `p < 80` keeps clean storage clean. |
| WordLoops.SetBitIn | include/vecpp/ap_math/ap_int/int_storage.h:67-70 | Bit p becomes one, every other bit keeps its value, and clean storage stays clean. |
| WordLoops.PaddingMask | include/vecpp/ap_math/ap_int/int_storage.h:96-97 | The mask `~0 >> (64 - 16)` is `2^16 - 1`. |
| WordLoops.ClearUnused | include/vecpp/ap_math/ap_int/int_storage.h:95-100 | The words after the clear are `Cleared` of the old words, whose value is `Val mod 2^80`. |
| WordLoops.FillUnused | include/vecpp/ap_math/ap_int/int_storage.h:103-108 | The words after the fill are `Filled` of the old words, whose padding bits are all set. |
| WordLoops.InvertIn | include/vecpp/ap_math/ap_int/int_storage.h:111-117 | The words after `invert` are `Inverted` of the old words. |
| WordLoops.AddWords | include/vecpp/ap_math/ap_int/int_storage.h:122-132 | The carry loop: new value plus `carry * 2^128` equals the sum of the old values. |
| WordLoops.SubWords | include/vecpp/ap_math/ap_int/int_storage.h:140-151 | The borrow loop: new value minus `borrow * 2^128` equals the difference of the old values. |
| WordLoops.AddStep | include/vecpp/ap_math/ap_int/int_storage.h:123-131 | One pass of the carry loop keeps the sum invariant on the prefix processed so far. |
| WordLoops.SubStep | include/vecpp/ap_math/ap_int/int_storage.h:141-150 | One pass of the borrow loop keeps the difference invariant on the prefix processed so far. |
| WordLoops.AndIn | include/vecpp/ap_math/ap_int/int_storage.h:155-159 | The words become the word-wise AND. |
| WordLoops.OrIn | include/vecpp/ap_math/ap_int/int_storage.h:161-165 | The words become the word-wise OR. |
| WordLoops.XorIn | include/vecpp/ap_math/ap_int/int_storage.h:167-171 | The words become the word-wise XOR. |
| WordLoops.MoveUp | include/vecpp/ap_math/ap_int/int_storage.h:182-187 | The top-down loop of `lshift`: each word from `ws` up gets its shifted source words. The words below `ws` are not touched, and each source word is read before it is overwritten. |
| WordLoops.ZeroBelow | include/vecpp/ap_math/ap_int/int_storage.h:188-190 | The low `ws` words are zeroed and the others kept. |
| WordLoops.LShiftIn | include/vecpp/ap_math/ap_int/int_storage.h:174-191 | The words after `lshift(n)` are `LShifted(old, n)`, whose value is `Val * 2^n mod 2^128`. |
| WordLoops.MoveDown | include/vecpp/ap_math/ap_int/int_storage.h:203-208 | The bottom-up loop of `rshift` gives the moved words `RMoved`. |
| WordLoops.SetVacated | include/vecpp/ap_math/ap_int/int_storage.h:210-213 | The vacated top `ws` words receive the given word, and the others are kept. |
| WordLoops.FillVacated | include/vecpp/ap_math/ap_int/int_storage.h:210-218 | All-ones vacated words and the top mask (`FillTop`). |
| WordLoops.RShiftIn | include/vecpp/ap_math/ap_int/int_storage.h:194-220 | The words after `rshift(n)` are `RShiftedFixed(old, n)`. |
| WordLoops.CompareWords | include/vecpp/ap_math/ap_int/int_storage.h:223-233 | The scan from the top word down returns the sign of `Val(a) - Val(b)`. So `compare(a, a) == 0`, and swapping the operands negates the result. |
| WordLoops.MulSeqStep | include/vecpp/ap_math/ap_int/int_storage.h:239-272 | One pass of `mul` keeps `Val(prefix) + carry * 2^(64 i) == Val(source prefix) * rhs`. |
| WordLoops.MulWords | include/vecpp/ap_math/ap_int/int_storage.h:236-277 | After the loop, the new value plus `carry * 2^128` equals `old value * rhs`. |
| WordLoops.TopBitTest | include/vecpp/ap_math/ap_int/int_storage.h:286-290 | Testing the mask `2^(top-1)` reads the top bit of the `top` low bits. |
| WordLoops.ClzStep | include/vecpp/ap_math/ap_int/int_storage.h:286-292 | A pass of the shifting loop with a clear top bit keeps the count invariant and counts one more zero. |
| WordLoops.ClzEnd | include/vecpp/ap_math/ap_int/int_storage.h:286-292 | When the top bit is found, the count is `top - 1 - Log2(word)`. |
| WordLoops.LeadingZerosIn | include/vecpp/ap_math/ap_int/int_storage.h:283-292 | The shifting loop on one word with a non-zero low part counts `top - 1 - Log2` of that part. |
| WordLoops.ClzTopWord | include/vecpp/ap_math/ap_int/int_storage.h:283-292 | When the last word's 16 used bits are non-zero, the count of the whole value is found in that word. |
| WordLoops.ClzLowWord | include/vecpp/ap_math/ap_int/int_storage.h:294-310 | When the last word is zero, the count is 16 plus the count in the 64 bits below. |
| WordLoops.ClzZeroWords | include/vecpp/ap_math/ap_int/int_storage.h:280-314 | Zero has 80 leading zeros. |
| WordLoops.LeadingZeros | include/vecpp/ap_math/ap_int/int_storage.h:280-314 | `count_leading_zeros` is the leading-zero count of the low 80 bits. It requires the last word to be either zero, or non-zero in its 16 used bits. |
| IntStorage.Storage.constructor | include/vecpp/ap_math/ap_int/int_storage.h:91 | Word 0 holds `w` and the others are zero. The storage is clean with value `w`. |
| IntStorage.Storage.Copy | include/vecpp/ap_math/ap_int/int_storage.h:91 | The copy has the same words in a new array. |
| IntStorage.Storage.Assign | include/vecpp/ap_math/ap_int/int_storage.h:91 | Assignment replaces the words with the source's. |
| IntStorage.Storage.GetBit | include/vecpp/ap_math/ap_int/int_storage.h:62-65 | `get_bit(p)` for `p < 80` is bit p of the value. |
| IntStorage.Storage.SetBit | include/vecpp/ap_math/ap_int/int_storage.h:67-70 | Bit p becomes one and every other bit keeps its value. The value grows by 2^p exactly when the bit was clear, and clean storage stays clean. |
| IntStorage.Storage.ClearUnusedBits | include/vecpp/ap_math/ap_int/int_storage.h:95-100 | The words after the clear are `Cleared` of the old words. |
| IntStorage.Storage.FillUnusedBits | include/vecpp/ap_math/ap_int/int_storage.h:103-108 | The words after the fill are `Filled` of the old words. |
| IntStorage.Storage.Invert | include/vecpp/ap_math/ap_int/int_storage.h:111-117 | The words after `invert` are `Inverted` of the old words. |
| IntStorage.Storage.Add | include/vecpp/ap_math/ap_int/int_storage.h:121-135 | The result is clean, with value `(a + b) mod 2^80`. The returned carry is the carry out of the top word: `a + b >= 2^128`. |
| IntStorage.Storage.Subtract | include/vecpp/ap_math/ap_int/int_storage.h:139-152 | The value is `(a - b) mod 2^128`, with no padding clear, and the borrow is `a < b`. |
| IntStorage.DifferenceClean | include/vecpp/ap_math/ap_int/int_storage.h:139-152 | After `subtract` on clean operands, the padding is clean exactly when no borrow reaches it, that is when `b <= a`. |
| IntStorage.Storage.BinaryAnd | include/vecpp/ap_math/ap_int/int_storage.h:155-159 | The words become the word-wise AND. |
| IntStorage.Storage.BinaryOr | include/vecpp/ap_math/ap_int/int_storage.h:161-165 | The words become the word-wise OR. |
| IntStorage.Storage.BinaryXor | include/vecpp/ap_math/ap_int/int_storage.h:167-171 | The words become the word-wise XOR. |
| IntStorage.Storage.LShift | include/vecpp/ap_math/ap_int/int_storage.h:174-191 | The words become `LShifted(old, n)`. |
| IntStorage.Storage.RShift | include/vecpp/ap_math/ap_int/int_storage.h:194-220 | The words become `RShiftedFixed(old, n)`: vacated words zeroed, or all ones and masked when bit 79 was set. |
| IntStorage.Storage.Compare | include/vecpp/ap_math/ap_int/int_storage.h:223-233 | The result is the sign of `Val(this) - Val(rhs)`. |
| IntStorage.Storage.Mul | include/vecpp/ap_math/ap_int/int_storage.h:236-277 | The result is clean, with value `(a * rhs) mod 2^80`, and the returned carry is `(a * rhs) / 2^128`. |
| IntStorage.Storage.CountLeadingZeros | include/vecpp/ap_math/ap_int/int_storage.h:280-314 | On clean storage, `count_leading_zeros` is 80 for zero and `79 - msb` otherwise. |
| IntStorage.Storage.UDivMod | include/vecpp/ap_math/ap_int/int_storage.h:317-357 | Quotient and remainder are clean. They are `(0, n)` if `n < d` and `(1, 0)` if `n == d`. Otherwise, for `d != 0`, `q * d + r == n` with `r < d`, and a zero divisor returns the numerator as the remainder. |
| IntStorage.Storage.LongDivision | include/vecpp/ap_math/ap_int/int_storage.h:329-356 | Past the early exits, the result equals `UDivModValues` of the two values. |
| IntStorage.Storage.StartDivision | include/vecpp/ap_math/ap_int/int_storage.h:329-338 | The divisor is aligned by the leading-zero gap `s0`, with value `d * 2^s0 < 2^80`. The quotient is zero and the remainder is the numerator. |
| IntStorage.Alignment | include/vecpp/ap_math/ap_int/int_storage.h:329-333 | The leading-zero gap is a non-negative shift below 80 that keeps the shifted divisor below 2^80. |
| IntStorage.DivideLoop | include/vecpp/ap_math/ap_int/int_storage.h:340-354 | The loop from `shift` down leaves the quotient and remainder `DivLoop` names. |
| IntStorage.DivideStep | include/vecpp/ap_math/ap_int/int_storage.h:341-353 | One pass is one step of `DivLoop`, including the two breaks. |
| IntStorage.SubtractAt | include/vecpp/ap_math/ap_int/int_storage.h:342-345 | `remainder.subtract(divisor)` without a borrow, then `result.set_bit(shift)`. |
| IntStorage.HalveDivisor | include/vecpp/ap_math/ap_int/int_storage.h:353 | The divisor becomes `floor(dv / 2)` and stays clean. |
| IntStorage.AddWrap | include/vecpp/ap_math/ap_int/int_storage.h:133 | The clear after the carry loop reduces the sum modulo 2^80. |
| IntStorage.MulWrap | include/vecpp/ap_math/ap_int/int_storage.h:274-276 | The clear after the multiply loop reduces the product modulo 2^80. |
| DivisionFacts.ClzBounds | include/vecpp/ap_math/ap_int/int_storage.h:280-314 | A non-zero value lies between the powers of two its leading-zero count names. |
| DivisionFacts.ClzMonotone | include/vecpp/ap_math/ap_int/int_storage.h:280-314 | A larger value has no more leading zeros. |
| DivisionFacts.DivideStart | include/vecpp/ap_math/ap_int/int_storage.h:329-333 | For `0 < d < n`, the gap `s0` puts `d * 2^s0` below 2^80 and `n < d * 2^(s0+1)`. |
| DivisionFacts.DivInvStart | include/vecpp/ap_math/ap_int/int_storage.h:335-338 | The loop invariant holds on entry. |
| DivisionFacts.DivSubtracted | include/vecpp/ap_math/ap_int/int_storage.h:342-345 | Subtracting and setting the clear bit `shift` keeps `n == q * d + r`. |
| DivisionFacts.DivSkipped | include/vecpp/ap_math/ap_int/int_storage.h:341 | Skipping a bit keeps the invariant. |
| DivisionFacts.DivHalved | include/vecpp/ap_math/ap_int/int_storage.h:353 | Halving the divisor as `shift` steps down keeps the invariant. |
| DivisionFacts.DivLoopDone | include/vecpp/ap_math/ap_int/int_storage.h:340-354 | The loop, which ends because `shift` strictly decreases, leaves `n == q * d + r` with `r < d` and the quotient below `2^(s0+1)`. |
| DivisionFacts.QuotientBelow | include/vecpp/ap_math/ap_int/int_storage.h:340-354 | For divisors from 2 on, the quotient is below the numerator. |
| DivisionFacts.DivDoneSpec | include/vecpp/ap_math/ap_int/int_storage.h:340-356 | What the loop leaves meets the whole `udivmod` specification. |
| DivisionFacts.SpecBelow | include/vecpp/ap_math/ap_int/int_storage.h:320-323 | The early exit `(0, *this)` meets the specification. |
| DivisionFacts.SpecEqual | include/vecpp/ap_math/ap_int/int_storage.h:324-327 | The early exit `(1, 0)` meets the specification. |
| DivisionFacts.Halve | include/vecpp/ap_math/ap_int/int_storage.h:353 | The sign-filling `rshift(1)` halves a divisor below 2^79 and keeps bit 79 of one above. |
| DivisionFacts.Halving | include/vecpp/ap_math/ap_int/int_storage.h:353 | With a logical shift, or a divisor below 2^79, halving is `floor(dv / 2)`. |
| DivisionFacts.DivLoopPass | include/vecpp/ap_math/ap_int/int_storage.h:341-353 | One pass of the loop: the exact-division break, the subtracting step and the skipping step. |
| DivisionFacts.UDivModCorrect | include/vecpp/ap_math/ap_int/int_storage.h:317-357 | The division with a logical halving meets the specification for every non-zero divisor. With the sign-filling halving as written, it meets it when bit 79 of the numerator is clear. |
| DivisionFacts.NeverFits | include/vecpp/ap_math/ap_int/int_storage.h:353 | With the halving as written, a divisor pushed above 2^79 never comes back below a numerator of 2^79. |
| DivisionFacts.SignFilledByTen | include/vecpp/ap_math/ap_int/int_storage.h:340-354 | As written, the division by ten of the stream operators gives `2^79 / 10 == (0, 2^79)`. |
| DivisionFacts.SignFilledDivision | include/vecpp/ap_math/ap_int/int_storage.h:340-354 | As written, `2^79 / 3` gives `(0, 2^79)`, while the logical halving gives the true quotient and remainder. |
| Decimal.DigitValue | include/vecpp/ap_math/ap_int/large_signed.h:131-136 | The value of a digit character is below 10. |
| Decimal.DigitChar | include/vecpp/ap_math/ap_int/large_signed.h:520-521 | The character for a digit below 10 is a digit whose value is that digit. |
| Decimal.DecimalSnoc | include/vecpp/ap_math/ap_int/large_signed.h:129-137 | One more digit makes the value `x * 10 + d`. |
| Decimal.LeadingDigits | include/vecpp/ap_math/ap_int/large_signed.h:129-137 | The run the constructors read is all digits, is a prefix of the text, and is followed by a non-digit or by the end of the text. |
| Decimal.LeadingDigitsStop | include/vecpp/ap_math/ap_int/large_signed.h:129-137 | A digit run that ends at a non-digit or at the end of the text is the leading run. |
| Decimal.Digits | include/vecpp/ap_math/ap_int/large_unsigned.h:407-414 | The decimal spelling has no leading zero and is empty exactly for zero. |
| Decimal.ValueOfDigits | include/vecpp/ap_math/ap_int/large_unsigned.h:407-414 | The spelling of n reads back as n. |
| Decimal.DigitsOfValue | include/vecpp/ap_math/ap_int/large_unsigned.h:107-125 | Canonical text is the spelling of its value. |
| Decimal.DigitByte | include/vecpp/ap_math/ap_int/large_unsigned.h:409 | `'0' + w` written as a character is the digit of `w` for `w < 10`. |
| Decimal.RenderedDigits | include/vecpp/ap_math/ap_int/large_unsigned.h:400-416 | With the corrected `udivmod`, the digits the repeated division by ten produces are the decimal spelling of the value. |
| Decimal.RenderAgrees | include/vecpp/ap_math/ap_int/large_unsigned.h:400-416 | Below 2^79, the digits the stream operator produces with `udivmod` as written are the same: the decimal spelling. |
| Decimal.RenderSignAsWritten | include/vecpp/ap_math/ap_int/large_unsigned.h:400-416 | As written, 2^79 is rendered as `0`, which is not its spelling. |
| Decimal.ReadRendered | include/vecpp/ap_math/ap_int/large_unsigned.h:400-416 | The rendered digits are all digits and read back as the value. |
| Decimal.DecimalBelow | include/vecpp/ap_math/ap_int/large_unsigned.h:107-125 | k digits stand for a number below 10^k. |
| Decimal.LeadingZeroValue | include/vecpp/ap_math/ap_int/large_signed.h:129-137 | A leading `0` does not change the value. |
| Decimal.Reverse | include/vecpp/ap_math/ap_int/large_signed.h:526 | The reversal has the same length, and character i comes from the mirrored position. |
| Wrapping.WrapAdd | include/vecpp/ap_math/ap_int/large_signed.h:228-232 | Wrapping the operands first does not change the wrapped sum. |
| Wrapping.WrapMul | include/vecpp/ap_math/ap_int/large_signed.h:312-343 | Wrapping the operands first does not change the wrapped product. |
| Wrapping.WrapNeg | include/vecpp/ap_math/ap_int/large_signed.h:179-183 | Wrapping first does not change the wrapped negation. |
| Wrapping.SignedAdd | include/vecpp/ap_math/ap_int/large_signed.h:235-244 | Signed reduction commutes with addition, so both groupings of four copies of `INT64_MAX` agree. |
| Wrapping.SignedMul | include/vecpp/ap_math/ap_int/large_signed.h:312-343 | Signed reduction commutes with multiplication. |
| Wrapping.SignedNeg | include/vecpp/ap_math/ap_int/large_signed.h:179-183 | Signed reduction commutes with negation. |
| SignedValues.Quotient | include/vecpp/ap_math/ap_int/large_signed.h:353-376 | The quotient of two 80-bit values is in range. |
| SignedValues.Remainder | include/vecpp/ap_math/ap_int/large_signed.h:398-421 | The remainder of two 80-bit values is in range. |
| SignedValues.QuotientTruncates | include/vecpp/ap_math/ap_int/large_signed.h:353-421 | `/` is `\|a\| / \|b\|` negated when the signs differ (truncation toward zero, wrapped only for `MIN / -1`). `%` is `\|a\| mod \|b\|` negated when the signs differ. |
| SignedValues.QuotientFits | include/vecpp/ap_math/ap_int/large_signed.h:353-376 | Away from `MIN / -1`, the truncated quotient needs no wrap. |
| SignedValues.RemainderIdentity | include/vecpp/ap_math/ap_int/large_signed.h:398-421 | With the sign rule as coded, `a == (a / b) * b + a % b` holds exactly when `b > 0` or the division is exact. |
| SignedValues.QuotientAsWritten | include/vecpp/ap_math/ap_int/large_signed.h:353-376 | `/=` over `udivmod` as written gives a value in range. |
| SignedValues.RemainderAsWritten | include/vecpp/ap_math/ap_int/large_signed.h:398-421 | `%=` over `udivmod` as written gives a value in range. |
| SignedValues.AsWrittenAgrees | include/vecpp/ap_math/ap_int/large_signed.h:353-421 | Away from a `MIN` dividend, `/=` and `%=` as written equal `Quotient` and `Remainder`. |
| SignedValues.MinimumByThree | include/vecpp/ap_math/ap_int/large_signed.h:353-421 | As written, `MIN / 3 == 0` and `MIN % 3 == MIN`. The truncating division gives `-(2^79 / 3)` and `-2`. |
| SignedValues.RemainderSignExample | include/vecpp/ap_math/ap_int/large_signed.h:413-418 | `7 / -2 == -3` and `7 % -2 == -1`, so the identity fails for this pair. |
| SignedValues.AliasedQuotient | include/vecpp/ap_math/ap_int/large_signed.h:353-376 | What `x /= x` computes, when the copy of the divisor is taken after `*this` has been made non-negative. |
| SignedValues.SelfDivision | include/vecpp/ap_math/ap_int/large_signed.h:357-366 | `x / x == 1`, but the aliased `x /= x` gives -1 for a negative x. |
| SignedValues.AliasedRemainder | include/vecpp/ap_math/ap_int/large_signed.h:398-421 | `x %= x` gives 0 both ways. |
| SignedValues.ParsePlain | include/vecpp/ap_math/ap_int/large_signed.h:118-144 | `"1234"` reads as 1234. |
| SignedValues.ParseNegated | include/vecpp/ap_math/ap_int/large_signed.h:118-144 | `"-1234"` reads as -1234. |
| SignedValues.ParseLeadingZeros | include/vecpp/ap_math/ap_int/large_signed.h:118-144 | `"00123"` reads as 123, and the empty text as 0. |
| SignedValues.ParseDigits | include/vecpp/ap_math/ap_int/large_signed.h:118-144 | A run of digits reads as its value modulo 2^80, signed. |
| SignedValues.ParseNegatedDigits | include/vecpp/ap_math/ap_int/large_signed.h:118-144 | `-` then digits reads as the negated value modulo 2^80. |
| SignedValues.RenderSignedDigits | include/vecpp/ap_math/ap_int/large_signed.h:508-528 | The output is `-` for a negative value, then the decimal spelling of the magnitude. |
| SignedValues.ReadRenderedSigned | include/vecpp/ap_math/ap_int/large_signed.h:118-144 | With the corrected `udivmod` in the stream operator, the string constructor reads back what the operator writes, for every value. As written, this holds for every value but `MIN` (`Decimal.RenderAgrees`). |
| SignedValues.MinimumRendersNegativeZero | include/vecpp/ap_math/ap_int/large_signed.h:508-528 | As written, `MIN` streams as `-0`, which reads back as 0. The corrected rendering is not `-0`. |
| SignedValues.NegativeZero | include/vecpp/ap_math/ap_int/large_signed.h:118-144 | The text `-0` reads as 0. |
| SignedValues.CleanPattern | include/vecpp/ap_math/ap_int/large_signed.h:97 | Clean words are the wrapped signed value, and they reach 2^79 exactly when the value is negative. |
| SignedValues.SameSignCompare | include/vecpp/ap_math/ap_int/large_signed.h:149-158 | For operands of the same sign, the unsigned storage order is the signed order. |
| SignedValues.SignsDiffer | include/vecpp/ap_math/ap_int/large_signed.h:151-153 | When the signs differ, the negative operand is the smaller one. |
| SignedValues.SumValue | include/vecpp/ap_math/ap_int/large_signed.h:228-232 | The word sum modulo 2^80 is the wrapped signed sum. |
| SignedValues.DifferenceValue | include/vecpp/ap_math/ap_int/large_signed.h:254-258 | The word difference, cleared, is the wrapped signed difference. |
| SignedValues.MinimumProduct | include/vecpp/ap_math/ap_int/large_signed.h:276-281 | Multiplying by 2 and then by `INT64_MIN / 2` is multiplying by `INT64_MIN`. |
| SignedValues.ProductOfMagnitudes | include/vecpp/ap_math/ap_int/large_signed.h:312-343 | The product of the magnitudes, negated when the signs differ, is the wrapped signed product. |
| SignedValues.DividedMagnitudes | include/vecpp/ap_math/ap_int/large_signed.h:353-421 | Dividing the magnitudes and applying the sign rule gives `Quotient` and `Remainder`. |
| SignedValues.BitwiseSigns | include/vecpp/ap_math/ap_int/large_signed.h:437-477 | The sign of `&`, `\|` and `^` is the Boolean operator on the operands' signs. |
| SignedValues.NegativeWords | include/vecpp/ap_math/ap_int/large_signed.h:104-115 | Low word `Word(v)` and an all-ones upper word, cleared, stand for a negative `int64 v`. |
| SignedValues.SmallWords | include/vecpp/ap_math/ap_int/large_signed.h:104-115 | Low word `v` and a zero upper word stand for a non-negative `int64 v`. |
| SignedValues.UnclearedDifference | include/vecpp/ap_math/ap_int/int_storage.h:139-152 | As written, `1 - 2` (or unsigned `0 - 1`) leaves all 128 bits set: the signed value reads as -1 and the unsigned one as the maximum `2^80 - 1`, but the unsigned storage compare ranks it above its own cleared words. |
| SignedValues.UnclearedShift | include/vecpp/ap_math/ap_int/large_signed.h:481-485 | As written, `2^79 << 1` leaves bit 80 set: the low 80 bits, and so the signed and unsigned value, read as 0, but it compares above 0. |
| LargeSigned.LargeInt.Value | include/vecpp/ap_math/ap_int/large_signed.h:97 | The signed value is in `[-2^79, 2^79)`. |
| LargeSigned.LargeInt.constructor | include/vecpp/ap_math/ap_int/large_signed.h:104-115 | The signed value equals `v` for every `int64 v`, and the padding is clean. |
| LargeSigned.LargeInt.Copy | include/vecpp/ap_math/ap_int/large_signed.h:11-90 | The copy holds the same words. |
| LargeSigned.LargeInt.FromString | include/vecpp/ap_math/ap_int/large_signed.h:118-144 | The value is `ParseSigned(v)`: an optional `-`, then the leading digits accumulated modulo 2^80. |
| LargeSigned.LargeInt.PushDigit | include/vecpp/ap_math/ap_int/large_signed.h:131-136 | `*this *= 10; *this += d` makes the value `x * 10 + d` modulo 2^80. |
| LargeSigned.LargeInt.ReadDigits | include/vecpp/ap_math/ap_int/large_signed.h:129-137 | The loop stops at the first non-digit, having read the leading digit run and its value. |
| LargeSigned.LargeInt.IsNegative | include/vecpp/ap_math/ap_int/large_signed.h:97 | True exactly when the value is negative. |
| LargeSigned.LargeInt.Compare | include/vecpp/ap_math/ap_int/large_signed.h:149-158 | The sign of the difference of the two signed values. |
| LargeSigned.LargeInt.CompareInt | include/vecpp/ap_math/ap_int/large_signed.h:161-170 | The sign of the difference between the value and the `int64` operand. |
| LargeSigned.LargeInt.Plus | include/vecpp/ap_math/ap_int/large_signed.h:174-176 | `+x == x`. |
| LargeSigned.LargeInt.Complement | include/vecpp/ap_math/ap_int/large_signed.h:186-192 | `~x == -x - 1`, so `~0 == -1` and `~(-1) == 0`. |
| LargeSigned.LargeInt.Negate | include/vecpp/ap_math/ap_int/large_signed.h:179-183 | `-x` is `-SVal(x)` modulo 2^80, so `-MIN == MIN`. |
| LargeSigned.LargeInt.NegateSelf | include/vecpp/ap_math/ap_int/large_signed.h:179-183 | In-place `invert` then `++`: the value becomes its wrapped negation. |
| LargeSigned.LargeInt.Increment | include/vecpp/ap_math/ap_int/large_signed.h:195-198 | `++` adds one modulo 2^80. |
| LargeSigned.LargeInt.PostIncrement | include/vecpp/ap_math/ap_int/large_signed.h:201-205 | Post-`++` returns the old value and adds one modulo 2^80. |
| LargeSigned.LargeInt.Decrement | include/vecpp/ap_math/ap_int/large_signed.h:208-211 | `--` subtracts one modulo 2^80. |
| LargeSigned.LargeInt.PostDecrement | include/vecpp/ap_math/ap_int/large_signed.h:214-218 | Post-`--` returns the old value and subtracts one modulo 2^80. |
| LargeSigned.LargeInt.AddAssign | include/vecpp/ap_math/ap_int/large_signed.h:228-232 | The pattern is the old patterns' sum modulo 2^80, and the value their wrapped signed sum. |
| LargeSigned.LargeInt.AddAssignInt | include/vecpp/ap_math/ap_int/large_signed.h:222-225 | `+= int64` is the wrapped signed sum. |
| LargeSigned.LargeInt.Add | include/vecpp/ap_math/ap_int/large_signed.h:235-244 | A new value holding the wrapped sum. |
| LargeSigned.LargeInt.AddInt | include/vecpp/ap_math/ap_int/large_signed.h:235-244 | A new value holding the wrapped sum with an `int64`. |
| LargeSigned.LargeInt.SubAssign | include/vecpp/ap_math/ap_int/large_signed.h:254-258 | `-=` with the padding cleared afterwards: the wrapped signed difference, with clean storage. |
| LargeSigned.LargeInt.SubAssignInt | include/vecpp/ap_math/ap_int/large_signed.h:248-251 | `-= int64` is the wrapped signed difference. |
| LargeSigned.LargeInt.Sub | include/vecpp/ap_math/ap_int/large_signed.h:261-270 | A new value holding the wrapped difference. |
| LargeSigned.LargeInt.SubInt | include/vecpp/ap_math/ap_int/large_signed.h:261-270 | A new value holding the wrapped difference with an `int64`. |
| LargeSigned.LargeInt.MulAssignInt | include/vecpp/ap_math/ap_int/large_signed.h:274-296 | `*= int64` is the wrapped signed product, `INT64_MIN` included (routed through `*2` then `*(INT64_MIN/2)`). |
| LargeSigned.LargeInt.MulMagnitude | include/vecpp/ap_math/ap_int/large_signed.h:283-295 | Multiplying by a non-negative `int64` through `mul` is the wrapped product. |
| LargeSigned.LargeInt.MulWord | include/vecpp/ap_math/ap_int/large_signed.h:292 | `data_.mul(w)` leaves the wrapped product of the pattern and the word. |
| LargeSigned.LargeInt.MulAssign | include/vecpp/ap_math/ap_int/large_signed.h:299-303 | `*=` is the wrapped signed product. |
| LargeSigned.LargeInt.MulInt | include/vecpp/ap_math/ap_int/large_signed.h:306-309 | A new value holding the wrapped product with an `int64`. |
| LargeSigned.LargeInt.Magnitude | include/vecpp/ap_math/ap_int/large_signed.h:315-327 | The absolute value of the pattern and the sign. |
| LargeSigned.LargeInt.ShiftedProduct | include/vecpp/ap_math/ap_int/large_signed.h:332-336 | `(\|a\| * b[i]) << 64i`, modulo 2^80. |
| LargeSigned.LargeInt.MagnitudeTimes | include/vecpp/ap_math/ap_int/large_signed.h:329-337 | The sum over the words of the shifted partial products is `\|a\| * \|b\|` modulo 2^80. |
| LargeSigned.LargeInt.Mul | include/vecpp/ap_math/ap_int/large_signed.h:312-343 | `SVal(a * b) == SVal(a) * SVal(b)` modulo 2^80. |
| LargeSigned.LargeInt.DivideBy | include/vecpp/ap_math/ap_int/large_signed.h:361-375 | Taking the divisor's sign and dividing the magnitudes gives `Quotient` or `Remainder`. |
| LargeSigned.LargeInt.DivideSigned | include/vecpp/ap_math/ap_int/large_signed.h:368-373 | `udivmod` on the magnitudes, then the result negated when `neg`. |
| LargeSigned.LargeInt.TakeSign | include/vecpp/ap_math/ap_int/large_signed.h:357-360 | A negative value is negated in place, and the words then hold its absolute value. |
| LargeSigned.LargeInt.DivideMagnitudes | include/vecpp/ap_math/ap_int/large_signed.h:368-369 | `std::tie(data_, rem) = data_.udivmod(rhs_v.data_)` keeps the quotient or the remainder. |
| LargeSigned.LargeInt.DivAssign | include/vecpp/ap_math/ap_int/large_signed.h:353-376 | Corrected `udivmod`: for distinct operands, `/=` truncates toward zero (`Quotient`). As written, this agrees away from a `MIN` dividend (`SignedValues.AsWrittenAgrees`). |
| LargeSigned.LargeInt.DivAssignAsWritten | include/vecpp/ap_math/ap_int/large_signed.h:353-376 | `/=` as written, including `x /= x`, which gives `AliasedQuotient`. |
| LargeSigned.LargeInt.DivAssignInt | include/vecpp/ap_math/ap_int/large_signed.h:348-350 | `/= int64` is `Quotient`. |
| LargeSigned.LargeInt.Div | include/vecpp/ap_math/ap_int/large_signed.h:379-388 | A new value holding `Quotient`. |
| LargeSigned.LargeInt.DivInt | include/vecpp/ap_math/ap_int/large_signed.h:379-388 | A new value holding `Quotient` with an `int64`. |
| LargeSigned.LargeInt.RemAssign | include/vecpp/ap_math/ap_int/large_signed.h:398-421 | Corrected `udivmod`: `%=` is `Remainder`, `\|a\| mod \|b\|`, negated when the signs differ. As written, this agrees away from a `MIN` dividend. |
| LargeSigned.LargeInt.RemAssignInt | include/vecpp/ap_math/ap_int/large_signed.h:393-395 | `%= int64` is `Remainder`. |
| LargeSigned.LargeInt.Rem | include/vecpp/ap_math/ap_int/large_signed.h:424-433 | A new value holding `Remainder`. |
| LargeSigned.LargeInt.RemInt | include/vecpp/ap_math/ap_int/large_signed.h:424-433 | A new value holding `Remainder` with an `int64`. |
| LargeSigned.LargeInt.AndAssign | include/vecpp/ap_math/ap_int/large_signed.h:437-441 | The words become the word-wise AND. |
| LargeSigned.LargeInt.OrAssign | include/vecpp/ap_math/ap_int/large_signed.h:452-456 | The words become the word-wise OR. |
| LargeSigned.LargeInt.XorAssign | include/vecpp/ap_math/ap_int/large_signed.h:467-471 | The words become the word-wise XOR. |
| LargeSigned.LargeInt.And | include/vecpp/ap_math/ap_int/large_signed.h:444-447 | A new value holding the word-wise AND. |
| LargeSigned.LargeInt.Or | include/vecpp/ap_math/ap_int/large_signed.h:459-462 | A new value holding the word-wise OR. |
| LargeSigned.LargeInt.Xor | include/vecpp/ap_math/ap_int/large_signed.h:474-477 | A new value holding the word-wise XOR. |
| LargeSigned.LargeInt.ShlAssign | include/vecpp/ap_math/ap_int/large_signed.h:481-485 | `<<=` with the padding cleared afterwards: the pattern is `Val * 2^n mod 2^80`, and the value is `SVal * 2^n` modulo 2^80. |
| LargeSigned.LargeInt.Shl | include/vecpp/ap_math/ap_int/large_signed.h:488-491 | A new value holding the wrapped shifted value. |
| LargeSigned.LargeInt.ShrAssign | include/vecpp/ap_math/ap_int/large_signed.h:494-499 | `>>=` is the arithmetic shift `floor(SVal / 2^n)` for either sign. |
| LargeSigned.LargeInt.Shr | include/vecpp/ap_math/ap_int/large_signed.h:502-505 | A new value holding `floor(SVal / 2^n)`. |
| LargeSigned.LargeInt.ToString | include/vecpp/ap_math/ap_int/large_signed.h:508-528 | Corrected `udivmod`: the text is `-` for a negative value, then the decimal spelling of the magnitude. Zero gives no digit. As written, this holds for every value but `MIN`. |
| LargeSigned.LargeInt.DecimalDigits | include/vecpp/ap_math/ap_int/large_signed.h:517-523 | The characters the loop collects, reversed, are the rendered digits of the pattern. |
| LargeSigned.LargeInt.NextDigit | include/vecpp/ap_math/ap_int/large_signed.h:519-523 | One pass divides by ten, appends the digit, keeps the rendered text and strictly decreases the pattern. |
| LargeSigned.LargeInt.DivideByTen | include/vecpp/ap_math/ap_int/large_signed.h:520-521 | The quotient by ten replaces the words, and the remainder's character is the last rendered digit. |
| LargeUnsigned.ParseUnsigned | include/vecpp/ap_math/ap_int/large_unsigned.h:107-125 | The string constructor's value is the leading digit run's value modulo 2^80. There is no sign handling. |
| LargeUnsigned.DigitPushed | include/vecpp/ap_math/ap_int/large_unsigned.h:114-121 | `*this *= 10; *this += d` on wrapped values is `x * 10 + d` modulo 2^80. |
| LargeUnsigned.UnsignedQuotient | include/vecpp/ap_math/ap_int/int_storage.h:317-357 | The corrected `udivmod` (logical halving): `(n / d, n mod d)` for `d != 0`. For `d == 0` it is `(1, 0)` for zero and `(2^(81 - clz) - 1, n)` otherwise. As written, these hold below 2^79 (`DivisionFacts.UnsignedHalvingAgrees`). |
| LargeUnsigned.ReadRenderedUnsigned | include/vecpp/ap_math/ap_int/large_unsigned.h:107-125 | With the corrected `udivmod` in the stream operator, the string constructor reads back what it writes, for every value. As written, this holds below 2^79. |
| LargeUnsigned.RenderParsed | include/vecpp/ap_math/ap_int/large_unsigned.h:400-416 | With the corrected `udivmod`, canonical decimal text of a number below 2^80 survives parsing and rendering. As written, this holds below 2^79. |
| LargeUnsigned.RenderParsedShort | include/vecpp/ap_math/ap_int/large_unsigned.h:400-416 | With the corrected `udivmod`, every canonical text of up to 24 digits survives the round trip. As written, texts from `604462909807314587353088` (2^79) on do not. |
| LargeUnsigned.RenderParsedExample | include/vecpp/ap_math/ap_int/large_unsigned.h:400-416 | `"92233720368547758071"` survives the round trip. |
| LargeUnsigned.ParsePlainExample | include/vecpp/ap_math/ap_int/large_unsigned.h:107-125 | `"1234"` reads as 1234. |
| LargeUnsigned.ParseZerosExample | include/vecpp/ap_math/ap_int/large_unsigned.h:107-125 | `"00123"` reads as 123. |
| LargeUnsigned.ParseEmptyExample | include/vecpp/ap_math/ap_int/large_unsigned.h:107-125 | The empty text reads as 0, and so does `"-1"` (no sign handling). |
| LargeUnsigned.SignFilledShift | include/vecpp/ap_math/ap_int/large_unsigned.h:386-391 | The sign-filling shift `>>=` calls, with the vacated words zeroed, is the arithmetic shift of the two's-complement reading. It is the unsigned shift only below 2^79. |
| LargeUnsigned.SignFilledShiftAsWritten | include/vecpp/ap_math/ap_int/large_unsigned.h:386-391 | `>>=` as written, a bare `rshift`, is that arithmetic shift when bit 79 is set or the shift is below 64. Below 2^79 and below 64 it is the unsigned shift. From 64 on, below 2^79, the vacated words stay (`LimbOps.RShiftedStale`). |
| LargeUnsigned.SignFilledShiftExample | include/vecpp/ap_math/ap_int/large_unsigned.h:386-391 | As written, `2^79 >> 1` gives `2^79 + 2^78`, and so does the shift with the vacated words zeroed. |
| LargeUnsigned.LargeUint.Value | include/vecpp/ap_math/ap_int/large_unsigned.h:91 | The value is below 2^80. |
| LargeUnsigned.LargeUint.constructor | include/vecpp/ap_math/ap_int/large_unsigned.h:102-104 | `Val == v`: word 0 is v and the other word is zero. |
| LargeUnsigned.LargeUint.Copy | include/vecpp/ap_math/ap_int/large_unsigned.h:91 | The copy holds the same words. |
| LargeUnsigned.LargeUint.FromString | include/vecpp/ap_math/ap_int/large_unsigned.h:107-125 | The value is `ParseUnsigned(v)`. |
| LargeUnsigned.LargeUint.PushDigit | include/vecpp/ap_math/ap_int/large_unsigned.h:114-121 | One digit: `x * 10 + d` modulo 2^80. |
| LargeUnsigned.LargeUint.ReadDigits | include/vecpp/ap_math/ap_int/large_unsigned.h:111-122 | The loop stops at the first non-digit, having read the leading run. |
| LargeUnsigned.LargeUint.Compare | include/vecpp/ap_math/ap_int/large_unsigned.h:130-133 | The sign of the difference of the unsigned values. |
| LargeUnsigned.LargeUint.CompareInt | include/vecpp/ap_math/ap_int/large_unsigned.h:136-138 | The sign of the difference with a `uint64`. |
| LargeUnsigned.LargeUint.Complement | include/vecpp/ap_math/ap_int/large_unsigned.h:143-149 | `~x == 2^80 - 1 - x`, so `~0` is the all-ones maximum. |
| LargeUnsigned.LargeUint.Increment | include/vecpp/ap_math/ap_int/large_unsigned.h:152-155 | `++` adds one modulo 2^80. |
| LargeUnsigned.LargeUint.PostIncrement | include/vecpp/ap_math/ap_int/large_unsigned.h:158-162 | Post-`++` returns the old value and adds one modulo 2^80. |
| LargeUnsigned.LargeUint.Decrement | include/vecpp/ap_math/ap_int/large_unsigned.h:165-168 | `--` subtracts one modulo 2^80. |
| LargeUnsigned.LargeUint.PostDecrement | include/vecpp/ap_math/ap_int/large_unsigned.h:171-175 | Post-`--` returns the old value and subtracts one modulo 2^80. |
| LargeUnsigned.LargeUint.AddAssign | include/vecpp/ap_math/ap_int/large_unsigned.h:186-190 | `+=` is the sum modulo 2^80. |
| LargeUnsigned.LargeUint.AddAssignInt | include/vecpp/ap_math/ap_int/large_unsigned.h:179-183 | `+= uint64` is the sum modulo 2^80. |
| LargeUnsigned.LargeUint.Add | include/vecpp/ap_math/ap_int/large_unsigned.h:193-202 | A new value holding the sum modulo 2^80. |
| LargeUnsigned.LargeUint.AddInt | include/vecpp/ap_math/ap_int/large_unsigned.h:193-202 | A new value holding the sum with a `uint64`, modulo 2^80. |
| LargeUnsigned.LargeUint.SubAssign | include/vecpp/ap_math/ap_int/large_unsigned.h:213-217 | Corrected `-=`, with the padding cleared afterwards: the difference modulo 2^80. As written, the padding keeps the borrow (`SignedValues.UnclearedDifference`). |
| LargeUnsigned.LargeUint.SubAssignInt | include/vecpp/ap_math/ap_int/large_unsigned.h:206-210 | `-= uint64` is the difference modulo 2^80. |
| LargeUnsigned.LargeUint.Sub | include/vecpp/ap_math/ap_int/large_unsigned.h:220-229 | A new value holding the difference modulo 2^80. |
| LargeUnsigned.LargeUint.SubInt | include/vecpp/ap_math/ap_int/large_unsigned.h:220-229 | A new value holding the difference with a `uint64`, modulo 2^80. |
| LargeUnsigned.LargeUint.MulAssignInt | include/vecpp/ap_math/ap_int/large_unsigned.h:233-237 | `*= uint64` through `mul` is the product modulo 2^80. |
| LargeUnsigned.LargeUint.MulAssign | include/vecpp/ap_math/ap_int/large_unsigned.h:240-244 | `*=` is the product modulo 2^80. |
| LargeUnsigned.LargeUint.MulInt | include/vecpp/ap_math/ap_int/large_unsigned.h:247-250 | A new value holding the product with a `uint64`, modulo 2^80. |
| LargeUnsigned.LargeUint.ShiftedProduct | include/vecpp/ap_math/ap_int/large_unsigned.h:261-265 | `(a * b[i]) << 64i`, modulo 2^80. |
| LargeUnsigned.LargeUint.Mul | include/vecpp/ap_math/ap_int/large_unsigned.h:253-268 | The shifted accumulation is `Val(a) * Val(b)` modulo 2^80. |
| LargeUnsigned.LargeUint.DivAssign | include/vecpp/ap_math/ap_int/large_unsigned.h:279-285 | Corrected `udivmod`: `/=` is `a / b` for `b != 0`. For `b == 0` it is 1 for zero and `2^(81 - clz(a)) - 1` otherwise. As written, this holds for `a < 2^79`. |
| LargeUnsigned.LargeUint.DivAssignInt | include/vecpp/ap_math/ap_int/large_unsigned.h:273-276 | `/= uint64` is `a / b` for `b != 0`. |
| LargeUnsigned.LargeUint.Div | include/vecpp/ap_math/ap_int/large_unsigned.h:288-297 | A new value holding `a / b` for `b != 0`. |
| LargeUnsigned.LargeUint.DivInt | include/vecpp/ap_math/ap_int/large_unsigned.h:288-297 | A new value holding `a / b` with a `uint64` `b != 0`. |
| LargeUnsigned.LargeUint.RemAssign | include/vecpp/ap_math/ap_int/large_unsigned.h:308-313 | Corrected `udivmod`: `%=` is `a mod b`, or `a` for `b == 0`. As written, this holds for `a < 2^79`. |
| LargeUnsigned.LargeUint.RemAssignInt | include/vecpp/ap_math/ap_int/large_unsigned.h:302-305 | `%= uint64` is `a mod b`, or `a` for `b == 0`. |
| LargeUnsigned.LargeUint.Rem | include/vecpp/ap_math/ap_int/large_unsigned.h:316-325 | A new value holding `a mod b`, or `a` for `b == 0`. |
| LargeUnsigned.LargeUint.RemInt | include/vecpp/ap_math/ap_int/large_unsigned.h:316-325 | A new value holding `a mod b` with a `uint64`, or `a` for `b == 0`. |
| LargeUnsigned.LargeUint.AndAssign | include/vecpp/ap_math/ap_int/large_unsigned.h:329-333 | The word-wise AND: every bit below 80 is the AND of the operands' bits. |
| LargeUnsigned.LargeUint.OrAssign | include/vecpp/ap_math/ap_int/large_unsigned.h:344-348 | The word-wise OR: every bit below 80 is the OR of the operands' bits. |
| LargeUnsigned.LargeUint.XorAssign | include/vecpp/ap_math/ap_int/large_unsigned.h:359-363 | The word-wise XOR: every bit below 80 is the XOR of the operands' bits. |
| LargeUnsigned.LargeUint.And | include/vecpp/ap_math/ap_int/large_unsigned.h:336-339 | A new value holding the word-wise AND. |
| LargeUnsigned.LargeUint.Or | include/vecpp/ap_math/ap_int/large_unsigned.h:351-354 | A new value holding the word-wise OR. |
| LargeUnsigned.LargeUint.Xor | include/vecpp/ap_math/ap_int/large_unsigned.h:366-369 | A new value holding the word-wise XOR. |
| LargeUnsigned.LargeUint.ShlAssign | include/vecpp/ap_math/ap_int/large_unsigned.h:373-377 | Corrected `<<=`, with the padding cleared afterwards: `Val * 2^n mod 2^80`. As written, the bits shifted past bit 79 stay (`SignedValues.UnclearedShift`). |
| LargeUnsigned.LargeUint.Shl | include/vecpp/ap_math/ap_int/large_unsigned.h:380-383 | A new value holding `Val * 2^n mod 2^80`. |
| LargeUnsigned.LargeUint.ShrAssign | include/vecpp/ap_math/ap_int/large_unsigned.h:386-391 | `>>=` as a logical shift: `floor(Val / 2^n)`. |
| LargeUnsigned.LargeUint.Shr | include/vecpp/ap_math/ap_int/large_unsigned.h:394-397 | A new value holding `floor(Val / 2^n)`. |
| LargeUnsigned.LargeUint.ToString | include/vecpp/ap_math/ap_int/large_unsigned.h:400-416 | Corrected `udivmod`: the reversed base-10 remainders are the decimal spelling of the value. As written, this holds below 2^79, and 2^79 renders as `0` (`Decimal.RenderSignAsWritten`). |
| LargeUnsigned.LargeUint.DecimalDigits | include/vecpp/ap_math/ap_int/large_unsigned.h:406-411 | The characters the loop collects, reversed, are the rendered digits. |
| LargeUnsigned.LargeUint.NextDigit | include/vecpp/ap_math/ap_int/large_unsigned.h:407-411 | One pass divides by ten, appends the digit, keeps the rendered text and strictly decreases the value. |
| LargeUnsigned.LargeUint.DivideByTen | include/vecpp/ap_math/ap_int/large_unsigned.h:408-409 | The quotient by ten replaces the value, and the remainder's character is the last rendered digit. |
| LegacyLarge.MagnitudeOf | include/vecpp/ap_math/ap_int/large.h:704-714 | The value after `if (x < 0) x = -x` is non-negative or `MIN`, and it is the absolute value away from `MIN`. |
| LegacyLarge.NegationMagnitude | include/vecpp/ap_math/ap_int/large.h:351-355 | Negating a negative value gives its absolute value, except that `-MIN == MIN`. |
| DivisionFacts.HalvingAgrees | include/vecpp/ap_math/ap_int/large.h:675-689 | Below 2^79 the sign-filling halving and the logical halving run the loop the same way. |
| DivisionFacts.UnsignedHalvingAgrees | include/vecpp/ap_math/ap_int/large.h:657-692 | Below 2^79 the two halvings give the same quotient and remainder. |
| LegacyLarge.LegacyDivModExact | include/vecpp/ap_math/ap_int/large.h:657-692 | For `0 < d` and `0 <= n < 2^79`, `udivmod` gives `q * d + r == n` with `0 <= r < d`. |
| LegacyLarge.FlipAgrees | include/vecpp/ap_math/ap_int/large.h:718-720 | Negating the wrapped magnitude when `neg` is the wrapped signed magnitude. |
| LegacyLarge.MagnitudesAgree | include/vecpp/ap_math/ap_int/large.h:700-723 | Away from a `MIN` dividend, the signed-order division of the magnitudes is the unsigned division. |
| LegacyLarge.LegacyAgrees | include/vecpp/ap_math/ap_int/large.h:700-767 | Away from a `MIN` dividend, `/=` and `%=` of large.h give `Quotient` and `Remainder`. |
| LegacyLarge.MinimumDividend | include/vecpp/ap_math/ap_int/large.h:657-662 | As written, `MIN / y == 0` and `MIN % y == MIN` for every `y != MIN`. |
| LegacyLarge.MinimumByOne | include/vecpp/ap_math/ap_int/large.h:657-662 | As written, `MIN / 1 == 0` and `MIN % 1 == MIN`. |
| LegacyLarge.MinimumByOneCorrected | include/vecpp/ap_math/ap_int/large.h:700-767 | The corrected division gives `MIN / 1 == MIN` and `MIN % 1 == 0`. |
| LegacyLarge.OffsetThroughStore | include/vecpp/ap_math/ap_int/large.h:395-415 | A ripple modulo 2^128 followed by the clear is the wrapped signed sum with the operand. |
| LegacyLarge.StoreSumValue | include/vecpp/ap_math/ap_int/large.h:418-432 | Dirty padding does not change the signed value: the low 80 bits of the word sum give the wrapped signed sum. |
| LegacyLarge.StoreDifferenceValue | include/vecpp/ap_math/ap_int/large.h:472-486 | The low 80 bits of the word difference give the wrapped signed difference. |
| LegacyLarge.RippleAddStep | include/vecpp/ap_math/ap_int/large.h:405-412 | One pass of `v += r; if (v >= r) break; r = 1` adds the pending word, and carries exactly when the word wrapped. |
| LegacyLarge.RippleSubStep | include/vecpp/ap_math/ap_int/large.h:457-465 | One pass of the borrow ripple subtracts the pending word, and borrows exactly when the word underflowed. |
| LegacyLarge.MinimumSplit | include/vecpp/ap_math/ap_int/large.h:396-399 | Splitting `INT64_MIN` into `-(INT64_MAX)` and `-1` gives the same wrapped sum and difference. |
| LegacyLarge.IntCompareCases | include/vecpp/ap_math/ap_int/large.h:247-275 | For equal signs, the words above word 0 decide the order against an `int64`, or else word 0 against `Word(rhs)` does. |
| LegacyLarge.HalvesCompare | include/vecpp/ap_math/ap_int/large.h:220-236 | On the same side of 2^79, the signed order of patterns is their unsigned order. |
| LegacyLarge.LoopEntry | include/vecpp/ap_math/ap_int/large.h:664-689 | For non-negative operands with `d <= n`, the aligned loop gives `LegacyDivMod`. |
| LegacyLarge.MinimumDivisorEntry | include/vecpp/ap_math/ap_int/large.h:664-689 | For a `MIN` divisor, the aligned loop gives `LegacyDivMod`. |
| LegacyLarge.ClzOfSign | include/vecpp/ap_math/ap_int/large.h:619-653 | The sign bit alone has no leading zero. |
| LegacyLarge.ShiftedOut | include/vecpp/ap_math/ap_int/large.h:879-898 | A shift by 128 or more leaves clean zero words. |
| LegacyLarge.ZeroUpper | include/vecpp/ap_math/ap_int/large.h:178-181 | The words above word 0 become zero. |
| LegacyLarge.RippleAdd | include/vecpp/ap_math/ap_int/large.h:400-412 | The early-exit carry ripple adds one word modulo 2^128. |
| LegacyLarge.RippleSub | include/vecpp/ap_math/ap_int/large.h:452-465 | The early-exit borrow ripple subtracts one word modulo 2^128. |
| LegacyLarge.SignedCompare | include/vecpp/ap_math/ap_int/large.h:220-236 | The Self compare orders by sign, then by words from the top: the sign of the signed difference. |
| LegacyLarge.LegacyDivideLoop | include/vecpp/ap_math/ap_int/large.h:675-689 | The loop with signed compares and arithmetic `>>= 1` leaves what `DivLoop` with the sign-filling halving names. |
| LegacyLarge.LegacyDivideStep | include/vecpp/ap_math/ap_int/large.h:676-688 | One pass is one step of `DivLoop`. |
| LegacyLarge.HalvesCompared | include/vecpp/ap_math/ap_int/large.h:676-681 | Signed `<` and `compare` on patterns on the same side of 2^79 are the unsigned order. |
| LegacyLarge.HalveAsWritten | include/vecpp/ap_math/ap_int/large.h:687 | `divisor >>= 1` is the sign-filling halving, and the divisor stays clean. |
| LegacyLarge.LegacyInt.Value | include/vecpp/ap_math/ap_int/large.h:145 | The signed value is in `[-2^79, 2^79)`. |
| LegacyLarge.LegacyInt.Pattern | include/vecpp/ap_math/ap_int/large.h:100-104 | The clean pattern is below 2^80. |
| LegacyLarge.LegacyInt.constructor | include/vecpp/ap_math/ap_int/large.h:175-188 | The signed value equals `v`: the magnitude goes into word 0 and is negated for negative `v`. |
| LegacyLarge.LegacyInt.Copy | include/vecpp/ap_math/ap_int/large.h:100-104 | The copy holds the same words. |
| LegacyLarge.LegacyInt.FromString | include/vecpp/ap_math/ap_int/large.h:191-215 | The value is `ParseSigned(v)`. |
| LegacyLarge.LegacyInt.PushDigit | include/vecpp/ap_math/ap_int/large.h:200-208 | One digit: `x * 10 + d` modulo 2^80. |
| LegacyLarge.LegacyInt.ReadDigits | include/vecpp/ap_math/ap_int/large.h:200-208 | The loop stops at the first non-digit, having read the leading run. |
| LegacyLarge.LegacyInt.IsNegative | include/vecpp/ap_math/ap_int/large.h:145 | True exactly when the value is negative. |
| LegacyLarge.LegacyInt.Compare | include/vecpp/ap_math/ap_int/large.h:220-236 | The sign of the difference of the signed values. |
| LegacyLarge.LegacyInt.CompareInt | include/vecpp/ap_math/ap_int/large.h:239-276 | The sign of the difference with an `int64`. The negative branch's middle-word loop has no word to visit at 80 bits. |
| LegacyLarge.LegacyInt.Plus | include/vecpp/ap_math/ap_int/large.h:346-348 | `+x == x`. |
| LegacyLarge.LegacyInt.Negate | include/vecpp/ap_math/ap_int/large.h:351-355 | `-x` is the wrapped negation. |
| LegacyLarge.LegacyInt.NegateSelf | include/vecpp/ap_math/ap_int/large.h:351-365 | In-place `~` then `++`: the wrapped negation. |
| LegacyLarge.LegacyInt.Complement | include/vecpp/ap_math/ap_int/large.h:358-365 | `~x == -x - 1`. |
| LegacyLarge.LegacyInt.Increment | include/vecpp/ap_math/ap_int/large.h:368-373 | `++` adds one modulo 2^80. |
| LegacyLarge.LegacyInt.PostIncrement | include/vecpp/ap_math/ap_int/large.h:368-391 | Post-`++` returns the old value and adds one. |
| LegacyLarge.LegacyInt.Decrement | include/vecpp/ap_math/ap_int/large.h:368-391 | `--` subtracts one modulo 2^80. |
| LegacyLarge.LegacyInt.PostDecrement | include/vecpp/ap_math/ap_int/large.h:368-391 | Post-`--` returns the old value and subtracts one. |
| LegacyLarge.LegacyInt.AddAssignInt | include/vecpp/ap_math/ap_int/large.h:395-415 | `+= int64` is the wrapped signed sum, `INT64_MIN` included. |
| LegacyLarge.LegacyInt.AddWord | include/vecpp/ap_math/ap_int/large.h:400-413 | The ripple and the clear add one word: the pattern is `(old + w) mod 2^80`. |
| LegacyLarge.LegacyInt.SubAssignInt | include/vecpp/ap_math/ap_int/large.h:447-469 | `-= int64` is the wrapped signed difference, `INT64_MIN` included. |
| LegacyLarge.LegacyInt.SubWord | include/vecpp/ap_math/ap_int/large.h:452-466 | The borrow ripple and the clear: the pattern is `(old - w) mod 2^80`. |
| LegacyLarge.LegacyInt.AddAssign | include/vecpp/ap_math/ap_int/large.h:418-432 | Self `+=` with the padding cleared: the wrapped signed sum, with clean storage. |
| LegacyLarge.LegacyInt.AddAssignAsWritten | include/vecpp/ap_math/ap_int/large.h:418-432 | Self `+=` as written: the words hold the sum modulo 2^128, the padding carries the overflow, and the low 80 bits read as the wrapped signed sum. |
| LegacyLarge.LegacyInt.SubAssign | include/vecpp/ap_math/ap_int/large.h:472-486 | Self `-=` with the padding cleared: the wrapped signed difference. |
| LegacyLarge.LegacyInt.SubAssignAsWritten | include/vecpp/ap_math/ap_int/large.h:472-486 | Self `-=` as written: the words hold the difference modulo 2^128, and the low 80 bits read as the wrapped signed difference. |
| LegacyLarge.LegacyInt.Add | include/vecpp/ap_math/ap_int/large.h:435-443 | A new value holding the wrapped sum. |
| LegacyLarge.LegacyInt.AddInt | include/vecpp/ap_math/ap_int/large.h:435-443 | A new value holding the wrapped sum with an `int64`. |
| LegacyLarge.LegacyInt.Sub | include/vecpp/ap_math/ap_int/large.h:489-497 | A new value holding the wrapped difference. |
| LegacyLarge.LegacyInt.SubInt | include/vecpp/ap_math/ap_int/large.h:489-497 | A new value holding the wrapped difference with an `int64`. |
| LegacyLarge.LegacyInt.UnsignedMul | include/vecpp/ap_math/ap_int/large.h:502-545 | A fresh result holding `(pattern * rhs) mod 2^80`. `*this` is not changed. |
| LegacyLarge.LegacyInt.MulAssignInt | include/vecpp/ap_math/ap_int/large.h:548-570 | `*= int64` is the wrapped signed product, `INT64_MIN` included. |
| LegacyLarge.LegacyInt.MulMagnitude | include/vecpp/ap_math/ap_int/large.h:548-570 | Multiplying by a word through `unsigned_mul` is the wrapped signed product. |
| LegacyLarge.LegacyInt.MulAssign | include/vecpp/ap_math/ap_int/large.h:573-577 | `*=` is the wrapped signed product. |
| LegacyLarge.LegacyInt.MulInt | include/vecpp/ap_math/ap_int/large.h:580-582 | A new value holding the wrapped product with an `int64`. |
| LegacyLarge.LegacyInt.Magnitude | include/vecpp/ap_math/ap_int/large.h:588-598 | The absolute value of the pattern and the sign. |
| LegacyLarge.LegacyInt.ShiftedProduct | include/vecpp/ap_math/ap_int/large.h:604-608 | Corrected `<<=`, with the padding cleared: `(\|a\| * b[i]) << 64i`, modulo 2^80. As written, the bits shifted past bit 79 stay (`LegacyLarge.UnclearedProduct`). |
| LegacyLarge.LegacyInt.MagnitudeTimes | include/vecpp/ap_math/ap_int/large.h:600-609 | The sum of the shifted partial products is `\|a\| * \|b\|` modulo 2^80. |
| LegacyLarge.LegacyInt.AddAssignPattern | include/vecpp/ap_math/ap_int/large.h:606-607 | Corrected Self `+=`, with the padding cleared: the accumulation step adds the patterns modulo 2^80. As written, the carry stays in the padding (`LegacyLarge.UnclearedSum`). |
| LegacyLarge.LegacyInt.Mul | include/vecpp/ap_math/ap_int/large.h:585-614 | With the corrected `<<=` and `+=`: the wrapped signed product. As written, the value is the same but the padding may be set (`LegacyLarge.UnclearedProduct`). |
| LegacyLarge.UnclearedProduct | include/vecpp/ap_math/ap_int/large.h:585-614 | As written, `2^40 * 2^74` holds bit 114 alone: it reads as 0, the wrapped product, but it compares above 0. |
| LegacyLarge.LegacyInt.CountLeadingZeros | include/vecpp/ap_math/ap_int/large.h:619-653 | The leading-zero count of the pattern. |
| LegacyLarge.LegacyInt.UDivMod | include/vecpp/ap_math/ap_int/large.h:657-692 | On the operands `/=` and `%=` hand it (non-negative or `MIN`), the result is `LegacyDivMod`: `q * d + r == n` with `0 <= r < d` for `0 < d <= n < 2^79`, the early exit `(0, *this)` when `d > n`, and the as-written outcome at `MIN`. |
| LegacyLarge.LegacyInt.LongDivision | include/vecpp/ap_math/ap_int/large.h:664-691 | Past the early exit, the result is `LegacyDivMod`. |
| LegacyLarge.LegacyInt.DivideFrom | include/vecpp/ap_math/ap_int/large.h:670-691 | From the aligned divisor, the result is what `DivLoop` names. |
| LegacyLarge.LegacyInt.ShiftOf | include/vecpp/ap_math/ap_int/large.h:666-668 | The shift is the difference of the leading-zero counts. |
| LegacyLarge.LegacyInt.AlignTo | include/vecpp/ap_math/ap_int/large.h:673 | `divisor <<= shift` multiplies by `2^shift` when that fits. |
| LegacyLarge.LegacyInt.DivideAsWritten | include/vecpp/ap_math/ap_int/large.h:700-767 | `/=` and `%=` as written: `LegacyDivMod` of the magnitudes, with the sign rule applied. |
| LegacyLarge.LegacyInt.MakeDivisorNonNegative | include/vecpp/ap_math/ap_int/large.h:709-713 | `if (rhs_v < 0) rhs_v = -rhs_v` gives `MagnitudeOf(rhs)`. |
| LegacyLarge.LegacyInt.DivideMagnitudesAsWritten | include/vecpp/ap_math/ap_int/large.h:715-716 | The quotient or remainder of `LegacyDivMod`. |
| LegacyLarge.LegacyInt.MakeNonNegative | include/vecpp/ap_math/ap_int/large.h:704-707 | `if (is_negative()) *this = -*this` gives `MagnitudeOf(x)`. |
| LegacyLarge.LegacyInt.DivAssignAsWritten | include/vecpp/ap_math/ap_int/large.h:700-723 | `/=` as written is `LegacyQuotient`, including `x /= x`. |
| LegacyLarge.LegacyInt.RemAssignAsWritten | include/vecpp/ap_math/ap_int/large.h:744-767 | `%=` as written is `LegacyRemainder`, including `x %= x`. |
| LegacyLarge.LegacyInt.DivideBy | include/vecpp/ap_math/ap_int/large.h:709-722 | The corrected division: `Quotient` or `Remainder`. |
| LegacyLarge.LegacyInt.DivideSigned | include/vecpp/ap_math/ap_int/large.h:715-722 | `udivmod` on the magnitudes, then the result negated when `neg`. |
| LegacyLarge.LegacyInt.TakeSign | include/vecpp/ap_math/ap_int/large.h:709-713 | A negative value is negated in place, and the words then hold its absolute value. |
| LegacyLarge.LegacyInt.MakeMagnitude | include/vecpp/ap_math/ap_int/large.h:704-707 | The words hold the absolute value, `MIN` included. |
| LegacyLarge.LegacyInt.DivideMagnitudes | include/vecpp/ap_math/ap_int/large.h:715-716 | The quotient or remainder of the unsigned division of the magnitudes. |
| LegacyLarge.LegacyInt.DivAssign | include/vecpp/ap_math/ap_int/large.h:700-723 | Corrected `/=` is `Quotient`. |
| LegacyLarge.LegacyInt.DivAssignInt | include/vecpp/ap_math/ap_int/large.h:695-697 | `/= int64` is `Quotient`. |
| LegacyLarge.LegacyInt.Div | include/vecpp/ap_math/ap_int/large.h:726-734 | A new value holding `Quotient`. |
| LegacyLarge.LegacyInt.DivInt | include/vecpp/ap_math/ap_int/large.h:726-734 | A new value holding `Quotient` with an `int64`. |
| LegacyLarge.LegacyInt.RemAssign | include/vecpp/ap_math/ap_int/large.h:744-767 | Corrected `%=` is `Remainder`. |
| LegacyLarge.LegacyInt.RemAssignInt | include/vecpp/ap_math/ap_int/large.h:739-741 | `%= int64` is `Remainder`. |
| LegacyLarge.LegacyInt.Rem | include/vecpp/ap_math/ap_int/large.h:770-778 | A new value holding `Remainder`. |
| LegacyLarge.LegacyInt.RemInt | include/vecpp/ap_math/ap_int/large.h:770-778 | A new value holding `Remainder` with an `int64`. |
| LegacyLarge.LegacyInt.AndAssignWord | include/vecpp/ap_math/ap_int/large.h:783-790 | `&= word` ANDs word 0 and zeroes the other word: the value is `word0 & rhs`. |
| LegacyLarge.LegacyInt.OrAssignWord | include/vecpp/ap_math/ap_int/large.h:816-820 | `\|= word` changes only word 0. |
| LegacyLarge.LegacyInt.XorAssignWord | include/vecpp/ap_math/ap_int/large.h:846-854 | `^= word` changes only word 0. |
| LegacyLarge.LegacyInt.AndAssign | include/vecpp/ap_math/ap_int/large.h:793-799 | The words become the word-wise AND. |
| LegacyLarge.LegacyInt.OrAssign | include/vecpp/ap_math/ap_int/large.h:823-829 | The words become the word-wise OR. |
| LegacyLarge.LegacyInt.XorAssign | include/vecpp/ap_math/ap_int/large.h:857-863 | The words become the word-wise XOR. |
| LegacyLarge.LegacyInt.AndWord | include/vecpp/ap_math/ap_int/large.h:802-811 | A new value holding `& word`. |
| LegacyLarge.LegacyInt.OrWord | include/vecpp/ap_math/ap_int/large.h:832-841 | A new value holding `\| word`. |
| LegacyLarge.LegacyInt.XorWord | include/vecpp/ap_math/ap_int/large.h:866-875 | A new value holding `^ word`. |
| LegacyLarge.LegacyInt.And | include/vecpp/ap_math/ap_int/large.h:802-811 | A new value holding the word-wise AND. |
| LegacyLarge.LegacyInt.Or | include/vecpp/ap_math/ap_int/large.h:832-841 | A new value holding the word-wise OR. |
| LegacyLarge.LegacyInt.Xor | include/vecpp/ap_math/ap_int/large.h:866-875 | A new value holding the word-wise XOR. |
| LegacyLarge.LegacyInt.ShlAssign | include/vecpp/ap_math/ap_int/large.h:879-898 | Corrected `<<=`: the pattern is `Val * 2^n mod 2^80`, and the value is `SVal * 2^n` modulo 2^80. `<<= 0` is a no-op. |
| LegacyLarge.LegacyInt.ShlAssignAsWritten | include/vecpp/ap_math/ap_int/large.h:879-898 | `<<=` as written: the lshift words with no clear, of value `Val * 2^n mod 2^128`. |
| LegacyLarge.LegacyInt.Shl | include/vecpp/ap_math/ap_int/large.h:901-904 | A new value holding the wrapped shifted value. |
| LegacyLarge.LegacyInt.ShrAssign | include/vecpp/ap_math/ap_int/large.h:907-936 | Corrected `>>=`, with the vacated words of a non-negative value zeroed: the arithmetic shift `floor(SVal / 2^n)`. As written, those words stay (`LimbOps.RShiftedStale`). |
| LegacyLarge.LegacyInt.Shr | include/vecpp/ap_math/ap_int/large.h:939-942 | A new value holding `floor(SVal / 2^n)`. |
| LegacyLarge.UnclearedSum | include/vecpp/ap_math/ap_int/large.h:418-432 | As written, `-1 + -1` leaves padding bits set: the value reads as -2, but the words compare above their cleared form. |
| Limits.Digits10Exact | include/vecpp/ap_math/limits.h:41 | `digits10 == 24`, because `10^24 <= 2^80 < 10^25`. |
| Limits.Min | include/vecpp/ap_math/limits.h:43 | `min()` is `1 << 79`: only the sign bit is set, with signed value `-2^79`. |
| Limits.SignPattern | include/vecpp/ap_math/limits.h:43 | Whatever the shift does to the padding, 1 shifted up by 79 is the sign bit alone. |
| Limits.Lowest | include/vecpp/ap_math/limits.h:44 | `lowest() == min()`. |
| Limits.Max | include/vecpp/ap_math/limits.h:45 | `max()` is `~min()`, with value `2^79 - 1`. |
| Limits.WrapsAtLimits | include/vecpp/ap_math/limits.h:38 | Arithmetic is modulo 2^80 (`is_modulo`): the value after the maximum is the minimum, and the minimum is its own negation. |
| Limits.MaxPlusOne | include/vecpp/ap_math/limits.h:38-45 | `max() + 1 == min()`. |
| Limits.NegatedMin | include/vecpp/ap_math/limits.h:38-45 | `-min() == min()`. |

`Limits.IS_MODULO` is `true` and `Limits.DIGITS` is 80 (limits.h:38, 40). They
are constants, so they have no contract.

## Left out

- The `std::ostream` and `std::ostringstream` plumbing of the stream operators (large_signed.h:508-528, large_unsigned.h:400-416). This is I/O; the model returns the text as a string.
- `&=`, `|=`, `^=` and `&`, `|`, `^` with a `uint64_t` operand in large_signed.h (lines 75-77, 86-88) and large_unsigned.h (lines 73-75, 84-86). They are declared but never defined, so there is nothing to model.
- `digits10` (limits.h:41) is a floating-point product in the source. It is modelled as the constant 24, with `Limits.Digits10Exact` showing that 24 is the truncation of `80 * log10(2)`.
- The `numeric_limits` of `Small_ap_int` (limits.h:18-31). That class lives in small.h, which is not part of this model.
- Widths other than 80. `BITS` is fixed at 80, the width the tests use, so `W == 2` and `LW == 16`. Loops over the words are written for any `W`; the proofs use `W == 2`.
- Undefined behaviour is not modelled as platform behaviour. At each site the intended behaviour is the contract:
  - the shifts by 64 in the carry terms of `lshift` and `rshift` (int_storage.h:185, 207) and of the legacy `<<=` and `>>=` (large.h:891, 921) mean no carry-in (`LimbOps.LShiftWord`, `LimbOps.RShiftWord`);
  - the `int`-typed `1 << (64 - bit_shift)` mask of `rshift` (int_storage.h:216) and of the legacy `>>=` (large.h:930) is a 64-bit mask (`LimbOps.TopMask`);
  - `-v` for `INT64_MIN` in the large.h constructor (large.h:177) stores 2^63.
- The index `words - word_shift - 1` in `rshift` (int_storage.h:217), and `words_ - word_shift - 1` in the legacy `>>=` (large.h:931), underflows for shifts of 128 or more. There the model leaves the top mask out, which matches the vacated words being all ones already.
- IntStorage.Storage.RShift: states the corrected `rshift` (vacated words zeroed in the non-filling branch); the shift as written is `LimbOps.RShifted`, related to it by `LimbOps.RShiftedAgrees` and `LimbOps.RShiftedStale`.
- IntStorage.Storage.CountLeadingZeros: requires clean storage. With dirty padding and a last word non-zero only in its padding, the source loop never ends (int_storage.h:283-292). `WordLoops.LeadingZeros` states the weaker condition it needs.
- IntStorage.Storage.UDivMod: requires a non-zero divisor or a numerator below 2^79. With a zero divisor and bit 79 set, the quotient bit would go past bit 79, which `set_bit` rejects. The method halves the divisor logically; the sign-filling halving as written is `DivisionFacts.SignFilledDivision`.
- LargeSigned.LargeInt.DivAssign: requires a non-zero divisor or a dividend other than `MIN`, for the same reason. Division by zero is not turned into an error, because the source does not do so.
- LegacyLarge.LegacyInt.UDivMod: specified only on the operands `/=` and `%=` hand it, non-negative or `MIN`. Other negative operands go through a signed-order loop whose result has no meaning.
- LegacyLarge.LegacyInt.CompareInt: the negative branch's loop over the middle words, which never decrements `parts` (large.h:253-258), has no word to visit at two words. At 80 bits it cannot loop forever, and the model gives it no iterations.
- LargeUnsigned.LargeUint.DivAssignInt: for `rhs == 0` it states only that the padding stays clean, not the quotient. `LargeUnsigned.LargeUint.DivAssign` states the zero-divisor quotient.
- LargeUnsigned.LargeUint.Div and LargeUnsigned.LargeUint.DivInt: the same, for `rhs == 0`.
- LargeUnsigned.LargeUint.DivAssign: the unsigned division operators require a non-zero divisor or a value below 2^79, as `udivmod` does.
- LargeSigned.LargeInt.ToString: uses the corrected `udivmod`. As written, `MIN` streams as `-0` (`SignedValues.MinimumRendersNegativeZero`); every other value streams as stated (`Decimal.RenderAgrees`).
- LargeSigned.LargeInt.DivAssign: uses the corrected `udivmod`. As written, a `MIN` dividend gives the wrong quotient, for example `MIN / 3 == 0` (`SignedValues.MinimumByThree`); every other dividend gives the stated quotient (`SignedValues.AsWrittenAgrees`).
- LargeSigned.LargeInt.RemAssign: uses the corrected `udivmod`. As written, `MIN % 3 == MIN` (`SignedValues.MinimumByThree`); every other dividend gives the stated remainder.
- SignedValues.ReadRenderedSigned: is stated for the corrected rendering. As written, `MIN` streams as `-0` and reads back as 0 (`SignedValues.MinimumRendersNegativeZero`).
- LargeUnsigned.UnsignedQuotient: is stated for the corrected `udivmod`. As written, a numerator from 2^79 on can give a wrong result, for example `2^79 / 3 == (0, 2^79)` (`DivisionFacts.SignFilledDivision`); below 2^79 the two agree (`DivisionFacts.UnsignedHalvingAgrees`).
- LargeUnsigned.LargeUint.DivAssign: uses the corrected `udivmod`. As written, `2^79 / 3 == 0`.
- LargeUnsigned.LargeUint.RemAssign: uses the corrected `udivmod`. As written, `2^79 % 3 == 2^79`.
- LargeUnsigned.LargeUint.ToString: uses the corrected `udivmod`. As written, values from 2^79 on can be misrendered; 2^79 itself streams as `0` (`Decimal.RenderSignAsWritten`).
- LargeUnsigned.ReadRenderedUnsigned: is stated for the corrected rendering. As written, the round trip holds below 2^79 (`Decimal.RenderAgrees`); 2^79 streams as `0`.
- LargeUnsigned.RenderParsed: is stated for the corrected rendering. As written, it holds below 2^79.
- LargeUnsigned.RenderParsedShort: is stated for the corrected rendering. As written, it fails from `604462909807314587353088` (2^79) on.
- LargeUnsigned.LargeUint.SubAssign: clears the padding after `subtract`. As written, `-=` calls `subtract` bare, so `0 - 1` leaves all 128 bits set (`SignedValues.UnclearedDifference`).
- LargeUnsigned.LargeUint.ShlAssign: clears the padding after `lshift`. As written, `2^79 << 1` keeps bit 80 (`SignedValues.UnclearedShift`).
- LegacyLarge.LegacyInt.ShiftedProduct: clears the padding after the `<<=`. As written, the shifted bits past bit 79 stay (`LegacyLarge.UnclearedProduct`).
- LegacyLarge.LegacyInt.AddAssignPattern: clears the padding after the Self `+=`. As written, the carry stays in the padding (`LegacyLarge.UnclearedSum`).
- LegacyLarge.LegacyInt.Mul: accumulates with the corrected `<<=` and `+=`. As written, the value is the same but the padding may be set: `2^40 * 2^74` holds bit 114 (`LegacyLarge.UnclearedProduct`).
- LegacyLarge.LegacyInt.ShrAssign: zeroes the vacated words of a non-negative value. As written, the non-negative branch leaves them in place, as `rshift` does (`LimbOps.RShiftedStale`): `[0, 1] >> 64` gives `[1, 1]`.
- LegacyLarge.LegacyInt.UnsignedMul: follows a build without assertions. `assert(!is_negative())` (large.h:503) is reached with `MIN` from `*` (large.h:591-593)
  and from `*= int64` (large.h:557-562), because negating `MIN` gives `MIN` again. The model takes no such precondition. Read as unsigned, `MIN` is 2^79, and the wrapped product is then still right.
- Built on the clearing `-=` (Findings rows 2, 3 and 6): `LargeSigned.LargeInt.SubAssign`, `LargeSigned.LargeInt.SubAssignInt`, `LargeSigned.LargeInt.Sub`, `LargeSigned.LargeInt.SubInt`, `LargeSigned.LargeInt.Decrement`, `LargeSigned.LargeInt.PostDecrement`; `LargeUnsigned.LargeUint.SubAssign`, `LargeUnsigned.LargeUint.SubAssignInt`, `LargeUnsigned.LargeUint.Sub`, `LargeUnsigned.LargeUint.SubInt`, `LargeUnsigned.LargeUint.Decrement`, `LargeUnsigned.LargeUint.PostDecrement`; `LegacyLarge.LegacyInt.SubAssign`, `LegacyLarge.LegacyInt.Sub`. As written, the padding keeps the borrow: `--x` from 0 reads as -1 (signed) or `2^80 - 1` (unsigned), but it does not compare equal to a freshly built -1 or maximum. Each of these contracts states the clean result.
- Built on the clearing `<<=` (Findings rows 4, 5, 7 and 8): `LargeSigned.LargeInt.ShlAssign`, `LargeSigned.LargeInt.Shl`, `LargeSigned.LargeInt.ShiftedProduct`; `LargeUnsigned.LargeUint.ShlAssign`, `LargeUnsigned.LargeUint.Shl`, `LargeUnsigned.LargeUint.ShiftedProduct`; `LegacyLarge.LegacyInt.ShlAssign`, `LegacyLarge.LegacyInt.Shl`, `LegacyLarge.LegacyInt.ShiftedProduct`, `LegacyLarge.LegacyInt.MagnitudeTimes`, `LegacyLarge.LegacyInt.Mul`, `LegacyLarge.LegacyInt.MulAssign`. As written, the bits shifted past bit 79 stay. For the `*` of large_signed.h and large_unsigned.h, the `+=` that consumes the partial product clears the padding, so `Mul` and `MagnitudeTimes` there hold as written; only the partial product of `ShiftedProduct` differs.
- Built on the clearing Self `+=` of large.h (Findings rows 6 and 8): `LegacyLarge.LegacyInt.AddAssign`, `LegacyLarge.LegacyInt.Add`, `LegacyLarge.LegacyInt.AddAssignPattern`, `LegacyLarge.LegacyInt.MagnitudeTimes`, `LegacyLarge.LegacyInt.Mul`, `LegacyLarge.LegacyInt.MulAssign`. As written, the carry stays in the padding: `-1 + -1` reads as -2 but compares above the clean -2.
- Built on the `rshift` that zeroes its vacated words (Findings rows 1 and 9): `IntStorage.Storage.RShift`; `LargeSigned.LargeInt.ShrAssign`, `LargeSigned.LargeInt.Shr`; `LargeUnsigned.LargeUint.Shr`; `LegacyLarge.LegacyInt.ShrAssign`, `LegacyLarge.LegacyInt.Shr`. As written, a value with bit 79 clear shifted by a word or more keeps its vacated words: `x = 1; x <<= 64; x >>= 64` gives `2^64 + 1`, not 1. The unsigned `>>=` and `>>` also fill with ones (Findings row 16).
- Built on the `udivmod` that halves its divisor logically (Findings rows 10 to 14): `IntStorage.Storage.UDivMod`, `IntStorage.Storage.LongDivision`, `IntStorage.HalveDivisor`, `LargeUnsigned.UnsignedQuotient`; `LargeSigned.LargeInt.DivideBy`, `LargeSigned.LargeInt.DivideSigned`, `LargeSigned.LargeInt.DivideMagnitudes`, `LargeSigned.LargeInt.DivAssign`, `LargeSigned.LargeInt.DivAssignInt`, `LargeSigned.LargeInt.Div`, `LargeSigned.LargeInt.DivInt`, `LargeSigned.LargeInt.RemAssign`, `LargeSigned.LargeInt.RemAssignInt`, `LargeSigned.LargeInt.Rem`, `LargeSigned.LargeInt.RemInt`, `LargeSigned.LargeInt.ToString`, `LargeSigned.LargeInt.DecimalDigits`, `LargeSigned.LargeInt.NextDigit`, `LargeSigned.LargeInt.DivideByTen`; `LargeUnsigned.LargeUint.DivAssign`, `LargeUnsigned.LargeUint.DivAssignInt`, `LargeUnsigned.LargeUint.Div`, `LargeUnsigned.LargeUint.DivInt`, `LargeUnsigned.LargeUint.RemAssign`, `LargeUnsigned.LargeUint.RemAssignInt`, `LargeUnsigned.LargeUint.Rem`, `LargeUnsigned.LargeUint.RemInt`, `LargeUnsigned.LargeUint.ToString`, `LargeUnsigned.LargeUint.DecimalDigits`, `LargeUnsigned.LargeUint.NextDigit`, `LargeUnsigned.LargeUint.DivideByTen`; `LegacyLarge.LegacyInt.DivideBy`, `LegacyLarge.LegacyInt.DivideSigned`, `LegacyLarge.LegacyInt.DivideMagnitudes`, `LegacyLarge.LegacyInt.DivAssign`, `LegacyLarge.LegacyInt.DivAssignInt`, `LegacyLarge.LegacyInt.Div`, `LegacyLarge.LegacyInt.DivInt`, `LegacyLarge.LegacyInt.RemAssign`, `LegacyLarge.LegacyInt.RemAssignInt`, `LegacyLarge.LegacyInt.Rem`, `LegacyLarge.LegacyInt.RemInt`. As written, a magnitude from 2^79 on can divide wrongly (`2^79 / 3 == (0, 2^79)`, `MIN / 3 == 0`, `MIN` streams as `-0`, 2^79 streams as `0`). The large.h division as written, with its signed compares, is `LegacyLarge.LegacyInt.DivAssignAsWritten` and gives `MIN / 1 == 0` (row 14). Below 2^79 both halvings agree (`DivisionFacts.UnsignedHalvingAgrees`).
- LegacyLarge.LegacyInt.OrAssignWord: states the new words, not a separate "only word 0 changed" clause; that follows from `OrWords` with `[rhs, 0]` and `Words.OrZero`.
- Aliasing of `*this` with an operand is modelled only for `/=` (`LargeSigned.LargeInt.DivAssignAsWritten`, `LegacyLarge.LegacyInt.DivAssignAsWritten`) and `%=`. The other compound operators read their operand before writing; their `ensures` speak of `old` values, and they are verified only for the words as the source reads them.

## Findings

| source | as written | input that shows it | evidently intended | confidence | as-written member | corrected member |
|---|---|---|---|---|---|---|
| include/vecpp/ap_math/ap_int/int_storage.h:203-220 | Without a set bit 79, `rshift` moves the words down but leaves the vacated top words as they were. | `[0, 1] >> 64` leaves `[1, 1]`, value `2^64 + 1` instead of 1. | Vacated words zero, for the value `floor(Val / 2^n)`. | not executed | LimbOps.RShiftedStale | LimbOps.RShiftedFixedUnsigned |
| include/vecpp/ap_math/ap_int/int_storage.h:139-152 | `subtract` never clears the padding (`add` does, line 133), and large_signed.h `-=` (254-258) calls it bare. | `1 - 2` leaves padding bits set. The value reads -1, but the unsigned storage compare ranks the words above their cleared form. | Padding cleared as in `add`. | not executed | SignedValues.UnclearedDifference | LargeSigned.LargeInt.SubAssign |
| include/vecpp/ap_math/ap_int/large_unsigned.h:213-217 | The unsigned `-=` calls `subtract` bare as well. | `0 - 1` leaves all 128 bits set. The value reads `2^80 - 1`, but it compares above the clean maximum. | Padding cleared after the subtraction. | not executed | SignedValues.UnclearedDifference | LargeUnsigned.LargeUint.SubAssign |
| include/vecpp/ap_math/ap_int/large_signed.h:481-485 | `<<=` calls `lshift`, which does not clear the padding. | `2^79 << 1` sets bit 80. The value reads 0, but it compares above 0. | Padding cleared after the shift. | not executed | SignedValues.UnclearedShift | LargeSigned.LargeInt.ShlAssign |
| include/vecpp/ap_math/ap_int/large_unsigned.h:373-377 | The unsigned `<<=` calls `lshift` bare as well. | `2^79 << 1` sets bit 80. The value reads 0, but it compares above 0. | Padding cleared after the shift. | not executed | SignedValues.UnclearedShift | LargeUnsigned.LargeUint.ShlAssign |
| include/vecpp/ap_math/ap_int/large.h:418-486 | Self `+=` and `-=` run the word loops with no padding clear. | `-1 + -1` carries into the padding. The value reads -2, but the words compare above their cleared form. | Padding cleared, as `+= Operand` does (large.h:413). | not executed | LegacyLarge.UnclearedSum, LegacyLarge.LegacyInt.AddAssignAsWritten | LegacyLarge.LegacyInt.AddAssign |
| include/vecpp/ap_math/ap_int/large.h:879-898 | `<<=` leaves its shifted padding bits. | `min()` is built by this shift (`LegacyLarge.LegacyInt.ShlAssignAsWritten`); `2^79 << 1` sets bit 80. | Padding cleared after the shift. | not executed | LegacyLarge.LegacyInt.ShlAssignAsWritten | LegacyLarge.LegacyInt.ShlAssign |
| include/vecpp/ap_math/ap_int/large.h:604-608 | `*` accumulates its partial products with that `<<=` and the Self `+=`. | `2^40 * 2^74` holds bit 114 alone. The value reads 0, but it compares above 0. | Padding cleared, for the wrapped product with clean padding. | not executed | LegacyLarge.UnclearedProduct | LegacyLarge.LegacyInt.Mul |
| include/vecpp/ap_math/ap_int/large.h:907-936 | For a non-negative value, `>>=` moves the words down but leaves the vacated top words, as `rshift` does. | `[0, 1] >> 64` leaves `[1, 1]`, value `2^64 + 1` instead of 1. | Vacated words zero. | not executed | LimbOps.RShiftedStale | LegacyLarge.LegacyInt.ShrAssign |
| include/vecpp/ap_math/ap_int/int_storage.h:353 | `udivmod` halves the divisor with the sign-filling `rshift(1)`, so a divisor aligned up to bit 79 keeps that bit. | `2^79 / 3` gives `(0, 2^79)`. | A logical halving, for `q * d + r == n` with `r < d` for every non-zero divisor. | not executed | DivisionFacts.SignFilledDivision | DivisionFacts.UDivModCorrect |
| include/vecpp/ap_math/ap_int/large_signed.h:353-421 | `/=` and `%=` divide the magnitudes with that `udivmod`, and the magnitude of `MIN` is 2^79. | `MIN / 3 == 0` and `MIN % 3 == MIN`. | `MIN / 3 == -(2^79 / 3)` and `MIN % 3 == -2`. | not executed | SignedValues.MinimumByThree | LargeSigned.LargeInt.DivAssign |
| include/vecpp/ap_math/ap_int/large_signed.h:508-528 | The stream operator divides the magnitude by ten with that `udivmod`. | `MIN` streams as `-0`. | The decimal spelling of `MIN`. | not executed | SignedValues.MinimumRendersNegativeZero | LargeSigned.LargeInt.ToString |
| include/vecpp/ap_math/ap_int/large_unsigned.h:400-416 | The unsigned stream operator divides by ten with that `udivmod`. | 2^79 streams as `0`. | `604462909807314587353088`. | not executed | Decimal.RenderSignAsWritten | LargeUnsigned.LargeUint.ToString |
| include/vecpp/ap_math/ap_int/large.h:657-662 | `udivmod` starts with the signed compare `denum > *this`, and `MIN` is below every other value. | `MIN / 1 == 0` and `MIN % 1 == MIN`. | `MIN / 1 == MIN` and `MIN % 1 == 0`. | not executed | LegacyLarge.MinimumByOne | LegacyLarge.MinimumByOneCorrected |
| include/vecpp/ap_math/ap_int/large_signed.h:357-366 | `/=` copies `rhs` after `*this` has been made non-negative, so for `x /= x` the divisor's sign is already gone. | `x = -5; x /= x` gives -1. | `x / x == 1`. | not executed | LargeSigned.LargeInt.DivAssignAsWritten | LargeSigned.LargeInt.DivAssign |
| include/vecpp/ap_math/ap_int/large_unsigned.h:386-391 | The unsigned `>>=` calls the sign-filling `rshift`. | `2^79 >> 1` gives `2^79 + 2^78`. | A logical shift: `2^78`. | not executed | LargeUnsigned.SignFilledShiftExample | LargeUnsigned.LargeUint.ShrAssign |

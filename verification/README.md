# A verified model of the big naturals, the hash map, the coroutine scheduler and the RPC codec

This Dafny project models four components of the repository and proves what they are for. Every
component is modelled in its own form: word arrays and views that are written in place, a class for
the hash map, for the scheduler, for the growing buffer and for the reader.

**Big naturals** (`cmake/bigint/src`). A number is a view (`Nats.Nat`: array, offset, length) of
little-endian 64-bit words; `Nats.Val` is the integer it stands for. The kernels are methods on such
views, with the aliasing the callers use, and each is proved against the integer operation:

- `Bits`, `Base`, `TrailingZeros`: machine words, shifts, bit operators; 64-bit add, subtract,
  multiply and the 128-by-64-bit division from half words; trailing zeros.
- `Nats`: values, views, allocation, normalising, comparing.
- `NatAddSub`: addition and subtraction. As written, a carry that leaves word 0 of the longer tail is
  added twice; the exact amount is `AddError` / `SubError`, with the exact condition for it to be 0.
- `Ripples`: a carry out of the low words into the high ones, with `addVW` and `subVW` as written or
  repaired (`Ripple`), on words and on values.
- `MulBasic`, `KaratsubaMul`, `Multiplication`, `Squaring`: schoolbook product, in-place Karatsuba,
  products of any two lengths, squares; the methods take the kind of ripple as an argument.
- `KaratsubaValue`, `MulValue`, `SqrValue`: what those methods compute, as functions of the operands,
  and when it is the product or the square.
- `Shift`, `WordDiv`, `DivBasic`, `DivRecursive`, `Division`: shifts over words, division by a word
  through a reciprocal, Knuth's Algorithm D, recursive division by blocks, normalise - divide -
  denormalise.
- `Positional`, `RadixTable`, `Conversion`, `NumberText`: positional notation, the table of powers,
  divide-and-conquer conversion, bit slicing, the final text.

**Hash map** (`cmake/swissmap/swissmap.h`). `SwissTable` has the control bytes with sentinel and
clones, the probe sequence and the growth allowance; `SwissHashMap` has the class and its refinement
of a map, for every capacity 2^k - 1 including those below 15.

**Scheduler** (`cmake/coroutine/src/co.c`). `Coroutines` has the slots, the status of each coroutine
and the order of turns; a coroutine's function is the number of times it still yields.

**Codec** (`cmake/rpc_c/rpc_util.c`, `cmake/rpc_c/rpc_c.h`). `RpcCodec` has the format, the buffer,
the reader and the parser. A handler is any function of the calls it has received.

## Where the code departs from what it is meant to do

- `addVW` and `subVW` pass the carry both as addend and as carry-in (`natadd.c:22-24`, `36-38`,
  `natsub.c:23-25`, `37-39`). `NatAddSub.AddVW` and `SubVW` are the code as written, with the exact
  result; `AddVWRepaired` and `SubVWRepaired` start each word with a carry-in of 0. Additions,
  products and squares are modelled with both (`AsWritten`, `Repaired`): the value stored as written
  is stated for all operands, with the exact condition for a single addition, a single level of
  Karatsuba and the lengths with one level, and with operands for which it is wrong (`AddGoesWrong`,
  `KaratsubaGoesWrong`, `MulGoesWrong`, `SqrGoesWrong`). For a whole recursion the condition
  (`KaratsubaRight`, `MulRight`, `SqrRight`) suffices. A doubled carry and a doubled borrow can cancel
  (`CarryAndBorrowCancel`), so right single steps are not necessary for a right product.
- The recursive division, from 100 words on, is proved with the repaired ripple only. Through long
  squares (260 words) and long divisions this reaches `natDiv` and `natRem`, the table of powers and
  the conversion to text.
- `natDivBasic`, `natDivW`, `basicMul`, `basicSqr`, `mulAddVWW` and `shlVU` use neither and are proved
  as written.
- The long forms of `addVW` and `subVW` copy `x.len` words from the word where their loop stops
  (`natadd.c:19`, `natsub.c:20`), so they can write behind z: `NatSubStaysInside` and
  `NatAddStaysInside` say exactly when natSub and natAdd do not.
- `natNew(0)` has length 1, so `natMul` by zero returns a number that is not normalised
  (`Multiplication.NatMul` says when). In the recursive division the comparison of line 174 (202 in
  the last block) then calls 0 greater than a rest of 0, which starts a correction that is not due.
  That happens if and only if some block's window is zero (`DivRecursive.GoesWrong`), for instance for
  v * W^m with m above half the length of v (`MultipleGoesWrong`, `NatDivGoesWrong`). The exact
  division is proved with the product normalised (`DivRecursive.PendingProduct`).
- `natI2a` prints `natNew(0)` as the empty string, or the sign alone, in every base
  (`NumberText.NatI2a`).
- `natDivW` leaves `*r` unset for a divisor of 1. `Division.NatDiv` therefore returns an arbitrary
  word (`junk`) as remainder when v is 1 and u is not below it (`Division.RemainderUnset`).
- The hash map's `erase` gives growth back but leaves a tombstone, so `Churn` uses up the Empty bytes
  of a table of 15 slots or more; then the probe for an absent key does not end (`ProbeRunsOn`).
  `Run` says for every sequence of operations how far it gets.
- `co_new` scans modulo capacity + 1 from nco on, so it can read the position behind the last slot
  (`Coroutines.GapGoesUnnoticed`); with every slot taken by coroutines that have ended it fails
  (`Coroutines.StoppedSlotsFill`). `New` states exactly when.
- A packed message of 65536 bytes or more is sent with a truncated length and all its bytes, and is
  parsed wrongly; a longer string is cut (`RpcCodec.DecodeEncode`, both directions).

## Model

| member | source | states |
|---|---|---|
| Base.Len64 | cmake/bigint/src/base.c:36-51 | the shift cascade and the byte table give the bit length of every 64-bit word |
| Base.LeadingZeros64 | cmake/bigint/src/base.c:75-77 | the number of leading zero bits, 64 for 0 |
| Base.Normalises | cmake/bigint/src/natdiv.c:12-13 | shifting a nonzero word left by its leading zeros loses no bit and sets the top bit |
| Base.NegatedWord | cmake/bigint/src/natconv.c:278-279 | `x & -x` is the power of two of the lowest set bit of x |
| TrailingZeros.TrailingZeros64 | cmake/bigint/src/base.c:85-117 | the multiplication by the de Bruijn constant and the table of 64 bytes give the number of trailing zero bits of every nonzero word, 64 for 0 |
| Base.U64Add | cmake/bigint/src/base.c:134-138 | sum word and carry bit, computed from the wrapped sum by bit operations, stand for the exact sum of both words and the carry-in; the carry is 0 or 1 |
| Base.U64Sub | cmake/bigint/src/base.c:159-163 | difference word and borrow bit stand for the exact difference; the borrow is 0 or 1 |
| Base.U64Mul | cmake/bigint/src/base.c:184-197 | the two words built from four 32-bit products stand for the exact 128-bit product |
| Base.DigitEstimate | cmake/bigint/src/base.c:248-249 | the quotient of the leading part by the high half of a normalised divisor is never below the true half-word digit and at most 2 above it |
| Base.CorrectDigit | cmake/bigint/src/base.c:251-257 | the correction loop of the first digit (the same code as lines 263-269) ends at the true digit after at most two corrections |
| Base.TestFits | cmake/bigint/src/base.c:251 | no product or sum in the correction test wraps around: it compares the true values |
| Base.WrapsBack | cmake/bigint/src/base.c:259 | the wrapped expression for the rest is its true value whenever that fits in a word |
| Base.DivDigit | cmake/bigint/src/base.c:248-259 | one half-word digit: the exact quotient and remainder of three half words by the divisor, although the remainder is computed with wrap-around |
| Base.DivNormalised | cmake/bigint/src/base.c:246-271 | division of a double word by a divisor with its top bit set: exact quotient and remainder |
| Base.U64Div | cmake/bigint/src/base.c:220-272 | for every hi < y: q * y + rem == hi * 2^64 + lo and rem < y |
| Nats.ValInjective | cmake/bigint/src/nat.h:14-20 | two word arrays of one length with the same value are the same words: the little-endian notation is unambiguous |
| Nats.NormLenMeans | cmake/bigint/src/nat.c:73-80 | dropping leading zero words keeps the value, drops only zeros and leaves a nonzero top word |
| Nats.NatNorm | cmake/bigint/src/nat.c:73-80 | the loop finds exactly that length; value kept, result normalised |
| Nats.NatCmp | cmake/bigint/src/nat.c:82-105 | compares lengths first and values only at equal length, for arbitrary (also unnormalised) operands |
| Nats.PartIs | cmake/bigint/src/nat.c:61-71 | a part has exactly those words of the number, in the same storage, and no room beyond them |
| Nats.CmpIsValueOrder | cmake/bigint/src/nat.c:82-105 | that answer is the order of the values as soon as the longer operand is normalised |
| Nats.NewWord | cmake/bigint/src/nat.c:22-28 | natNew yields one word, also for the value 0, so its zero is not normalised |
| NatAddSub.AddVV | cmake/bigint/src/natadd.c:5-12 | low words plus carry-out are the exact sum of the common words; in place allowed when writing never overtakes reading; nothing else is written |
| NatAddSub.SubVV | cmake/bigint/src/natsub.c:6-13 | low words minus borrow-out are the exact difference of the common words |
| NatAddSub.AddVW | cmake/bigint/src/natadd.c:29-41 | as written, both variants leave exactly CarryRipple of the words within z: each carry re-enters both as addend and as carry-in; of z nothing else is written, and the copy of the long variant ends where WriteEnd says |
| NatAddSub.AddVWLarge | cmake/bigint/src/natadd.c:14-27 | of the words within z, the variant that stops and copies the tail leaves the same words and carry as the plain loop, and the copy ends where WriteEnd says: x.len words behind the word at which the loop stops, if it stops |
| NatAddSub.SubVW | cmake/bigint/src/natsub.c:30-42 | as written, both variants leave exactly BorrowRipple of the words within z; the copy of the long variant ends where WriteEnd says |
| NatAddSub.SubVWLarge | cmake/bigint/src/natsub.c:15-28 | of the words within z, the variant that stops and copies the tail leaves the same words and borrow as the plain loop; the copy ends as in AddVWLarge |
| NatAddSub.CarryStopsAtEnd | cmake/bigint/src/natadd.c:17-25 | the loop of addVWlarge goes through to the end if and only if every word but the last carries: the first together with the addend, each further one together with 2 |
| NatAddSub.BorrowStopsAtEnd | cmake/bigint/src/natsub.c:18-26 | the same for the loop of subVWlarge |
| NatAddSub.CarryRippleValue | cmake/bigint/src/natadd.c:32-40 | the value of that result is x + y plus CarryExcess, the carries counted twice |
| NatAddSub.CarryExcessZero | cmake/bigint/src/natadd.c:32-40 | the excess is zero if and only if there is at most one word or no carry leaves word 0 |
| NatAddSub.BorrowRippleValue | cmake/bigint/src/natsub.c:33-41 | the value of that result is x - y minus BorrowExcess |
| NatAddSub.BorrowExcessZero | cmake/bigint/src/natsub.c:33-41 | the excess is zero if and only if there is at most one word or no borrow leaves word 0 |
| NatAddSub.NatAdd | cmake/bigint/src/natadd.c:43-62 | for any two operands the result is x + y + AddError, the exact amount by which the code as written is off, in a new normalised number; with an empty operand it is the other one itself; what is written ends at AddWriteEnd |
| NatAddSub.AddErrorZero | cmake/bigint/src/natadd.c:43-62 | natAdd is exact if and only if the shorter operand is empty, the lengths differ by at most 1, addVV carries nothing, or the word of the longer operand after the shorter one is not 2^64 - 1 |
| NatAddSub.AddGoesWrong | cmake/bigint/src/natadd.c:29-62 | a concrete sum, of three words and one word, that comes out 2^128 too large |
| NatAddSub.NatSub | cmake/bigint/src/natsub.c:44-60 | for any two operands the result with its borrow is x - y - SubError, in a new normalised number (5 - 5 is the empty one); with y empty it is x itself; what is written ends at SubWriteEnd |
| NatAddSub.SubErrorZero | cmake/bigint/src/natsub.c:44-60 | SubError is zero if and only if the subtrahend is empty, the lengths differ by at most 1, subVV borrows nothing, or the next word is not 0 |
| NatAddSub.SubExactIff | cmake/bigint/src/natsub.c:44-60 | for x >= y, natSub returns x - y with a final borrow of 0 if and only if SubError is zero |
| NatAddSub.SubGoesWrong | cmake/bigint/src/natsub.c:30-60 | a concrete difference, of three words and one word, that comes out 2^128 too small |
| NatAddSub.NatSubStaysInside | cmake/bigint/src/natsub.c:15-59 | the copy of subVWlarge, x.len words from where its loop stops, stays within the words of natSub's result if and only if the lengths differ by at most 32, nothing is borrowed, or the borrow goes through to the last word |
| NatAddSub.NatAddStaysInside | cmake/bigint/src/natadd.c:14-62 | the same for natAdd, which has one word more and sets it afterwards, so the carry may also stop in the first word |
| NatAddSub.NatSubOverruns | cmake/bigint/src/natsub.c:15-59 | an input of 34 words and one for which natSub writes one word behind its result |
| NatAddSub.NatAddOverruns | cmake/bigint/src/natadd.c:14-62 | an input of 34 words and one for which natAdd writes one word behind its result |
| NatAddSub.AddVWRepaired | cmake/bigint/src/natadd.c:29-41 | the repaired loop (carry-in 0): value plus carry is exactly x + y |
| NatAddSub.SubVWRepaired | cmake/bigint/src/natsub.c:30-42 | the repaired loop (borrow-in 0): value minus borrow is exactly x - y |
| MulBasic.MulAddVWW | cmake/bigint/src/natmul.c:48-54 | z and the returned word are exactly x * y + r, in place or not |
| MulBasic.AddMulVVW | cmake/bigint/src/natmul.c:19-30 | z and the returned word are exactly old z + x * y |
| MulBasic.BasicMul | cmake/bigint/src/natmul.c:32-39 | the schoolbook loop, skipping zero words, leaves x * y in the first x.len + y.len words of z, from any previous contents, and writes nothing else |
| KaratsubaMul.KaratsubaAdd | cmake/bigint/src/natmul.c:78-83 | stores Added(z, x) in the sense of either addVW; as written this is z + x + AddError up to the dropped carry, and for a sum that fits it is the sum if and only if n is 0, at most one word lies above, addVV carries nothing, or the first word above is not 2^64 - 1; with the repaired addVW always |
| KaratsubaMul.KaratsubaSub | cmake/bigint/src/natmul.c:85-90 | stores Subtracted(z, x) in the sense of either subVW; as written this is z - x - SubError up to the dropped borrow, and for a difference that is not negative it is the difference if and only if n is 0, at most one word lies above, subVV borrows nothing, or the first word above is not 0; with the repaired subVW always |
| Ripples.AddErrorBelow | cmake/bigint/src/natadd.c:29-41 | AddError stays below W^(length of z), so the dropped carry never makes up for it |
| Ripples.SubErrorBelow | cmake/bigint/src/natsub.c:30-42 | SubError stays below W^(length of z), so the dropped borrow never makes up for it |
| Ripples.SumGoesWrong | cmake/bigint/src/natmul.c:137-150 | a family of operands of addAt whose sum fits and comes out wrong: 1 added to n + 1 words 2^64 - 1 with zero words above |
| Ripples.DifferenceGoesWrong | cmake/bigint/src/natsub.c:30-42 | a family of differences by subVV and then subVW that come out wrong: 1 taken from a number whose n + 1 lowest words are 0 and that has words above |
| Ripples.TimesExact | cmake/bigint/src/natadd.c:29-41 | k carries, one after the other, into a number with room for them are exact as written if and only if its word 0 has room for k; once that word overflows, no further carry makes the number right again |
| Ripples.DownAfterUp | cmake/bigint/src/natsub.c:30-42 | a borrow as written undoes a carry as written, doubled carries and all |
| Ripples.SubtractionFollows | cmake/bigint/src/natmul.c:126-134 | if the additions before it were exact, a karatsubaSub that leaves the upper words not below their start is exact as well: in karatsuba only additions go wrong on their own |
| KaratsubaMul.AbsDiff | cmake/bigint/src/natmul.c:107-118 | the two subtractions leave the absolute difference, and the sign says which operand was larger |
| KaratsubaValue.SumFits | cmake/bigint/src/natmul.c:126-128 | after both halves' products are added in the middle, the intermediate sum still fits in 2n words, before the third product is added or subtracted |
| KaratsubaMul.HalfProducts | cmake/bigint/src/natmul.c:104-105 | the second recursive call does not disturb the result of the first; both stand in z next to each other |
| KaratsubaMul.DifferenceProduct | cmake/bigint/src/natmul.c:107-121 | the differences and their product are computed in further regions of z; the results stored before survive, and the sign tracks (x1 - x0)(y0 - y1) |
| KaratsubaMul.Combine | cmake/bigint/src/natmul.c:123-134 | from the three results and the saved copy, all in overlapping parts of z, Combination of them is left in the first 2n words, with either ripple and for any contents |
| KaratsubaMul.Karatsuba | cmake/bigint/src/natmul.c:92-135 | for x and y of n words and any z of at least 6n words apart from them, z[0..2n) becomes Product(x, y): exactly what the code computes, as written or with the repaired ripple; only z[0..6n) is written; the recursion ends |
| KaratsubaValue.CombinationExact | cmake/bigint/src/natmul.c:123-134 | with exact products of the halves, the block additions as written leave x * y if and only if word 0 of the top quarter of x1 * y1 has room for what the whole product carries into that quarter (RoomForCarries); with the repaired ripple always |
| KaratsubaValue.ProductExact | cmake/bigint/src/natmul.c:92-135 | karatsuba is exact for all operands with the repaired ripple, and as written for those with room on every level of the recursion (KaratsubaRight) |
| KaratsubaValue.OneLevelExact | cmake/bigint/src/natmul.c:92-135 | as written, for operands whose halves go to basicMul, karatsuba is exact if and only if there is room |
| KaratsubaValue.KaratsubaGoesWrong | cmake/bigint/src/natmul.c:92-135 | operands of karatsuba, for every such length, whose product comes out wrong: W^2h - 1 times W^h - 1 + W^h (W^h - W) |
| KaratsubaValue.CarryAndBorrowCancel | cmake/bigint/src/natmul.c:126-134 | operands of karatsuba for which the second karatsubaAdd and then karatsubaSub store wrong values and the product is right: no condition on the single steps is necessary |
| Multiplication.KaratsubaLen | cmake/bigint/src/natmul.c:69-76 | the length is p * 2^i with p == floor(n / 2^i) at most the threshold and i the least such number: n with its low i bits cleared, positive for a positive n and threshold |
| Multiplication.AddAt | cmake/bigint/src/natmul.c:137-150 | z becomes AddedAt(z, x, i) in the sense of either addVW, writing nothing below word i; for a sum that fits in z this is z + x * W^i if and only if the ripple is repaired or the words from i on meet the condition of KaratsubaAdd |
| Multiplication.NatMulAddWW | cmake/bigint/src/natmul.c:56-67 | x * y + r in a number of its own, normalised unless x is empty or y is 0 |
| Multiplication.BlockLoop | cmake/bigint/src/natmul.c:186-198 | the loop leaves what BlockValues says: every block of x times both parts of y, added at its place |
| Multiplication.NatMul | cmake/bigint/src/natmul.c:152-201 | returns MulWords(x, y), exactly what the code computes for operands of any two lengths, as written or with the repaired addVW; that is x * y with the repaired one and wherever MulRight holds; the one-word zero of natNew(0) if the shorter operand (the second at equal lengths) is empty or that zero, otherwise normalised; the recursion ends |
| MulValue.AddedAtExact | cmake/bigint/src/natmul.c:137-150 | an addAt whose sum fits is exact as written if and only if the words of x carry nothing or the word above them is not 2^64 - 1 |
| MulValue.ShortBlock | cmake/bigint/src/natmul.c:179-195 | a block with fewer than 40 significant words, however many zeros lead it, contributes its exact product with any number, as written too |
| MulValue.ShortBlocksExact | cmake/bigint/src/natmul.c:152-201 | natMul as written is exact if y is normalised and one block long, the lowest block of x is multiplied rightly, and every further block has fewer than 40 significant words |
| MulValue.ShiftedShortExact | cmake/bigint/src/natmul.c:152-201 | in particular if the lowest block is zero; the factor of 81 words (W^30 - W^21 + W^20 - 1) * W^40 + W^80 with W^40 - 1 is such a pair |
| MulValue.ShortButWrong | cmake/bigint/src/natmul.c:179-195 | what the normalising of blocks is needed for: multiplied by karatsuba at its full length, such a block of h + a significant words in 2h comes out wrong |
| MulValue.MulExact | cmake/bigint/src/natmul.c:152-201 | natMul is exact for all operands with the repaired addVW, and as written for those for which every karatsuba, every product and every addAt inside is right (MulRight, a predicate on the operands) |
| MulValue.MulExactIff | cmake/bigint/src/natmul.c:152-201 | for two operands of the same even number of words from 40 to 78, natMul as written is exact if and only if there is room (RoomForCarries); the condition MulRight is exactly that here |
| MulValue.MulGoesWrong | cmake/bigint/src/natmul.c:152-201 | operands of each of these lengths that natMul as written multiplies wrongly |
| Squaring.SquareIs | cmake/bigint/src/natmul.c:209-217 | the square of a number is the sum of the squares of its words in place plus twice the triangle of cross products |
| Squaring.DoubleAndAdd | cmake/bigint/src/natmul.c:215-217 | the triangle, shifted left by one bit from its second word, loses no bit, and adding it to the squares carries nothing out of 2n words |
| Squaring.BasicSqr | cmake/bigint/src/natmul.c:206-220 | z[0..2n) becomes x * x for every length n >= 1 |
| Squaring.KaratsubaSqr | cmake/bigint/src/natmul.c:222-251 | z[0..2n) becomes Square(x), exactly what the code computes, as written or with the repaired ripple, for any z of at least 6n words apart from x |
| Squaring.NatSqr | cmake/bigint/src/natmul.c:254-294 | returns SqrWords(x), always normalised: x * x below 260 words, with the repaired ripple, and wherever SqrRight holds |
| SqrValue.SquareExact | cmake/bigint/src/natmul.c:222-251 | karatsubaSqr is exact with the repaired ripple, and as written for operands with room on every level |
| SqrValue.OneLevelSquare | cmake/bigint/src/natmul.c:222-251 | as written, for operands whose halves go to basicSqr, it is exact if and only if there is room |
| SqrValue.ShortSquareExact | cmake/bigint/src/natmul.c:254-274 | as written, the square of fewer than 260 words is exact |
| SqrValue.SqrExact | cmake/bigint/src/natmul.c:254-294 | natSqr is exact with the repaired ripple, and as written for operands for which every part and every addAt inside is right (SqrRight) |
| SqrValue.SqrExactIff | cmake/bigint/src/natmul.c:254-294 | for an even number of words from 260 to 518, natSqr as written is exact if and only if there is room; the condition SqrRight is exactly that here |
| SqrValue.SqrGoesWrong | cmake/bigint/src/natmul.c:254-294 | operands of each of these lengths that natSqr as written squares wrongly |
| WordDiv.ReciprocalWord | cmake/bigint/src/natdiv.c:11-17 | the word m with m + W == floor((W^2 - 1) / d), d being d1 shifted until its top bit is set |
| WordDiv.GuessBounds | cmake/bigint/src/natdiv.c:31-45 | the first guess of the quotient word is never high and low by at most 2 |
| WordDiv.DivWW | cmake/bigint/src/natdiv.c:19-48 | for x1 < y and the reciprocal of y: the exact quotient and remainder of x1 * W + x0 by y |
| WordDiv.NatDivWVW | cmake/bigint/src/natdiv.c:51-63 | z and the returned word are quotient and remainder of xn * W^n + x by y |
| WordDiv.NatDivW | cmake/bigint/src/natdiv.c:65-77 | quotient and remainder for y > 1 and nonempty x; for y == 1 or empty x the remainder stays what it was before the call |
| DivBasic.TestProvesHigh | cmake/bigint/src/natdiv.c:105-106 | when the two-word test fires, the digit is too large |
| DivBasic.TestProvesClose | cmake/bigint/src/natdiv.c:105-113 | when the test stops, or rhat overflows its word, the digit is at most one too large |
| DivBasic.EqualLeads | cmake/bigint/src/natdiv.c:93-98 | with equal leading words the digit W - 1 is at most one too large |
| DivBasic.EstimateDigit | cmake/bigint/src/natdiv.c:93-114 | the estimate is the true digit or one more, for every dividend below W times the divisor |
| DivBasic.AddBack | cmake/bigint/src/natdiv.c:121-129 | one add-back turns a digit that is one too large into the true digit, and its carry cancels the borrow |
| DivBasic.DivStep | cmake/bigint/src/natdiv.c:93-129 | one round: u[j..] becomes its remainder modulo v and the stored digit is its quotient |
| DivBasic.NatDivBasic | cmake/bigint/src/natdiv.c:83-136 | for a divisor of n >= 2 words with its top bit set and a quotient with enough room: old u == q * v + u and u < v; only q's digits and u are written |
| DivRecursive.WideEstimate | cmake/bigint/src/natdiv.c:167-170 | the quotient of the leading words by v[s..] is never below the block's true quotient and at most 2 above it |
| DivRecursive.CorrectOnce | cmake/bigint/src/natdiv.c:174-182 | one correction (repaired subVW and addAt) takes 1 off the estimate, v[..s] off the pending product and puts v[s..] back, keeping their relation |
| DivRecursive.NoThirdCorrection | cmake/bigint/src/natdiv.c:184 | after at most two corrections the pending product is not above the rest, so the asserts hold |
| DivRecursive.Correct | cmake/bigint/src/natdiv.c:173-184 | the correction loop (repaired subVW and addAt) ends with the pending product at most the rest |
| DivRecursive.WideDigit | cmake/bigint/src/natdiv.c:164-188 | one block (repaired addVW and subVW): qhat becomes the exact quotient of the window by v and the window its remainder; its comparisons meet the unnormalised zero product wrongly if and only if BlockGoesWrong of the window: it is zero, or the division of its leading words goes wrong |
| DivRecursive.Deeper | cmake/bigint/src/natdiv.c:155-168 | each recursion halves the divisor, so depth + 1 stays below 2 * Len(v.len) as both asserts claim |
| DivRecursive.DivRecursiveStep | cmake/bigint/src/natdiv.c:138-219 | old u == z * v + u and u < v, z cleared before (repaired addVW and subVW; the zero product normalised); with the product as natMul returns it some comparison answers wrongly if and only if GoesWrong |
| DivRecursive.NatDivRecursive | cmake/bigint/src/natdiv.c:221-236 | the same for the whole call: the quotient and remainder that natDivBasic computes, and GoesWrong as the exact condition for a wrong comparison |
| DivRecursive.RawZeroProduct | cmake/bigint/src/natdiv.c:172-174 | with natNew(0) as product the comparison answers by value if and only if the rest is not zero |
| DivRecursive.FirstComparison | cmake/bigint/src/natdiv.c:172-176 | the first comparison of a block, with the product as natMul returns it, answers wrongly if and only if the block's window is zero |
| DivRecursive.MultipleGoesWrong | cmake/bigint/src/natdiv.c:163-176 | reachable inputs: for every normalised divisor of 100 words or more and every m above half its length, the division of v * W^m goes wrong, because its first block clears the dividend |
| Shift.ShlVU | cmake/bigint/src/natdiv.c:238-255 | z plus the returned word is x * 2^s over the words the code visits (z.len of them, or x.len for s == 0, also when the views differ in length), in place or overlapping x from above (from below for s == 0); the returned word is below 2^s |
| Shift.ShrVU | cmake/bigint/src/natdiv.c:257-275 | z is floor(x / 2^s) and the returned word the bits shifted out, in place or overlapping x from below |
| Shift.ShlValue | cmake/bigint/src/natdiv.c:238-255 | joining neighbouring words bit by bit is multiplication by 2^s |
| Shift.ShrValue | cmake/bigint/src/natdiv.c:257-275 | joining neighbouring words bit by bit is division by 2^s, with the bits shifted out as remainder |
| Shift.NatCopy | cmake/bigint/src/nat.h:40-43 | copies a view to the front of one at least as long, also onto an overlapping one it does not overtake; the rest stays |
| Division.NatMake | cmake/bigint/src/nat.c:30-42 | reuses the storage if it is larger than needed, otherwise takes new storage, zeroed and with 4 words to spare (none for a single word) |
| Division.NatSet | cmake/bigint/src/nat.h:45-49 | the copy has the words of the original, in the old storage if and only if that is larger than needed |
| Division.TopBitSet | cmake/bigint/src/natdiv.c:281-283 | shifting the divisor by the leading zeros of its top word loses nothing and sets its top bit |
| Division.RoomForQuotient | cmake/bigint/src/natdiv.c:284-287 | with the extra top word the shifted dividend is below the shifted divisor times W^(m+1), so m + 1 quotient words suffice |
| Division.NatDivLarge | cmake/bigint/src/natdiv.c:277-299 | floor quotient and remainder of the original operands, both normalised, for divisors of any length >= 2, by the schoolbook method below 100 words as written and recursively from there on (repaired ripple, zero product normalised); the code itself meets a misjudged comparison if and only if LargeGoesWrong |
| Division.NatDiv | cmake/bigint/src/natdiv.c:301-317 | quotient and remainder for every u and every normalised nonzero v (from 100 words on with the repaired ripple and a normalised zero product); the remainder is an uninitialised word exactly when v is 1 and u is not below it; a misjudged comparison is met if and only if DivGoesWrong |
| Division.NatDivGoesWrong | cmake/bigint/src/natdiv.c:277-317 | operands of natDiv that meet one: v * W^m for every normalised v of 100 words or more and every m above half its length |
| Division.NatRem | cmake/bigint/src/natdiv.c:319-324 | the remainder of natDiv (from 100 words on as there), normalised if the dividend is, in the given storage or new |
| Positional.DigitsReadBack | cmake/bigint/src/natconv.c:186-187 | reading n padded digits gives the number back if it fits in n digits |
| Positional.DigitsInOrder | cmake/bigint/src/natconv.c:186-187 | the character of digit d is the one at index d of the literal alphabet: digits, then lower-case, then upper-case letters |
| Positional.TextReadBack | cmake/bigint/src/natconv.c:257-333 | reading a numeral gives the number back |
| Positional.TextInjective | cmake/bigint/src/natconv.c:257-333 | different numbers have different numerals |
| Positional.DigitsSplit | cmake/bigint/src/natconv.c:216-219 | the digits of q * b^k + r are those of q followed by k digits of r |
| Positional.NoPadding | cmake/bigint/src/natconv.c:319-323 | padded digits without leading zero are the numeral |
| RadixTable.NatBitLen | cmake/bigint/src/natconv.c:13-26 | spreading the top bit downwards does not change the bit length |
| RadixTable.BitLenBrackets | cmake/bigint/src/natconv.c:13-26 | for a normalised number the bit length n satisfies 2^(n-1) <= x < 2^n |
| RadixTable.NatExpWW | cmake/bigint/src/natconv.c:52-145 | square and multiply over the exponent bits from the top gives x^y for every y >= 1 (no modulus; squares of 260 words or more with the repaired ripple); the result is normalised except for 0^1 |
| RadixTable.MaxPow | cmake/bigint/src/natconv.c:189-197 | the largest power of b that fits in a word, for every base 2 to 62: its product with b does not fit |
| RadixTable.NoNearMiss | cmake/bigint/src/natconv.c:192 | why the loop, which compares with floor((2^64 - 1) / b), never stops one power early: for no base from 2 to 62 does a power of b fall among the b numbers below 2^64 |
| RadixTable.Enlarge | cmake/bigint/src/natconv.c:174-178 | the entry becomes the largest power of b of its number of words, and ndigits its exponent |
| RadixTable.NextEntry | cmake/bigint/src/natconv.c:166-180 | each entry satisfies bbb == b^ndigits, is normalised, has its bit length stored and at least twice the digits of the one before (squares of 260 words or more with the repaired ripple) |
| RadixTable.Divisors | cmake/bigint/src/natconv.c:147-184 | the whole table for a number of m words: every entry as above (long squares with the repaired ripple), none if and only if m <= 8, the first at most 8 words long, and exactly as many entries as doubling 8 words takes to reach half of m |
| Conversion.PickEntry | cmake/bigint/src/natconv.c:206-215 | walking down from start to the first entry whose lower neighbour has at most half the bits of q, and one further if that entry is not below q: the entry chosen is strictly below q, and index never passes below 0 |
| Conversion.EntryFits | cmake/bigint/src/natconv.c:217 | an entry below q has fewer digits than there is room for, so h is not negative |
| Conversion.OneBlock | cmake/bigint/src/natconv.c:207-219 | one round of the loop: the remainder's digits go behind those of the smaller quotient (divisions by entries of 100 words or more as in NatDiv) |
| Conversion.EmitDecimal | cmake/bigint/src/natconv.c:230-235 | the decimal loop writes the digits of one word, zero-padded, as far as there is room |
| Conversion.EmitDigits | cmake/bigint/src/natconv.c:246-250 | the loop for other bases does the same through the digit table |
| Conversion.Leaf | cmake/bigint/src/natconv.c:223-255 | word by word from the back, then zeros: the buffer holds the padded digits |
| Conversion.ConvertWords | cmake/bigint/src/natconv.c:199-255 | for every q < b^slen that is normalised or the one-word zero, and every table size, exactly slen zero-padded digits are written and nothing else (long squares and divisions with the repaired ripple); it ends |
| NumberText.SliceStraddle | cmake/bigint/src/natconv.c:295-302 | the digit joined from two words, despite the truncating shift, is the next digit of the number |
| NumberText.SliceBits | cmake/bigint/src/natconv.c:280-310 | for a base 2^shift the loop writes the digits of x from the back and stops at the most significant nonzero one; the one-word zero writes nothing |
| NumberText.Stripped | cmake/bigint/src/natconv.c:318-321 | a padded digit string without its leading zeros is the numeral |
| NumberText.DivideToDigits | cmake/bigint/src/natconv.c:312-325 | conversion by division and skipping zeros leaves the numeral, with a place left for the sign if one was provided (long squares and divisions with the repaired ripple) |
| NumberText.NatI2a | cmake/bigint/src/natconv.c:257-333 | for every base 2 to 62 and every x that is normalised or the one-word zero of natNew(0): "0" for the empty number, the sign and the numeral for every other normalised one, and only the sign for natNew(0); so a nonempty x is printed as its numeral if and only if it is normalised (long squares and divisions with the repaired ripple, for bases that are not powers of two) |
| NumberText.PowersAreSliced | cmake/bigint/src/natconv.c:277-279 | the test of the base is true of the powers of two and of no other base |
| SwissTable.SetKeepsCtrl | cmake/swissmap/swissmap.h:269-275 | setCtrl keeps every clone equal to its original, the sentinel in place and the bytes past the clones Empty, at every capacity |
| SwissTable.Marks | cmake/swissmap/swissmap.h:12-16 | the marks are the bytes 10000000, 11111110 and 11111111, and only Empty and Deleted lie below the sentinel |
| SwissTable.ByteAt | cmake/swissmap/swissmap.h:165-171 | every byte of a 16-byte window is the byte of the slot its position wraps to, or an always Empty byte of a small table |
| SwissTable.GroupOf | cmake/swissmap/swissmap.h:176-222 | the probe from any home position shows every slot, within (cap + 1) / 16 groups, or one group for cap < 15 |
| SwissTable.SetKeepsReached | cmake/swissmap/swissmap.h:269-275 | writing anything but Empty keeps every slot reachable before any Empty byte |
| SwissTable.AllowanceBounds | cmake/swissmap/swissmap.h:115-116 | the allowance of a table of cap slots lies between (cap + 1) / 2 and 3 (cap + 1) / 4, from one slot on |
| SwissTable.AllowanceGrows | cmake/swissmap/swissmap.h:115-116 | the next table's allowance is strictly larger than the entries it has to take over; below the number of slots from three slots on |
| SwissTable.NextAllowance | cmake/swissmap/swissmap.h:98-125 | what init computes for the next capacity, from the entries still counted, is that allowance |
| SwissHashMap.AddKeepsHolds | cmake/swissmap/swissmap.h:245-256 | storing a key in a free slot its probe reaches keeps all placements valid and adds one entry to the map |
| SwissHashMap.RemoveKeepsHolds | cmake/swissmap/swissmap.h:64-79 | a tombstone removes one entry from the map and keeps every other key reachable |
| SwissHashMap.HashBits | cmake/swissmap/swissmap.h:181-187 | the probe starts at the high hash modulo cap + 1 and the control byte is the low seven bits of the hash |
| SwissHashMap.SwissMap.MatchGroup | cmake/swissmap/swissmap.h:189-207 | returns the key's slot and its offset in the window, or else no position of the group stands for the key |
| SwissHashMap.SwissMap.ProbeEnds | cmake/swissmap/swissmap.h:187-222 | if the key is present, the table small, or an Empty byte left, some group within the first (cap + 1) / 16 ends the probe |
| SwissHashMap.SwissMap.ProbeRunsOn | cmake/swissmap/swissmap.h:187-222 | otherwise no group ever does: the loop does not end |
| SwissHashMap.SwissMap.FindIndex | cmake/swissmap/swissmap.h:176-222 | true if and only if the key is in the map, with its slot; otherwise, in a large table, the first Empty slot of its probe; it looks at exactly the groups up to the one that ends the probe |
| SwissHashMap.SwissMap.FreeSlot | cmake/swissmap/swissmap.h:232-249 | the second window always shows a free byte, and while growth is left its slot is a real Empty or Deleted one, also when the first look ended at the sentinel of a small table |
| SwissHashMap.SwissMap.Store | cmake/swissmap/swissmap.h:245-256 | a new entry: the map gains the key, growth and Empty bytes are accounted for |
| SwissHashMap.SwissMap.Find | cmake/swissmap/swissmap.h:224-267 | finds the key or adds it, growing when there is no growth left; the map is otherwise unchanged |
| SwissHashMap.SwissMap.Init | cmake/swissmap/swissmap.h:98-117 | a fresh table: all bytes Empty but the sentinel, growth computed from the entries still counted; the epoch of the hash moves on |
| SwissHashMap.SwissMap.Rehash | cmake/swissmap/swissmap.h:119-142 | the map is unchanged, no tombstone is left, and moving the entries never rehashes again |
| SwissHashMap.SwissMap.constructor | cmake/swissmap/swissmap.h:31-39 | a new map is empty |
| SwissHashMap.SwissMap.Insert | cmake/swissmap/swissmap.h:59-62 | the map becomes the old one with key bound to v, in every state in which the probe stops |
| SwissHashMap.SwissMap.Lookup | cmake/swissmap/swissmap.h:55-57 | the value bound to the key, or none |
| SwissHashMap.SwissMap.Erase | cmake/swissmap/swissmap.h:64-79 | removes exactly that key; a tombstone more, the Empty bytes as before, growth given back |
| SwissHashMap.SwissMap.Churn | cmake/swissmap/swissmap.h:64-79 | inserting and erasing one key as often as there are Empty bytes leaves a large table in which no probe for an absent key stops |
| SwissHashMap.SwissMap.FewTombsStop | cmake/swissmap/swissmap.h:187-222 | fewer tombstones than slots above the allowance leave an Empty byte |
| SwissHashMap.SwissMap.NoTombsStop | cmake/swissmap/swissmap.h:187-222 | without erasures every probe stops, at every capacity |
| SwissHashMap.SwissMap.NumIsSize | cmake/swissmap/swissmap.h:22-26 | num is the size of the map |
| SwissHashMap.SwissMap.StopsByBooks | cmake/swissmap/swissmap.h:187-222 | the probe for a key runs on if and only if the map, the capacity and the number of tombstones say so: the key is absent, the table has 15 slots or more, and entries and tombstones fill it |
| SwissHashMap.SwissMap.Apply | cmake/swissmap/swissmap.h:55-79 | a lookup answers the value bound to its key or none, and nothing else does; the contents change as a map's; every operation changes the books as Booked says: a new key takes an Empty byte or, at the allowance, a table of twice the capacity without tombstones; an erasure leaves a tombstone |
| SwissHashMap.SwissMap.Run | cmake/swissmap/swissmap.h:55-79 | from any state and for any sequence of inserts, lookups and erasures: exactly the first Completed(books, ops) operations end, they answer and change the contents as a map does, and the next one, if any, has a probe that does not end |
| SwissHashMap.AnswersAre | cmake/swissmap/swissmap.h:55-79 | by index: each lookup of a run answers the value of the last Put of its key before it that no later Remove undoes, none if the last change before it is a Remove, and without a change what the map held at the start |
| SwissHashMap.BoundAfter | cmake/swissmap/swissmap.h:55-79 | after a run a key is bound to what the last operation that changed it says, and without one to what it was bound to before |
| SwissHashMap.FewErasuresComplete | cmake/swissmap/swissmap.h:55-79 | every operation of a run ends if it erases nothing and there is no tombstone, if tombstones and erasures stay below the slots a large table has above its allowance, or, in a table below 15 slots, if it erases at most 5 times |
| SwissHashMap.RemovalsAre | cmake/swissmap/swissmap.h:64-79 | the erasures that FewErasuresComplete counts: one for each Remove, whether the key is there or not |
| Coroutines.Align | cmake/coroutine/src/co.c:151-158 | the smallest 2^k - 1 that is at least the wanted capacity, less than twice as large |
| Coroutines.Scheduler.constructor | cmake/coroutine/src/co.c:162-206 | an empty scheduler of at least the wanted capacity and less than twice that; of 15 slots for a wanted capacity of 0 |
| Coroutines.Scheduler.New | cmake/coroutine/src/co.c:231-263 | with nco at capacity the new coroutine goes behind a doubled table; otherwise into the first null slot from nco on; if there is none the scan fails with -1 for nco == 0 and reads behind the slots for nco > 0 |
| Coroutines.GapGoesUnnoticed | cmake/coroutine/src/co.c:252-263 | a reachable run (three coroutines, the first joined, a fourth created) in which the scan reads behind the slots although one is free |
| Coroutines.StoppedSlotsFill | cmake/coroutine/src/co.c:252-263 | a reachable run in which every slot holds a stopped coroutine that nobody has reaped, nco is 0 and the scan fails with -1 |
| Coroutines.FourthInDefault | cmake/coroutine/src/co.c:231-263 | with the default of 15 slots: three coroutines, the first joined, and the fourth gets id 3 |
| Coroutines.Scheduler.Swap | cmake/coroutine/src/co.c:345-366 | the running coroutine is suspended and nobody runs |
| Coroutines.Scheduler.Finish | cmake/coroutine/src/co.c:78-92 | the running coroutine is stopped, no longer counted, and nobody runs |
| Coroutines.Scheduler.Resume | cmake/coroutine/src/co.c:265-322 | a ready or suspended coroutine takes one turn, a stopped one is reaped, and the invariant (nco counts the coroutines not stopped, at most the one named by runningId runs) is kept |
| Coroutines.Scheduler.Join | cmake/coroutine/src/co.c:368-371 | the coroutine takes all its turns in a row and its slot becomes null |
| Coroutines.TurnsTaken | cmake/coroutine/src/co.c:265-322 | a coroutine that still yields n times takes exactly n + 1 turns and is reaped by the resume after them |
| Coroutines.TurnsInSchedule | cmake/coroutine/src/co.c:373-384 | within p passes coroutine i takes min(p, its turns) turns: one in each pass until it is done |
| Coroutines.PassIdsAre | cmake/coroutine/src/co.c:377-382 | a pass gives a turn to exactly the unfinished coroutines, in increasing order of id |
| Coroutines.Scheduler.Wait | cmake/coroutine/src/co.c:373-384 | from any parked state co_wait makes one pass more than the largest number of turns, runs exactly that schedule, and leaves every slot null and nco 0 |
| Coroutines.Batch | cmake/coroutine/src/co.c:231-384 | n coroutines created one after the other and then waited for: largest number of yields + 2 passes (1 for none), yields + 1 turns each, every slot reaped |
| RpcCodec.DecodeEncode | cmake/rpc_c/rpc_util.c:120-176 | an argument followed by anything decodes to itself, with exactly its bytes used, if and only if its string or message is shorter than 65536 bytes |
| RpcCodec.EncodeDecode | cmake/rpc_c/rpc_util.c:227-284 | whatever is decoded is the encoding of the argument read |
| RpcCodec.WidthsAre | cmake/rpc_c/rpc_util.c:141-171 | exactly the integer types are sent as integers, in as many bytes as they are wide, exactly the pointers to characters as strings and exactly a packed message as one; every value of an integer type can be sent and none beyond it |
| RpcCodec.CodesInOrder | cmake/rpc_c/rpc_c.h:27-56 | the code of a type is its index in the list of types |
| RpcCodec.UnknownTags | cmake/rpc_c/rpc_util.c:246-282 | a tag above the list is no integer, no string and no message |
| RpcCodec.LittleByte | cmake/rpc_c/rpc_util.c:120-156 | byte i of an integer on the wire counts 256^i, the lowest first |
| RpcCodec.PayloadSize | cmake/rpc_c/rpc_util.c:120-176 | behind its tag an integer takes 1, 2, 4 or 8 bytes by its type, a string two more than its length modulo 65536, a message two more than its whole length |
| RpcCodec.CutOff | cmake/rpc_c/rpc_util.c:227-284 | an encoded argument that was cut off anywhere is not read; what has been read of it is the tag, and the length if it is whole |
| RpcCodec.Buffer.Reserve | cmake/rpc_c/rpc_util.c:86-98 | growing keeps the contents; the capacity doubles or becomes what is needed |
| RpcCodec.Buffer.Append | cmake/rpc_c/rpc_util.c:86-102 | the contents grow by exactly the given bytes |
| RpcCodec.FewGrowths | cmake/rpc_c/rpc_util.c:86-98 | n reallocations multiply the capacity by at least 2^n |
| RpcCodec.NotTooLarge | cmake/rpc_c/rpc_util.c:86-98 | however it grew, the capacity covers every need and stays below twice the largest one if it grew at all |
| RpcCodec.Buffer.AppendValue | cmake/rpc_c/rpc_util.c:120-176 | appends the value in the format: little-endian integers, 16-bit length prefix, strings cut to the prefixed length, messages whole |
| RpcCodec.Buffer.PushArgs | cmake/rpc_c/rpc_c.h:157-170 | appends the count and then tag and value of every argument |
| RpcCodec.Reader.ReadBytes | cmake/rpc_c/rpc_util.c:204-211 | all n bytes or none, and only then the position moves |
| RpcCodec.Reader.ParseArg | cmake/rpc_c/rpc_util.c:227-284 | calls the handler with exactly the argument at the front, or fails without calling it; an unreadable tag counts as tag 0; the position moves by exactly the bytes read, after a failure too |
| RpcCodec.Reader.ParseArgs | cmake/rpc_c/rpc_util.c:286-295 | the code, the calls and the position are those of serving the counted arguments in order, after a failure too; an empty message has none and succeeds |
| RpcCodec.ServeEncoded | cmake/rpc_c/rpc_util.c:286-295 | encoded arguments reach the handler unchanged and in order up to the first it refuses, whose number plus one is the code; if it refuses none exactly their bytes are used |
| RpcCodec.ServeBroken | cmake/rpc_c/rpc_util.c:286-295 | if something that is no argument follows fewer than the announced number, the arguments before it are delivered and the code is its number |
| RpcCodec.ServeAccepts | cmake/rpc_c/rpc_util.c:286-295 | conversely, a successful parse used up exactly the encoding of the arguments it delivered |
| RpcCodec.SendAndParse | cmake/rpc_c/rpc_util.c:286-295 | the round trip through the growing buffer and the reader: with a handler that refuses none of them, the arguments all arrive, with code 0 and nothing left over, if and only if every one fits its length prefix; with one that refuses, the calls up to that refusal; unchanged arrival implies that all fit, for any handler |
| RpcCodec.ArriveOnlyIfFit | cmake/rpc_c/rpc_util.c:120-176 | from any bytes and with any handler, only arguments that fit their length prefix can be delivered unchanged |

## Left out

- MulValue.MulExact: MulRight suffices; with a short operand it always holds (ShortExact), and that it is necessary is proved for the lengths with one level (MulExactIff). On longer operands wrong parts enter the result with both signs and might cancel. MulWords is the value in every case.
- SqrValue.SqrExact: the same, with SqrExactIff and SqrWords.
- DivRecursive.DivRecursiveStep: proved with the repaired addVW and subVW; what the division stores with the ones as written is not stated, because a wrong difference runs into its asserts.
- DivRecursive.PendingProduct: normalises a zero product, which the code does not, because the comparison that follows needs it; GoesWrong says exactly when the code meets that case; what it stores from there on is not modelled.
- DivRecursive.EstimateWide: the buffer for an estimate is allocated for every step; its reuse through the array of temporaries, one per depth, is not modelled. The bound on the depth is.
- NatAddSub.AddVWLarge: the tail copy moves the words that are left in both operands; the words the code copies behind them are not part of the state, only where they end (the returned `end`, WriteEnd). In place, as addAt, karatsubaAdd and the division call it, words are copied onto themselves.
- NatAddSub.SubVWLarge: the tail copy, as in AddVWLarge.
- Division.NatMake: freeing the old storage and the flag of partial views are not modelled; allocation always succeeds.
- Division.NatDiv: the two result storages are taken to be separate arrays, as are the remainder's storage and the dividend, which is how the callers use it.
- NumberText.NatI2a: the number of digits estimated in floating point is a parameter with base^places >= 2^bitLen; the final memmove and the terminating zero are the returned string. Of the numbers that are not normalised only the one-word zero, which the library makes itself, is included.
- RadixTable.NatExpWW: exponentiation with a modulus and exponents of more than one word are left out.
- RadixTable.Divisors: the checks for entries already filled in are left out; the table is always fresh.
- SwissHashMap.SwissMap.FindIndex: requires that the probe ends, which is exactly ProbeEnds and ProbeRunsOn; the mask of a comparison is the set of matching offsets, visited lowest first.
- SwissHashMap.SwissMap.Find: the memory of a new value holds an arbitrary value until the caller writes it; destructors are left out.
- SwissHashMap.Home: hashing, salt and the address of the control bytes are an arbitrary function that changes with every reallocation.
- Coroutines.Scheduler.Execute: switching registers and stacks, and creating coroutines inside coroutines, are left out; a body is its number of yields.
- Coroutines.Scheduler.New: after the read behind the last slot the model stops with OutOfBounds, because what the code finds there is not determined.
- RpcCodec.Buffer.AppendValue: arguments of the types the format does not support are left out; the code asserts.
- cmake/bigint/src/bigint.c: signed numbers; its division reads freed and uninitialised memory.
- cmake/bigint/src: 32-bit words, and the 8-, 16- and 32-bit trailing zero counts.
- cmake/swissmap/swissmap.h: iteration over all entries, which adds nothing to the invariants.
- cmake/rpc_c: sockets, timeouts, the handler table and the reply for unknown functions.

# Models and proofs for the Arken core

This project models the parts of the Arken platform whose correctness rests on an argument rather
than on reading one function, and proves that argument in Dafny.

* **Exact number conversion** (`src/lua/json/dtoa.c`, `src/lua/json/g_fmt.c`). Multiword integers
  in little-endian 32-bit words with 64-bit accumulators (`Words`, `WordLoops`, `Bigints`), division
  by one digit with an estimated quotient (`Division`), the alignment that makes the estimate good
  (`Alignment`), powers of five from a shared growing list (`PowersOfFive`), the two digit loops with
  their rounding (`Decimals`, `FixedPrecision`, `ShortestPrecision`, `DecimalConversion`), the whole
  way from the words of a double to its digits (`DoubleBits`, `Doubles`) and why these identify it
  (`NearestDouble`), the text layout (`TextLayout`) and its measure, the conversion %g of printf
  (`PrintfText`), the number scan (`Characters`, `SpecialNumbers`,
  `NumberScan`) and what it denotes (`ScannedValue`), the proof that it reads the layout back exactly
  (`NumberText`), and the way from a double to its text and back as a whole (`DoubleText`).
* **JSON** (`src/lua/json/json.c`, `strbuf.c`, `strbuf.h`). The growing buffer (`StringBuffers`), the
  token grammar and the recursive descent that inverts it (`JsonGrammar`), string escapes and UTF-8
  (`JsonStrings`), tokens (`JsonTokens`), values and their text (`JsonValues`), the decoder
  (`JsonDecode`), the encoder and the round trip (`JsonEncode`), the end of the input at its first NUL
  (`JsonNul`), and the language the decoder takes, character by character: strings (`StringTexts`),
  numbers in either setting (`NumberTexts`, `LooseNumbers`) and whole texts (`JsonTexts`).
* **Digests** (`src/embedded/digest/sha1.c`, `md5.c`). What they share (`Digests`), the block functions
  against the standards (`Sha1Blocks`, `Md5Blocks`), the streaming contexts (`Sha1`, `Md5`), and examples of
  the standards worked through all rounds (`Sha1Examples`, `Md5Examples`).
* **Concurrency** (`src/arken/concurrent`). The thread pool (`ThreadPool`) and the job splitter
  (`JobSplitter`), as transition systems whose steps are the critical sections, with objects whose
  methods are those sections.
* **Smaller refinements**: the growing string of `src/arken/string.cpp` (`ByteStrings`) and Base64
  (`Base64Codec`).

How the source is rendered: C's `do … while` loops are written as `while` loops where the body
provably runs at least once; `|` of values without common bits is written as a sum; digits are held
as a sequence of numbers instead of characters in a static buffer; a byte of JSON text is a `char`;
64-bit accumulators are integers with the proof that they stay below 2^64, and 32-bit wrap-around is
written out. Floating point is left to the code around the model: it hands over the estimate of the
decimal exponent, which may be one too large.

## What turned out not to hold without a condition

* `quorem` returns its remainder normalised except in one case: when the divisor is a single word,
  the remainder is zero and the loop subtracted, the length is left at zero words. `Division.Quorem`
  states the exact condition; every caller in the digit loops copes with it.
* The shortest-digits loop gives a shortest decimal of the rounding interval. On an arbitrary ratio it
  is not always a nearest one of that length: it is, if and only if the ratio is not 9 and less than
  one half with 10 as the closed upper end and 9 inside (`ShortestPrecision.ShortestDigits`; the
  divisor being one word excuses an exact 9). No double has such a ratio (`Doubles.NeverLost`), so
  the digits of a double are always the nearest (`Doubles.ShortestOf`).
* The digests' two-word byte count adds at most one carry, so it is exact if and only if the length
  plus the low word is below 2^33; every length below 2^32 is fine (`Digests.CountExact`). A chunk that
  first tops up the buffer is counted in two goes, each of which has to meet this; the first always does
  (`Digests.ChunkCountable`, `Digests.ShortIsCountable`).
* `core::max` can be set at any time (`ThreadPool.MaxMoves`). The workers stay within the largest value
  so far (`ThreadPool.PoolSafety`); they never exceed max in a run if and only if max is never set below
  their number (`ThreadPool.BoundedExactly`); and that fewer workers than max means nothing waits for a
  thread holds in a run if and only if max is never raised above the workers while more is outstanding
  (`ThreadPool.CoveredExactly`).
* `core::start` adds a thread if and only if there is room below max and the outstanding entries, modulo
  2^32, are as many as the threads. Where max was raised while more was outstanding it therefore adds
  none although none is left over (`ThreadPool.GrowsExactly`); otherwise threads are added as they are
  needed, and never more than there were outstanding entries (`ThreadPool.LazyThreads`).
* `core::shutdown` waits for a 32-bit counter to be zero. That means the pool is done if and only if
  fewer than 2^32 entries are outstanding (`ThreadPool.ShutdownComplete`, `ThreadPool.ShutdownTooEarly`).
  While a null is pushed but not yet counted the counter can read 2^32 - 1 (`ThreadPool.WrapsBelowZero`).
* `core::waiting` mirrors the queue in a run if and only if no task is started under the uuid of a
  queued one with another description, and none is taken whose uuid is queued again
  (`ThreadPool.MirrorExactly`, `ThreadPool.MirrorLost`). It takes a direct C++ caller to do that: every
  `core::start` in the repository starts a task with an `os::uuid()` of its own.
* A worker's progress reaches its total if and only if no job is the empty string, because a node
  takes an empty string from the queue for the end of it (`JobSplitter.PerformReturns`,
  `JobSplitter.EmptyJobStops`). Again only a direct C++ caller can enqueue one: the Lua binding passes
  JSON text, which is never empty (`src/bindings/arken/concurrent/worker/worker.cpp:79-85`).
* JSON text ends at its first NUL: from index 2 on it hides everything behind it, sooner it makes the
  input be refused as UTF-16 or UTF-32 (`JsonNul.NulHidesTheRest`).
* The decoder takes more than RFC 8259 has: strings with control characters as they are
  (`StringTexts.StringsExactly`), numbers with digits on one side of the point only
  (`NumberTexts.NumbersExactly`), and in its default setting signs, leading zeros, hexadecimal numbers
  and names (`LooseNumbers.LooseTaken`, `LooseNumbers.LooseShape`). `JsonTexts.DecodesTexts` says
  exactly which texts it takes.
* `strbuf_resize` keeps a buffer valid if and only if the length asked for is not below that of the
  text (`StringBuffers.Strbuf.Resize`).
* `calculate_new_size` with a positive increment only rounds the old size up to a multiple of it, so the
  length asked for fits if and only if it is below that multiple (`StringBuffers.CalculateNewSize`,
  `StringBuffers.LinearTooSmall`). Nothing in the repository sets such an increment.
* The copying assignment of `string` keeps the contents if and only if no other character follows a
  NUL (`ByteStrings.CopyKeeps`).

## Model

| member | source | states |
|---|---|---|
| `Bigints.Bigint.Balloc` | src/lua/json/dtoa.c:544-583 | a new block has room for exactly 2^k words, holds none, and is positive |
| `WordLoops.MulAddValue` | src/lua/json/dtoa.c:632-655 | the carry loop of multadd leaves words and carry that together are x*m + a |
| `WordLoops.AccumulatorBound` | src/lua/json/dtoa.c:636-640 | with a multiplier and a carry below 2^31 the 64-bit accumulator of multadd cannot overflow, and the next carry is below 2^31 again |
| `WordLoops.SubExact` | src/lua/json/dtoa.c:1112-1124 | the borrow loop of diff with its wrapping 64-bit subtractions leaves exactly the difference when the minuend is not smaller |
| `WordLoops.SubMulExact` | src/lua/json/dtoa.c:2160-2190 | the loop of quorem leaves exactly b - q*S, borrow included, whenever q*S <= b |
| `WordLoops.MulAccValue` | src/lua/json/dtoa.c:846-858 | one row of mult adds y times the multiplicand at its offset |
| `WordLoops.RowBound` | src/lua/json/dtoa.c:852-854 | word times word plus word plus carry stays below 2^64, and the next carry is a word |
| `WordLoops.ShiftValue` | src/lua/json/dtoa.c:1002-1011 | the bit loop of lshift gives the words of x * 2^k together with the bits shifted out |
| `Bigints.Multadd` | src/lua/json/dtoa.c:612-667 | the result is exactly b*m + a, normalised, in the same block or a bigger one; no word is written past maxwds |
| `Bigints.I2b` | src/lua/json/dtoa.c:789-803 | a one-word block whose value is the argument |
| `Bigints.Cmp` | src/lua/json/dtoa.c:1034-1066 | the result has the sign of a - b for normalised a and b |
| `Bigints.Diff` | src/lua/json/dtoa.c:1068-1160 | the result is the absolute difference with sign 1 exactly when a < b, trimmed, in a fresh block |
| `Bigints.SubtractWords` | src/lua/json/dtoa.c:1103-1124 | the word loops leave the exact difference of the larger and the smaller number |
| `Bigints.TrimZeros` | src/lua/json/dtoa.c:1156-1158 | leading zero words are dropped without changing the value |
| `Bigints.Mult` | src/lua/json/dtoa.c:805-913 | the result is exactly a*b, normalised, in a fresh block; no word is written past maxwds |
| `Bigints.MultRows` | src/lua/json/dtoa.c:844-859 | all rows together accumulate the full product |
| `Bigints.Lshift` | src/lua/json/dtoa.c:974-1032 | the result is exactly b * 2^k, normalised when b is; no word is written past maxwds |
| `Bigints.ShiftBits` | src/lua/json/dtoa.c:1002-1012 | the branch for a shift by other than whole words gives b * 2^k above n zero words |
| `Bigints.Hi0bits` | src/lua/json/dtoa.c:707-739 | the number of leading zero bits: shifting by it brings a one to the top bit, and zero has 32 |
| `Division.EstimateBounds` | src/lua/json/dtoa.c:2145-2149 | with four leading zero bits in the divisor and b < 10*S, top(b)/(top(S)+1) is the quotient or one less |
| `Division.Quotient` | src/lua/json/dtoa.c:2149-2240 | subtracting the estimate and correcting once gives the unique quotient and remainder |
| `Division.Quorem` | src/lua/json/dtoa.c:2119-2241 | returns exactly floor(b/S), at most 9, and leaves b mod S; the length is zero words exactly when S has one word, the remainder is zero and b was not below S |
| `Division.NoWordsLeft` | src/lua/json/dtoa.c:2119-2241 | the case without words occurs: dividing 2^27 by itself returns 1 and leaves a length of 0 |
| `Alignment.ShiftAligns` | src/lua/json/dtoa.c:2106-2117 | every shift congruent to hi0bits - 4 modulo 32 leaves exactly four leading zero bits in the top word |
| `Alignment.Dshift` | src/lua/json/dtoa.c:2106-2117 | the shift it returns, on top of those due, aligns the divisor |
| `Alignment.AlignDivisor` | src/lua/json/dtoa.c:4152-4159 | after both lshifts the divisor is aligned and both numbers have grown by the same power of two |
| `PowersOfFive.ListExponentIsPow` | src/lua/json/dtoa.c:934-970 | the exponent kept at position i of the list is 4 * 2^i |
| `PowersOfFive.Pow5List.First` | src/lua/json/dtoa.c:934-947 | the first element exists from now on and is 5^4 |
| `PowersOfFive.Pow5List.Next` | src/lua/json/dtoa.c:956-969 | the list is extended lazily by squaring its last element, and position i always holds 5^(4*2^i) |
| `PowersOfFive.Pow5mult` | src/lua/json/dtoa.c:917-972 | the result is exactly b * 5^k for every k, whatever the list held before; the list stays valid, only grows by new blocks, and shares no block with the result |
| `Decimals.NearestEvenUnique` | src/lua/json/dtoa.c:4306-4313 | at most one number is nearest with ties to even |
| `Decimals.RoundQuotient` | src/lua/json/dtoa.c:4306-4313 | comparing twice the remainder with the divisor, ties by the last bit, picks that number |
| `Decimals.LeadingRemainder` | src/lua/json/dtoa.c:4285-4297 | digit by digit, the digits and the remainder satisfy leading * s + remainder = n * 10^(i-1) |
| `Decimals.RoundUp` | src/lua/json/dtoa.c:4314-4322 | carrying through nines adds one unit in the last place; the exponent grows exactly when all digits are 9 |
| `Decimals.TrimDigits` | src/lua/json/dtoa.c:4324-4329 | dropping trailing zeros keeps the value |
| `FixedPrecision.NextDigit` | src/lua/json/dtoa.c:4286-4286 | a turn of the loop produces the next digit of the long division and its remainder |
| `FixedPrecision.Generate` | src/lua/json/dtoa.c:4285-4297 | the loop yields the digits of the long division, stopping early only at remainder zero |
| `FixedPrecision.RoundsUp` | src/lua/json/dtoa.c:4306-4313 | rounds up exactly when the remainder is more than half, or half with an odd digit |
| `FixedPrecision.RoundOff` | src/lua/json/dtoa.c:4306-4329 | rounding off gives the nearest decimal of that length, ties to even, without trailing zeros |
| `FixedPrecision.FixedDigits` | src/lua/json/dtoa.c:4285-4329 | the correctly rounded, ties-to-even, ilim-digit decimal of b/S with nonzero first digit and no trailing zero; k is raised exactly when the carry runs through every digit |
| `ShortestPrecision.DecideFits` | src/lua/json/dtoa.c:4201-4268 | every exit of the tests emits a digit inside the rounding interval, and going on means neither candidate is |
| `ShortestPrecision.DecideNearest` | src/lua/json/dtoa.c:4201-4268 | of two candidates that fit, a nearest one is chosen, and of two as near the one with the even digit unless they are the ends of the interval, except exactly when a 9 is carried although the number below fits and is nearer |
| `ShortestPrecision.PickedIsNearest` | src/lua/json/dtoa.c:4201-4268 | choosing the nearer of the two neighbours, the even one of two as near, or the one that fits, is the same as being nearest, ties to even, among all decimals of that length in the interval |
| `ShortestPrecision.LostExample` | src/lua/json/dtoa.c:4206-4221 | a ratio, though of no double, at which the tie after a 9 is lost |
| `ShortestPrecision.NotLost` | src/lua/json/dtoa.c:4206-4221 | no tie is lost once the number is nineteen times the half-width above |
| `ShortestPrecision.NothingFits` | src/lua/json/dtoa.c:4196-4282 | while the loop goes on, no decimal of that length lies in the interval |
| `ShortestPrecision.Judged` | src/lua/json/dtoa.c:4197-4268 | the decision at a level in terms of the interval around the number |
| `ShortestPrecision.Judge` | src/lua/json/dtoa.c:4201-4268 | the comparisons of the loop body lead to that decision |
| `ShortestPrecision.CompareHigh` | src/lua/json/dtoa.c:4202-4204 | diff and cmp together compare remainder plus upper half-width with the divisor |
| `ShortestPrecision.StoppedIsShortest` | src/lua/json/dtoa.c:4181-4283 | a stop yields a shortest decimal of the interval, a nearest one of its length if and only if the tie is not lost; a carry out of a 9 can only happen at the first digit |
| `ShortestPrecision.OneTurn` | src/lua/json/dtoa.c:4197-4272 | a turn either stops with such a decimal or keeps the invariant of the loop |
| `ShortestPrecision.GenerateShortest` | src/lua/json/dtoa.c:4196-4283 | the loop terminates for every input, because the half-width grows tenfold while the remainder stays below S |
| `ShortestPrecision.CarryNine` | src/lua/json/dtoa.c:4261-4265 | the exit through roundoff after a 9 gives the digit 1 and one more decimal place, still the same answer |
| `ShortestPrecision.ShortestDigits` | src/lua/json/dtoa.c:4181-4283 | modes 0 and 1 emit a decimal in the interval from b0-mlo to b0+mhi over S (its ends only when closed), none of fewer digits lies in it, and it is nearest among those of its length if and only if the tie is not lost |
| `DecimalConversion.NearestEvenScaled` | src/lua/json/dtoa.c:4152-4159 | a common factor of numerator and divisor does not change which decimal is nearest |
| `DecimalConversion.ShortestCommonFactor` | src/lua/json/dtoa.c:4152-4159 | nor which decimals are shortest in the interval |
| `DecimalConversion.AnsweredCommonFactor` | src/lua/json/dtoa.c:4152-4159 | nor which of them are nearest, nor whether the tie is lost |
| `DecimalConversion.CheckEstimate` | src/lua/json/dtoa.c:4160-4167 | an estimate of k that is one too high is corrected, so that S <= b < 10*S |
| `DecimalConversion.DtoaFixed` | src/lua/json/dtoa.c:4152-4168 | from the ratio with its powers of two still due: the correctly rounded decimal of that ratio, with its exponent |
| `DecimalConversion.DtoaShortest` | src/lua/json/dtoa.c:4152-4194 | from the same ratio and half-width: a shortest decimal of the rounding interval with its exponent, a nearest one of its length if and only if the tie is not lost |
| `DoubleBits.Lo0bits` | src/lua/json/dtoa.c:742-787 | the number of trailing zero bits and the odd rest; zero has 32 |
| `DoubleBits.Decode` | src/lua/json/dtoa.c:1304-1315 | the two words of a finite double stand for m * 2^u with 53 bits of m unless u is least, m even exactly when the low word is |
| `DoubleBits.D2b` | src/lua/json/dtoa.c:1275-1404 | an odd number times a power of two that is the double, with the exponent and the number of bits |
| `Doubles.Exponents` | src/lua/json/dtoa.c:3844-3862 | with the half-width carried along, the numerator gets one factor of two more than the dropped zero bits, and all powers of two balance |
| `Doubles.Balance` | src/lua/json/dtoa.c:4084-4123 | over the divisor the half-width is half a unit of the double in the last place, for every exponent and either sign of k |
| `Doubles.Operands` | src/lua/json/dtoa.c:4084-4123 | b, S and mhi are those numbers: numerator over divisor is the double over 10^k, made by d2b, the exponents and pow5mult |
| `Doubles.NeverLost` | src/lua/json/dtoa.c:4206-4221 | around a double no tie is lost: the upper end would have to be a power of ten |
| `Doubles.NearestTies` | src/lua/json/dtoa.c:4243-4247 | around a double two decimals as near are never both ends of the interval, so of two as near the digits are always the even one |
| `Doubles.ShortestOf` | src/lua/json/dtoa.c:3778-4283 | modes 0 and 1 on the words of any finite positive double, with k right or one too large: a shortest decimal between the midpoints to its neighbours, a nearest one of that length, and of two as near the even one |
| `Doubles.RoundedOf` | src/lua/json/dtoa.c:3778-4329 | mode 2 on the words of any finite positive double: the double rounded to ndigits significant digits, ties to even, without trailing zeros |
| `NearestDouble.Above` | src/lua/json/dtoa.c:4092-4100 | the next double above is at least a unit away; at exactly that distance from an even number it is odd |
| `NearestDouble.Below` | src/lua/json/dtoa.c:4127-4145 | the next double below likewise, at half the distance when the double is the least of its exponent |
| `NearestDouble.ReadsBack` | src/lua/json/dtoa.c:4196-4199 | a decimal in the interval is nearer to the double than to everything else a reading can give, zero and the power of two that stands for overflow included, or as near as to an odd one when the double is even, so reading it with ties to even gives the double back |
| `NearestDouble.SameOrder` | src/lua/json/dtoa.c:4351-4351 | which of two readings is nearer to the digits does not depend on where the power of ten of the conversion puts the point |
| `NearestDouble.ShortestReadsBack` | src/lua/json/dtoa.c:4181-4283 | shortest digits of the interval around a double, with the decimal point they come with, are read as that double |
| `NearestDouble.ReadsAsOne` | src/lua/json/dtoa.c:4196-4199 | no decimal is read as two doubles |
| `NearestDouble.Dtoa` | src/lua/json/dtoa.c:3778-4355 | modes 0 and 1 on the words of any finite positive double: its digits with their decimal point are read as that double and nothing else, neither zero nor infinity |
| `TextLayout.LayoutFits` | src/lua/json/g_fmt.c:61-104 | the text of at most 14 digits and its terminator fit 32 bytes |
| `TextLayout.PutExponent` | src/lua/json/g_fmt.c:76-84 | the division loop writes the two or three digits of the exponent |
| `TextLayout.GFmt` | src/lua/json/g_fmt.c:51-110 | the buffer receives sign, digits, point and exponent in the notation chosen by the exponent, or the copied name of infinity or not-a-number, inside its bounds |
| `PrintfText.LayoutIsGeneral` | src/lua/json/g_fmt.c:61-104 | the text is what the conversion %g of printf (section 7.21.6.1 of ISO/IEC 9899:2011) writes for the digits padded to the precision, trailing zeros stripped |
| `PrintfText.NotationBySize` | src/lua/json/g_fmt.c:61-61 | an exponent is written if and only if the number is below 10^-4 or at least 10^precision; without one, a point is written if and only if the number is no integer |
| `SpecialNumbers.GetHex` | src/lua/json/dtoa.c:1750-1877 | where a hexadecimal number ends, with its point and its binary exponent; of a bare 0x only the 0 is taken |
| `SpecialNumbers.Match` | src/lua/json/dtoa.c:1539-1557 | a word is matched in either case, and the pointer moves only if it is |
| `SpecialNumbers.HexNan` | src/lua/json/dtoa.c:1561-1625 | a parenthesis after nan is taken up to the first closing one, when there is one |
| `SpecialNumbers.ScanName` | src/lua/json/dtoa.c:2661-2690 | where inf, infinity, nan and nan(...) end |
| `NumberScan.AccumulatesValue` | src/lua/json/dtoa.c:2559-2565 | up to 16 digits the two accumulators hold the exact value of the digits and neither overflows 32 bits |
| `NumberScan.HeldZeros` | src/lua/json/dtoa.c:2605-2621 | zeros held back and added when a nonzero digit follows give the same digits as adding each at once |
| `NumberScan.ScanFraction` | src/lua/json/dtoa.c:2605-2621 | the loop after the point accumulates the fraction without its trailing zeros and counts its places |
| `NumberScan.ScanExponent` | src/lua/json/dtoa.c:2624-2660 | the exponent part, nothing taken without a digit, large ones cut off at 19999 |
| `NumberScan.Scan` | src/lua/json/dtoa.c:2519-2697 | the loops compute the decimal, the sign and the end position that the scan specification gives; of hexadecimal numbers and names the end position |
| `ScannedValue.ExponentExact` | src/lua/json/dtoa.c:2624-2660 | the exponent read is the one written, leading zeros and sign included, if and only if that is within 19999 of zero |
| `ScannedValue.ScanDenotes` | src/lua/json/dtoa.c:2519-2697 | any text of a number with at most 16 digits that count, and an exponent within the cut-off, is scanned as exactly the signed decimal written: leading zeros, held-back zeros and trailing zeros included |
| `NumberText.LayoutReadBack` | src/lua/json/g_fmt.c:51-104 | the text of every finite nonzero number of 1 to 14 digits, wherever it stands, is scanned to its end and denotes exactly the same signed rational |
| `DoubleText.ExponentRange` | src/lua/json/dtoa.c:3834-3843 | the decimal exponent of a finite double is above -360 and below 342 |
| `DoubleText.FormatDouble` | src/lua/json/g_fmt.c:37-110 | the text of every finite double other than zero at a precision of 1 to 14 is what printf writes with %g for the correctly rounded double, with an exponent exactly when that is below 10^-4 or at least 10^precision; it is a JSON number, and wherever it stands it is scanned to its end and denotes that rounded double with its sign |
| `StringBuffers.CalculateNewSize` | src/lua/json/strbuf.c:134-159 | shrinking is exact; exponential growth multiplies until the text and its terminator fit and no further; linear growth gives the next multiple of the increment, and what is asked for fits if and only if it is below that |
| `StringBuffers.LinearTooSmall` | src/lua/json/strbuf.c:154-156 | it need not: asked for 100 characters, a buffer of 10 grows to 16 |
| `StringBuffers.Strbuf.constructor` | src/lua/json/strbuf.c:44-66 | an empty buffer of the requested or the default size |
| `StringBuffers.Strbuf.Resize` | src/lua/json/strbuf.c:164-180 | the requested length fits, and the contents survive exactly when it is not below the length of the text; otherwise they are cut off and the length is left too large |
| `StringBuffers.Strbuf.EnsureEmptyLength` | src/lua/json/strbuf.h:95-99 | afterwards len more characters and the terminator fit |
| `StringBuffers.Strbuf.AppendMemUnsafe` | src/lua/json/strbuf.h:134-138 | appends without a check, inside the buffer when there is room |
| `StringBuffers.Strbuf.AppendString` | src/lua/json/strbuf.c:182-198 | appends the string, growing only when it does not fit |
| `JsonGrammar.ParseFlatten` | src/lua/json/json.c:1136-1252 | a value followed by any tokens is taken off exactly when its nesting fits the limit |
| `JsonGrammar.ParsedFlattens` | src/lua/json/json.c:1136-1252 | whatever is accepted is the token sequence of the value read, within the limit |
| `JsonGrammar.AcceptsGrammar` | src/lua/json/json.c:1117-1290 | exactly the token sequences of the value, object and array grammar within the depth limit are accepted, each as its one value |
| `JsonGrammar.DepthIsOpen` | src/lua/json/json.c:1117-1134 | the nesting that is limited is the most brackets and braces open at once anywhere in the tokens of the value |
| `JsonStrings.Utf8Unique` | src/lua/json/json.c:776-807 | what is written for a code point is its one UTF-8 form of section 3 of RFC 3629 |
| `JsonStrings.DecodeHex4` | src/lua/json/json.c:753-772 | the value of four hexadecimal digits of either case; reading stops at the first other character and never goes past the terminator |
| `JsonStrings.EscapeMeaning` | src/lua/json/json.c:820-875 | an escape is refused exactly for bad digits or a lone surrogate; otherwise it is the UTF-16 form of its code point (section 2.2 of RFC 2781) |
| `JsonStrings.CodepointToUtf8` | src/lua/json/json.c:776-807 | at most four bytes, the UTF-8 form |
| `JsonStrings.AppendUnicodeEscape` | src/lua/json/json.c:820-875 | advances past the escape and appends its UTF-8 bytes, or fails and changes nothing |
| `JsonStrings.StringFrom` | src/lua/json/json.c:886-944 | the bytes decoded are fewer than the characters consumed |
| `JsonStrings.NextString` | src/lua/json/json.c:886-944 | the loop decodes the string token; every unchecked append and the terminator stay inside a buffer one larger than the input |
| `JsonStrings.AppendQuoted` | src/lua/json/json.c:458-482 | the quoted, escaped string is appended, and the room asked for once is enough for the unchecked appends |
| `JsonStrings.QuotedReadBack` | src/lua/json/json.c:886-944 | every byte string, NUL included, is read back from its escaped form byte for byte |
| `StringTexts.StringsExactly` | src/lua/json/json.c:886-944 | a string is taken exactly when characters, two-character escapes, escaped code units and escaped surrogate pairs (section 7 of RFC 8259) stand there up to a quote, hexadecimal digits in either case, and it is the bytes they stand for |
| `StringTexts.EscapedPieces` | src/lua/json/json.c:93-131 | the text written for a string is one piece for each character: the character itself unless it is a control character, 127, a quote, a backslash or a slash, else its two-character escape where it has one, else its code in lower-case digits |
| `StringTexts.OnePiece` | src/lua/json/json.c:93-131 | there is only one such piece for a character |
| `StringTexts.NoControls` | src/lua/json/json.c:475-480 | no character below 32 and no 127 is written |
| `JsonTokens.NumberInside` | src/lua/json/json.c:997-1008 | a number, hexadecimal number or name takes at least one character and none behind the end |
| `JsonTokens.LastToken` | src/lua/json/json.c:1015-1092 | the end of the input or an error comes last and only last |
| `JsonTokens.ReadToken` | src/lua/json/json.c:1015-1092 | hands out the next token, moves the read position strictly forward for every token, and leaves it at an error |
| `NumberTexts.NumbersExactly` | src/lua/json/json.c:961-1008 | in front of what cannot carry a number on, the strict decoder takes exactly the texts of the form of section 6 of RFC 8259, digits possibly missing on one side of the point |
| `NumberTexts.HexTaken` | src/lua/json/dtoa.c:1750-1877 | hexadecimal digits around at most one point and a binary exponent are taken whole |
| `LooseNumbers.LooseTaken` | src/lua/json/json.c:1053-1087 | the tolerant decoder takes whole any sign with a decimal number, leading zeros included, a hexadecimal number or a name of infinity or not-a-number in any case |
| `LooseNumbers.LooseShape` | src/lua/json/json.c:1053-1087 | and nothing else |
| `JsonValues.BuildsBack` | src/lua/json/json.c:1136-1252 | building tables from the syntax of a value gives the value, for arrays with items and objects with distinct keys |
| `JsonValues.PutLookup` | src/lua/json/json.c:1170-1170 | storing changes what a table holds under that key and nothing else |
| `JsonValues.LastWins` | src/lua/json/json.c:1156-1183 | a decoded object holds under each key the last value given for it |
| `JsonValues.NothingElse` | src/lua/json/json.c:1156-1183 | and nothing under any other key |
| `JsonValues.TextTokens` | src/lua/json/json.c:561-704 | the text written for a value is read as exactly the tokens of that value, in any surroundings |
| `JsonDecode.DecodesGrammar` | src/lua/json/json.c:1254-1290 | a text decodes exactly when its tokens are those of one value within the depth limit and the end, and to that value |
| `JsonTexts.BlankSkipped` | src/lua/json/json.c:1020-1028 | space, tab, line feed and carriage return before a token make no difference |
| `JsonTexts.StrayCharacter` | src/lua/json/json.c:154-155 | any other character that starts no token is an error |
| `JsonTexts.TokensExactly` | src/lua/json/json.c:1015-1092 | the tokens of a text without NUL are those of a syntax tree exactly when the text is spellings of them with blanks between |
| `JsonTexts.DecodesTexts` | src/lua/json/json.c:1254-1290 | in either setting exactly the texts of syntax trees within the depth limit are decoded, each to the value of its tree |
| `JsonDecode.Parser.Next` | src/lua/json/json.c:1015-1092 | takes the first of the remaining tokens |
| `JsonDecode.Parser.ProcessValue` | src/lua/json/json.c:1225-1252 | reads what the grammar reads, with the same remaining tokens and the depth counter as before |
| `JsonDecode.Parser.ParseArray` | src/lua/json/json.c:1187-1222 | the array after its bracket, with the depth check first and the depth restored |
| `JsonDecode.Parser.ParseArrayItems` | src/lua/json/json.c:1206-1221 | the loop over items and commas |
| `JsonDecode.Parser.ParseObject` | src/lua/json/json.c:1136-1184 | the object after its brace, with the depth check first and the depth restored |
| `JsonDecode.Parser.ParseObjectFields` | src/lua/json/json.c:1156-1183 | the loop over keys, colons, values and commas; a later value of a key replaces an earlier one |
| `JsonDecode.Decode` | src/lua/json/json.c:1254-1290 | terminates on every input with the value the tokens stand for, or fails |
| `JsonEncode.AppendData` | src/lua/json/json.c:663-704 | appends the text of the value, or fails exactly when it is nested beyond the limit |
| `JsonEncode.AppendArray` | src/lua/json/json.c:561-581 | items between brackets, separated by commas |
| `JsonEncode.AppendObject` | src/lua/json/json.c:621-660 | keys and values between braces, separated by colons and commas |
| `JsonEncode.AppendNumber` | src/lua/json/json.c:583-619 | the text of a finite number inside the room asked for; infinities and not-a-number by name, as null, or refused with nothing written |
| `JsonEncode.Encode` | src/lua/json/json.c:706-734 | the text of the value, or failure beyond the depth limit |
| `JsonEncode.RoundTrip` | src/lua/json/json.c:1254-1290 | decoding an encoded value with string keys and no empty array gives it back when it fits the depth limit, and fails otherwise |
| `JsonEncode.ReadBack` | src/lua/json/json.c:1254-1290 | with numeric keys as well, what was written decodes to the value of the same syntax, the keys as strings |
| `JsonTexts.SpacedRoundTrip` | src/lua/json/json.c:1254-1290 | so does every text of the value, however it is spelt and with blanks anywhere around its tokens |
| `JsonTexts.CompactText` | src/lua/json/json.c:561-704 | the text written for a value is spellings of its tokens with no blank between them |
| `JsonTexts.NamesRead` | src/lua/json/json.c:597-606 | the names written for infinities and not-a-number are read back whole by the tolerant decoder; sign and first letter tell which it is |
| `JsonNul.NulHidesTheRest` | src/lua/json/json.c:1039-1041 | every input decodes like what comes before its first NUL when that is at index 2 or later, and is refused when it comes sooner; behind the NUL nothing is looked at |
| `JsonEncode.LayoutNumeral` | src/lua/json/json.c:616-618 | every number text written is taken back whole by the number scan, wherever it stands |
| `JsonEncode.ZeroNumeral` | src/lua/json/json.c:616-618 | so are the texts of the two zeros |
| `Digests.CountExact` | src/embedded/digest/md5.c:280-282 | the two-word byte count stays exact modulo 2^64 if and only if length plus low word is below 2^33 |
| `Digests.RotatesLeft` | src/embedded/digest/md5.c:313-313 | bit i of a word rotated by n is bit i - n modulo 32 of the word |
| `Digests.ShortIsCountable` | src/embedded/digest/md5.c:204-247 | a chunk below 2^32 bytes is counted exactly in both goes, whatever is buffered and counted before |
| `Digests.BitsOf` | src/embedded/digest/sha1.c:102-104 | the two words stored are the length in bits modulo 2^64 |
| `Digests.PadLengthFits` | src/embedded/digest/md5.c:111-112 | the pad computed from the buffered bytes is the padding of the whole message |
| `Digests.Padding` | src/embedded/digest/md5.c:111-112 | between 1 and 64 bytes that leave 8 free in the last block (section 3.1 of RFC 1321) |
| `Digests.Consume` | src/embedded/digest/sha1.c:212-222 | folding pending blocks keeps the context in step with the message and its count |
| `Digests.LastBlocks` | src/embedded/digest/sha1.c:91-112 | the tail that finish folds completes the fold over the padded message |
| `Sha1Blocks.RewrittenForms` | src/embedded/digest/sha1.c:268-278 | F1 to F4 and K1 to K4 are the functions and constants of sections 4.1.1 and 4.2.1 of FIPS 180-4 |
| `Sha1Blocks.SwapLoad` | src/embedded/digest/sha1.c:321-325 | a swapped little-endian load is the big-endian message word |
| `Sha1Blocks.NextWord` | src/embedded/digest/sha1.c:306-308 | the 16-word circular schedule yields the word of the 80-word schedule at every round |
| `Sha1Blocks.R` | src/embedded/digest/sha1.c:310-315 | one macro line is one round of section 6.1.2 with the registers renamed instead of shifted |
| `Sha1Blocks.FiveRounds` | src/embedded/digest/sha1.c:327-406 | five lines are five rounds and bring the register names back |
| `Sha1Blocks.OneBlock` | src/embedded/digest/sha1.c:317-413 | the eighty lines and the final additions are the standard compression of the block |
| `Sha1.StoreSwapped` | src/embedded/digest/sha1.c:74-83 | storing the swapped word puts its most significant byte first |
| `Sha1.LengthValue` | src/embedded/digest/sha1.c:103-104 | the length that is appended is the number of bits modulo 2^64 in eight bytes, most significant first |
| `Sha1.Context.constructor` | src/embedded/digest/sha1.c:55-67 | a fresh context has been fed the empty message |
| `Sha1.Context.ProcessBlock` | src/embedded/digest/sha1.c:284-414 | the state is folded over all blocks of the data and the count is advanced |
| `Sha1.Context.TopUp` | src/embedded/digest/sha1.c:202-225 | topping up a non-empty buffer keeps the context in step, with at most 64 bytes left pending |
| `Sha1.Context.WholeBlocks` | src/embedded/digest/sha1.c:227-247 | complete blocks are folded from an aligned or an unaligned input alike |
| `Sha1.Context.ProcessBytes` | src/embedded/digest/sha1.c:199-264 | after any chunk the context has been fed the longer message; where what is left after the top-up is aligned, its length and the low word of the count at that point have to stay below 2^33 together, otherwise the chunk may be of any length |
| `Sha1.Context.Finish` | src/embedded/digest/sha1.c:91-112 | the digest is that of the padded message fed |
| `Sha1.InChunks` | src/embedded/digest/sha1.c:199-264 | every split of a message into chunks, below 2^32 bytes each where what is left after the top-up is aligned, gives the digest of the whole |
| `Sha1.Buffer` | src/embedded/digest/sha1.c:184-197 | the digest of one buffer, up to the length the byte count can hold |
| `Sha1.Stream` | src/embedded/digest/sha1.c:117-178 | the digest of the contents of a file, read in blocks |
| `Sha1Examples.Abc` | src/embedded/digest/sha1.c:184-197 | the digest of abc is a9993e364706816aba3e25717850c26c9cd0d89d, the example of the standard |
| `Md5Blocks.RewrittenForms` | src/embedded/digest/md5.c:254-257 | the optimised forms are the functions F to I of section 3.4 of RFC 1321 |
| `Md5Blocks.ListedNumbers` | src/embedded/digest/md5.c:322-423 | the word numbers and rotations written out line by line follow the index and rotation rules |
| `Md5Blocks.Op` | src/embedded/digest/md5.c:301-309 | one macro line is one operation with the registers renamed instead of shifted |
| `Md5Blocks.OneBlock` | src/embedded/digest/md5.c:286-430 | the 64 lines and the final additions are the compression of the block |
| `Md5.LengthValue` | src/embedded/digest/md5.c:115-117 | the length that is appended is the number of bits modulo 2^64 in eight bytes, least significant first |
| `Md5.Context.constructor` | src/embedded/digest/md5.c:61-72 | a fresh context has been fed the empty message |
| `Md5.Context.ProcessBlock` | src/embedded/digest/md5.c:262-437 | the state is folded over all blocks of the data and the count is advanced |
| `Md5.Context.TopUp` | src/embedded/digest/md5.c:212-231 | topping up a non-empty buffer keeps the context in step, with at most 64 bytes left pending |
| `Md5.Context.ProcessBytes` | src/embedded/digest/md5.c:204-247 | after any chunk the context has been fed the longer message, where the part behind the top-up and the low word of the count at that point stay below 2^33 together |
| `Md5.Context.Finish` | src/embedded/digest/md5.c:97-123 | the digest is that of the padded message fed |
| `Md5.InChunks` | src/embedded/digest/md5.c:204-247 | every split of a message into chunks below 2^32 bytes gives the digest of the whole |
| `Md5.Buffer` | src/embedded/digest/md5.c:185-201 | the digest of one buffer, up to the length the byte count can hold |
| `Md5.Stream` | src/embedded/digest/md5.c:128-180 | the digest of the contents of a file, read in blocks |
| `Md5Examples.Empty` | src/embedded/digest/md5.c:185-201 | the digest of the empty message is d41d8cd98f00b204e9800998ecf8427e (section A.5 of RFC 1321) |
| `Md5Examples.Abc` | src/embedded/digest/md5.c:185-201 | the digest of abc is 900150983cd24fb0d6963f7d28e17f72 (section A.5 of RFC 1321) |
| `ThreadPool.KeepStep` | src/arken/concurrent/core.cpp:77-127 | every critical section keeps the invariant of the pool |
| `ThreadPool.PoolSafety` | src/arken/concurrent/core.cpp:77-127 | in every reachable state tasks are taken in start order and run at most once, workers never exceed the largest max so far, running mirrors the held tasks, and before shutdown actives counts queued plus held modulo 2^32 |
| `ThreadPool.BoundedExactly` | src/arken/concurrent/core.cpp:100-105 | all along a run the workers never exceed max if and only if max is never set below their number |
| `ThreadPool.CoveredExactly` | src/arken/concurrent/core.cpp:100-108 | all along a run, fewer workers than max means that actives is exact and at most their number, if and only if max is never raised above the workers while more is outstanding |
| `ThreadPool.MaxMoves` | src/bindings/arken/concurrent/core/core.cpp:17-22 | setting max can break either: lowered it leaves more workers than max, raised it leaves actives above the workers |
| `ThreadPool.LazyThreads` | src/arken/concurrent/core.cpp:104-106 | there are never more threads than the most entries that were outstanding in any state so far |
| `ThreadPool.GrowsExactly` | src/arken/concurrent/core.cpp:104-106 | a start adds a thread if and only if there is room below max and the outstanding entries modulo 2^32 are as many as the threads; that is when no thread is left over for it, except exactly where max was raised while more was outstanding |
| `ThreadPool.WaitingMirrorsQueue` | src/arken/concurrent/core.cpp:109-122 | in every run with fresh uuids waiting lists exactly the queued tasks with their descriptions |
| `ThreadPool.MirrorLostByDuplicate` | src/arken/concurrent/core.cpp:109-127 | from a mirroring state a step keeps the mirror if and only if it starts no task whose uuid is queued with another description and takes none whose uuid is queued again |
| `ThreadPool.MirrorExactly` | src/arken/concurrent/core.cpp:109-127 | waiting mirrors the queue in every state of a run if and only if every step of it is of that kind |
| `ThreadPool.MirrorLost` | src/arken/concurrent/core.cpp:109-127 | both kinds of step lose it: a second description under a queued uuid, and the first of two tasks under one uuid taken |
| `ThreadPool.ShutdownComplete` | src/arken/concurrent/core.cpp:13-29 | once all nulls are pushed and counted, zero means the outstanding entries are a multiple of 2^32; below 2^32 it means exactly that every task has finished and every thread has left |
| `ThreadPool.ShutdownTooEarly` | src/arken/concurrent/core.cpp:13-29 | the bound is needed: a reachable state with 2^32 entries outstanding reads zero |
| `ThreadPool.QuietIsFinal` | src/arken/concurrent/core.cpp:21-27 | after that no step can happen but a change of max, which leaves the pool quiet |
| `ThreadPool.NoTaskLeftBehind` | src/arken/concurrent/core.cpp:80-86 | once a thread has taken a null, every started task has been taken |
| `ThreadPool.WrapsBelowZero` | src/arken/concurrent/core.cpp:15-19 | from every idle state a push, a take and an exit before the increment make the counter read 2^32 - 1 |
| `ThreadPool.IdleReached` | src/arken/concurrent/core.cpp:77-108 | such an idle state is reachable |
| `ThreadPool.Core.Start` | src/arken/concurrent/core.cpp:100-112 | the critical section is the step Start of the transition system |
| `ThreadPool.Core.Get` | src/arken/concurrent/core.cpp:114-127 | the section after the wait is the step Get, and hands out the front of the queue |
| `ThreadPool.Core.Finish` | src/arken/concurrent/core.cpp:89-90 | run and the finished flag are the step Finish |
| `ThreadPool.Core.Retire` | src/arken/concurrent/core.cpp:92-94 | the locked end of a turn is the step Retire |
| `ThreadPool.Core.Leave` | src/arken/concurrent/core.cpp:83-87 | the locked exit after a null is the step Leave |
| `ThreadPool.Core.PushStop` | src/arken/concurrent/core.cpp:16-16 | pushing a null is a step |
| `ThreadPool.Core.CountStop` | src/arken/concurrent/core.cpp:17-17 | counting it is another |
| `ThreadPool.Core.SetMax` | src/bindings/arken/concurrent/core/core.cpp:17-22 | setting max is a step |
| `JobSplitter.KeepStep` | src/arken/concurrent/worker.cpp:177-207 | every locked section and every read of a flag keeps the invariant |
| `JobSplitter.SplitterSafety` | src/arken/concurrent/worker.cpp:177-207 | in every interleaving jobs leave the queue in order, each to one node, progress never exceeds the total, and there are no more nodes than cores or jobs |
| `JobSplitter.PerformReturns` | src/arken/concurrent/worker/mvm.cpp:7-35 | when perform returns there was a node for every core or for every job, every node has finished, and progress equals the total if and only if no job is empty; then every job was taken |
| `JobSplitter.EmptyJobStops` | src/arken/concurrent/worker.cpp:197-207 | an empty job does that: perform returns with another job still queued and no progress |
| `JobSplitter.NoCores` | src/arken/concurrent/worker.cpp:108-122 | without a core no job is taken |
| `JobSplitter.Worker.Enqueue` | src/arken/concurrent/worker.cpp:177-181 | the section is the step Enqueue |
| `JobSplitter.Worker.Dequeue` | src/arken/concurrent/worker.cpp:197-207 | the section is the step Dequeue; an empty string ends the loop of the node |
| `JobSplitter.Worker.Increment` | src/arken/concurrent/worker.cpp:183-186 | the increment is a step |
| `JobSplitter.Worker.Begin` | src/arken/concurrent/worker.cpp:108-122 | the number of nodes is the smaller of the limit and the queue, and the total is the queue |
| `ByteStrings.ByteString.constructor` | src/arken/string.cpp:1443-1449 | an empty string |
| `ByteStrings.ByteString.FromData` | src/arken/string.cpp:1451-1459 | the given bytes, NUL included |
| `ByteStrings.ByteString.Reserve` | src/arken/string.cpp:1753-1767 | the contents survive, the size asked for fits, and the new capacity and reserve are as given; below the capacity nothing changes |
| `ByteStrings.ByteString.Append` | src/arken/string.cpp:1546-1557 | the contents grow by the data, size stays within capacity with room for the terminator, and the amortised bound is kept |
| `ByteStrings.ByteString.AppendChar` | src/arken/string.cpp:1534-1543 | the same for one character |
| `ByteStrings.ByteString.Clear` | src/arken/string.cpp:1603-1612 | an empty string again |
| `ByteStrings.ByteString.Assign` | src/arken/string.cpp:1880-1892 | the contents are taken over if and only if no other character follows a NUL |
| `ByteStrings.CopyKeeps` | src/arken/string.cpp:1889-1889 | strncpy keeps a string exactly when its NULs come last |
| `ByteStrings.AppendAll` | src/arken/string.cpp:1546-1557 | any run of appends to a fresh string gives the concatenation and copies at most twice its length in reallocations |
| `Base64Codec.RoundTrip` | src/embedded/base64/ap_base64.c:111-209 | decoding what was encoded gives every byte sequence back |
| `Base64Codec.Alphabet` | src/embedded/base64/ap_base64.c:171-172 | the values 0 to 63 are the characters of Table 1 of RFC 4648 |
| `Base64Codec.SixExactly` | src/embedded/base64/ap_base64.c:90-109 | a character has a value exactly when it is in that table, and it is the one listed |
| `Base64Codec.Examples` | src/embedded/base64/ap_base64.c:179-209 | examples of section 10 of the RFC for each kind of ending |
| `Base64Codec.GroupBits` | src/embedded/base64/ap_base64.c:185-205 | masks and shifts pick the four 6-bit values of a 24-bit group (section 4 of RFC 4648) |
| `Base64Codec.ValueBits` | src/embedded/base64/ap_base64.c:140-163 | shifts and casts give the bytes of a group |
| `Base64Codec.Encode` | src/embedded/base64/ap_base64.c:179-209 | the padded text and its terminator, in exactly the room Base64encode_len promises |
| `Base64Codec.Decode` | src/embedded/base64/ap_base64.c:126-169 | the bytes spelled before the first foreign character; they and a terminator stay within the room Base64decode_len promises, and the result is their number |

## Left out

- `Bfree`, the freelist and the private memory pool of `dtoa.c`: a block from `Balloc` is a fresh
  object here, so reuse of freed blocks is not modelled.
- The floating-point parts of `dtoa.c`: the estimate of the decimal exponent, the quick path with
  doubles, small-integer shortcuts, `ratio`, `b2d`, and the correction loop and `bigcomp` of
  `fpconv_strtod`. That the estimate is right or one too large, and right where it is not checked, is
  a precondition.
- Signs, zeros, infinities and not-a-number in `dtoa`, which never reach its digit loops.
- Modes 3, 4 and 5 of `dtoa` and the exit of the shortest loop at a digit limit, which modes 0 and 1
  never take.
- `s2b`: it would only add easy members.
- The values of hexadecimal numbers and of the names of the infinities and of not-a-number: the scan
  says where such a text ends and the token is that text.
- NumberScan.Scan: stands for the accumulated decimal; turning it into the nearest double is the
  floating-point part.
- SpecialNumbers.GetHex: says where a hexadecimal number ends, not its value.
- SpecialNumbers.HexNan: says where the parenthesis ends, not which payload bits it sets.
- TextLayout.GFmt: takes digit strings of 1 to 14 digits, the precisions the encoder allows, and decimal
  points from -998 to 1000; that those of doubles are among them is `DoubleText.ExponentRange`.
- Integer overflow of the `int` sizes in `strbuf.c` and of the `int` job count in `worker.cpp`, and
  running out of memory: sizes are unbounded here.
- JsonEncode.AppendObject: takes string keys and finite numeric keys; keys of other types, which the
  code refuses, are not modelled.
- Sparse and mixed Lua tables, light user data other than null, and values that hold infinities or
  not-a-number in the encoder as a whole; the order in which
  `lua_next` visits an object is the order of its fields here.
- Lua stack limits, `luaL_error` jumps and the text of error messages: a failure is a failure result.
- Sha1.Buffer: takes an aligned input shorter than 2^33 bytes, because from there on its byte count is
  wrong (`Digests.CountExact`) and the padding ends in another length.
- Md5.Buffer: takes inputs shorter than 2^33 bytes for the same reason.
- Error returns of `fread` in the stream functions: the file is its contents.
- Liveness of the pool and of the workers: masters wait for nodes in the same pool, so it is not
  guaranteed. The unlocked pushes of `shutdown` are taken as atomic, and no task is started once
  shutdown has pushed its first null.
- User code run by workers (Lua callbacks), the virtual machine pool, and the task queues of
  `src/arken/concurrent/task`.
- ByteStrings.ByteString.Assign: takes a string other than itself; assigning a string to itself reads
  memory that has just been freed. So does `append` of a string's own data when it has to grow
  (`src/arken/string.cpp:1546-1557`); `ByteStrings.ByteString.Append` takes its data as a value.
- Moving constructors and moving assignment of `string`, which hand over the memory and leave the
  other string unusable, and its other text helpers.

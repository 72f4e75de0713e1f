# Verified models of decimal printing and of the modem pipeline

Two parts of the repository are modelled here and proved with Dafny 4.11; `dafny verify dfyconfig.toml`
checks everything.

**Exact decimal printing of numbers** (`include/spdlog/fmt/bundled/format-inl.h`). The multi-word integer
`bigint` is a class over a sequence of 32-bit words and an exponent (`Bigint.dfy`), with its value as the
abstraction; `Words`, `WordSteps`, `WordOrder` and `Columns` hold the arithmetic behind its methods. On top
of it stand the Dragon4 digit generator (`Decimals`, `Dragon`, `FallbackFormat`), the Grisu digit generator
with its fixed-precision handler (`Grisu`), and `format_float`, which tries the second and falls back to the
first (`FormatFloat`). `Places` is about which decimal place a result is right to, and `Boundary` about the
intervals whose lower end is left out. `TrailingZeros` and `WideMultiply` hold the modular-inverse and four-product tricks.

**The real-time pipeline of the modem and its helpers.** `Ringbuffer` and `RingProtocol` model the
multichannel ring buffer and its producer and consumer in any interleaving, `SdrReader` the gates of the reader.
`Subframes` and `Phy` model the mapping of a subframe to its rank in the scheduling period and to a physical
multicast channel. `FramePool` is one processing episode of the main loop with its worker pool as a state
machine; `MbsfnProcess` is what a worker does with one MBSFN subframe. `LogQueue` and `LogPool` model the
asynchronous logger's queue and the shutdown of its pool, and `IpChecksum` the correction of the IPv4 header
checksum.

## How the code is modelled

- Words, double words and 64-bit values are bounded integer types, and every place where the code relies on
  wrapping or truncation says so with an explicit remainder. `int` exponents, sizes and counts are unbounded
  but for the limits stated on the methods (decimal exponents below 2^30 in absolute value, at most 2^31
  words, quotients below 2^31).
- A printed digit is its value; the character after `9`, which the code produces for a moment while it
  carries, is ten.
- A blocking call is a step that is enabled only when it can go on. A critical section under a mutex is one
  step. The ring buffer's device stores one byte per step between `write_head` and `commit`.
- A method of the code that has several loops is divided into one method per loop.
- What the radio, the decoder and the network deliver are arbitrary parameters: samples and their number, a
  frame fetched or not, a transport block decoded or not and what it contains.
- What threads do side by side is a state machine over values, one for the ring buffer and the SDR reader, one
  for the main loop and its pool, one for the logger's pool; every interleaving is a run. The objects they
  share are classes whose methods are proved against the functions and sequence operations that the state
  machines use.
- Per-channel buffers are the rows of one two-dimensional array.
- `std::map` iteration over pending stops is a walk over all 256 logical channel numbers in order.

## What the code does that its comments do not say

- `compare` calls two equal numbers unequal when one of them stores its low zero words and the other has them
  in its exponent (`WordOrder.CompareExactness`, `WordOrder.CompareMisjudges`). `divmod_assign` inherits this:
  it answers zero for equal values if its own exponent is the larger. `FallbackFormat.Prepare` proves that
  this combination never arises while the digits of a double are generated.
- The comparison with the lower boundary does meet the same case, unless `BoundaryJudged`. The boundary is then
  left out of the interval, and digits are lost by it exactly for the values of `FallbackFormat.BoundaryLost`
  (`Boundary.LostExactly`): for 8344650268554688 * 2^40 the shortest path of `fallback_format` answers
  with sixteen digits although six would do. No caller in the repository takes that path: `format_float` sends
  requests without a precision to Dragonbox.
- `subtract_aligned` stays on one word while it borrows. It is exact unless that word is zero and a borrow is
  pending (`Stuck`), and `WordOrder.NeverStuck` excludes this for digit generation.
- With precision zero outside fixed notation Grisu produces one digit and the fallback none, so that 2.5 becomes
  zero. `FormatFloat.Met` says when the result is right to one digit all the same.
- The limit of 767 digits is harmless outside fixed notation, but in fixed notation it also limits the decimals.
  A request for more is met exactly by values near enough to a decimal with 767 (`FormatFloat.MetExactly`); from
  870 decimals on these are the doubles with at most 767 decimals (`Places.ClampExactly`), not 5e-324.
- `MultichannelRingbuffer::read` of zero bytes takes the wrapped branch, with a negative second part
  (`Ringbuffer.PartsFitExactly`); the protocol's reads ask for at least one byte.
- `src/main.cpp:602` clears the ring buffer while the reader thread runs, so also between `write_head` and `commit`.
  The commit then makes the beginning of the buffer readable, not the bytes that were stored
  (`RingProtocol.ClearInsideAGrant`). `RingProtocol.ClearExactly` and `RingProtocol.RunsConserve` say when nothing is
  mixed up; that reads stay within the buffered bytes and never see a region on offer holds all the same.
- When fetching a CAS frame fails, the CAS processor stays locked, and resynchronising frees only the MBSFN
  processors. The next CAS subframe then waits for ever (`FramePool.OrphanIsNeverLockedAgain`). It also frees MBSFN
  processors that are at work. The lock protocol is therefore stated for one episode that starts with all locks
  free, and `FramePool.ResynchronisedExactly` says when it survives the end of one.
- A pending stop does not remember the channel that announced it. With a common scheduling period all stops
  are issued on the first channel (`MbsfnProcess.AnnouncedIsIssued`).
- A header whose stored checksum is all ones although its other words also add up to all ones verifies, but
  is rewritten (`IpChecksum.LeftAloneWhen`).

## Model

| member | source | states |
|---|---|---|
| `BigIntegers.Bigint.Assign` | include/spdlog/fmt/bundled/format-inl.h:1323-1331 | the 64-bit constructor value is represented exactly, with a non-zero top word unless it is zero |
| `BigIntegers.Bigint.MultiplyWord` | include/spdlog/fmt/bundled/format-inl.h:1279-1288 | for a number of any length the value is multiplied exactly, no 64-bit intermediate overflows, and the top word stays non-zero |
| `BigIntegers.Bigint.MultiplyDouble` | include/spdlog/fmt/bundled/format-inl.h:1290-1305 | the same for a 64-bit factor, where the carry chain reaches 2^64 - 1 and no more |
| `BigIntegers.Bigint.ShiftLeft` | include/spdlog/fmt/bundled/format-inl.h:1335-1348 | shifting by any amount multiplies the value by exactly that power of two and moves whole words into the exponent |
| `BigIntegers.Bigint.SubtractBigits` | include/spdlog/fmt/bundled/format-inl.h:1255-1259 | one word of a subtraction: what is stored and the borrow account for the difference exactly, although the 64-bit intermediate wraps |
| `BigIntegers.Bigint.RemoveLeadingZeros` | include/spdlog/fmt/bundled/format-inl.h:1261-1265 | dropping leading zero words keeps the value and leaves a non-zero top word or a single zero word |
| `BigIntegers.Bigint.SubtractAligned` | include/spdlog/fmt/bundled/format-inl.h:1268-1277 | the difference of the values, plus exactly the surplus that the borrow loop leaves when it sticks at a zero word, because it does not move on to the next one |
| `WordOrder.SettledDifference` | include/spdlog/fmt/bundled/format-inl.h:1275-1276 | what the word-by-word subtraction and the final borrow amount to as numbers, in the exact case and in the stuck case |
| `WordOrder.DifferenceExactness` | include/spdlog/fmt/bundled/format-inl.h:1275 | the subtraction is exact if and only if it does not stick |
| `WordOrder.SubtractionSticks` | include/spdlog/fmt/bundled/format-inl.h:1275 | it does stick: taking one from 2^64 stored in three words |
| `WordOrder.NeverStuck` | include/spdlog/fmt/bundled/format-inl.h:1268-1277 | when the minuend is less than 2^31 times the other number, as in digit generation, the subtraction never sticks and is exact |
| `BigIntegers.Bigint.Compare` | include/spdlog/fmt/bundled/format-inl.h:1356-1370 | compare orders by value, and between equal values stored with different exponents calls the one with the smaller exponent larger |
| `WordOrder.CompareExactness` | include/spdlog/fmt/bundled/format-inl.h:1356-1370 | compare is the order of the values if and only if the exponents are equal or the values differ; its tests against zero from below are exact whenever the left exponent is not the larger |
| `WordOrder.CompareMisjudges` | include/spdlog/fmt/bundled/format-inl.h:1368 | two equal values that compare calls unequal, in either order: a word behind a stored zero word against the same word with exponent one |
| `BigIntegers.Bigint.AddCompare` | include/spdlog/fmt/bundled/format-inl.h:1373-1394 | the sign of lhs1 + lhs2 - rhs for any mix of exponents, although the sum is never formed and the scan stops early on lengths or on the running borrow |
| `WordOrder.LengthDecides` | include/spdlog/fmt/bundled/format-inl.h:1375-1378 | the two length tests of add_compare decide only when the sum's order against the other number is already settled |
| `WordOrder.LeadDecides` | include/spdlog/fmt/bundled/format-inl.h:1388-1391 | a lead or a deficit found at some word cannot be made up by all the words below it |
| `BigIntegers.Bigint.Square` | include/spdlog/fmt/bundled/format-inl.h:1416-1444 | column sums with carry in the two-part accumulator give exactly the square of the value, for any length |
| `Columns.ColumnsMakeProduct` | include/spdlog/fmt/bundled/format-inl.h:1423-1440 | the column sums with their weights add up to the product of the two numbers |
| `BigIntegers.Bigint.AssignPow10` | include/spdlog/fmt/bundled/format-inl.h:1397-1414 | repeated squaring and the final shift give exactly 10^n for every exponent |
| `BigIntegers.Bigint.SquareAndMultiply` | include/spdlog/fmt/bundled/format-inl.h:1408-1412 | one step turns the power for the leading bits of the exponent into the power for one bit more |
| `BigIntegers.Bigint.Align` | include/spdlog/fmt/bundled/format-inl.h:1448-1457 | bringing the exponent down to the other number's keeps the value |
| `BigIntegers.Bigint.DivModAssign` | include/spdlog/fmt/bundled/format-inl.h:1461-1472 | returns the quotient and leaves the remainder, exactly, unless the values are equal and this exponent is the larger, in which case it returns zero and changes nothing |
| `Decimals.PropagateCarry` | include/spdlog/fmt/bundled/format-inl.h:2414-2417 | passing a digit of ten to the left keeps the number that the digits denote and leaves at most the first digit at ten |
| `Decimals.OverflowAsOne` | include/spdlog/fmt/bundled/format-inl.h:2418-2421 | a first digit of ten means all nines have been carried through: one with the exponent raised denotes the same number |
| `Decimals.RoundHalfEvenIsNearest` | include/spdlog/fmt/bundled/format-inl.h:2409 | the reference rounding is nearest to the exact ratio, to within half a unit, and among equally near integers the even one |
| `Dragon.FixedDigits` | include/spdlog/fmt/bundled/format-inl.h:2394-2426 | exactly n decimal digits and an exponent that denote numerator / denominator rounded half to even to n digits; the exponent is raised if and only if a carry runs through nothing but nines |
| `Dragon.NoDigits` | include/spdlog/fmt/bundled/format-inl.h:2394-2400 | with no digit requested, the one digit is the ratio over ten rounded half to even |
| `Dragon.DigitAndTests` | include/spdlog/fmt/bundled/format-inl.h:2370-2373 | one digit and its remainder, and what the low and high tests say about the remainder against both boundaries, with their closed or open ends |
| `Dragon.Round` | include/spdlog/fmt/bundled/format-inl.h:2369-2391 | one round keeps value = (digits so far + rest) scaled; when it goes on, no decimal of this length lies in the rounding interval, and lower has grown; when it stops, the decimal does and is the nearest of its length in the interval; the interval has its upper end for an even significand, and its lower end if that is also judged right |
| `Dragon.NextState` | include/spdlog/fmt/bundled/format-inl.h:2388-2390 | multiplying the rest and both boundaries by ten carries the invariant of the digit loop to the next round |
| `Dragon.RaisedDigit` | include/spdlog/fmt/bundled/format-inl.h:2376-2383 | a digit is never bumped to ten |
| `Dragon.ShortestDigits` | include/spdlog/fmt/bundled/format-inl.h:2363-2392 | terminates with decimal digits that lie in the rounding interval, are as near to the value as any decimal of that length in it, and are as short as possible; the interval is that of Round |
| `FallbackFormat.RatioIsValue` | include/spdlog/fmt/bundled/format-inl.h:2362 | the four integers of the setup denote significand * 2^e / 10^exp10, in all three branches |
| `FallbackFormat.BoundariesAreHalfway` | include/spdlog/fmt/bundled/format-inl.h:2317-2327 | the boundaries stand half a binary place above the value and half a place below, or a quarter when the predecessor is closer |
| `FallbackFormat.PrepareIntegral` | include/spdlog/fmt/bundled/format-inl.h:2329-2340 | non-negative binary exponent: numerator, denominator and both boundary distances have the stated values |
| `FallbackFormat.PrepareTiny` | include/spdlog/fmt/bundled/format-inl.h:2341-2351 | negative decimal exponent: likewise |
| `FallbackFormat.PrepareFraction` | include/spdlog/fmt/bundled/format-inl.h:2352-2361 | the remaining case: likewise |
| `FallbackFormat.Prepare` | include/spdlog/fmt/bundled/format-inl.h:2315-2361 | for every double the four integers are right, and division by the denominator never meets the case in which compare misjudges equal values; the comparison with the lower boundary is right on the boundary exactly if BoundaryJudged |
| `FallbackFormat.NeverEqualAbove` | include/spdlog/fmt/bundled/format-inl.h:2329-2340 | why not, for a non-negative binary exponent: a power of ten with so many factors of two would exceed the denominator |
| `FallbackFormat.NeverEqualTiny` | include/spdlog/fmt/bundled/format-inl.h:2341-2351 | why not, for a negative decimal exponent: a power of two is never a multiple of five |
| `FallbackFormat.Format` | include/spdlog/fmt/bundled/format-inl.h:2313-2427 | fallback_format as a whole, for every significand and exponent whose decimal estimate is good enough: correctly rounded digits of the requested count, or digits of the rounding interval that are shortest without its lower end, and shortest of the whole interval if and only if not BoundaryLost |
| `FallbackFormat.ShortestWithBoundary` | include/spdlog/fmt/bundled/format-inl.h:2371 | a decimal that is shortest without the lower boundary is shortest with it if and only if at no length the boundary is the one decimal in the interval |
| `FallbackFormat.ShortestExactly` | include/spdlog/fmt/bundled/format-inl.h:2366-2391 | the digits are shortest of the whole rounding interval if and only if not BoundaryLost |
| `Boundary.UnjudgedIsIntegral` | include/spdlog/fmt/bundled/format-inl.h:2329-2361 | only values with a binary exponent above the decimal estimate can lose their boundary |
| `Boundary.LostExactly` | include/spdlog/fmt/bundled/format-inl.h:2366-2391 | which values lose it at the cost of digits, as a condition on significand, binary exponent and decimal estimate: even significand, power of two in a higher word than the power of ten, and enough factors of five in the boundary |
| `Boundary.SixDigitsWouldDo` | include/spdlog/fmt/bundled/format-inl.h:2371 | 8344650268554688 * 2^40 is such a value: its lower boundary 917504 * 10^22 belongs to the interval |
| `Boundary.SixteenDigits` | include/spdlog/fmt/bundled/format-inl.h:2363-2392 | for it the shortest path answers 9175040000000001 * 10^12 |
| `Grisu.GetRoundDirection` | include/spdlog/fmt/bundled/format-inl.h:1481-1495 | down means every number within error of the remainder is at or below half the divisor, up at or above, unknown that there are numbers on both sides; every intermediate is required to be a 64-bit word |
| `Grisu.TrustedForReals` | include/spdlog/fmt/bundled/format-inl.h:1505-1510 | an integer criterion for trusting digits holds for every real number within the error of the scaled value |
| `Grisu.DirectionIsTrusted` | include/spdlog/fmt/bundled/format-inl.h:1476-1495 | a known direction makes the digits so far, raised or not, nearest for every number within the error |
| `Grisu.FixedHandler.OnStart` | include/spdlog/fmt/bundled/format-inl.h:1596-1611 | fixed precision is adjusted by the exponent; without a digit to produce, the answer is trusted for the whole error interval, or an error exactly if the direction is unknown |
| `Grisu.FixedHandler.OnDigit` | include/spdlog/fmt/bundled/format-inl.h:1613-1643 | done means there are enough digits and they are trusted for every number within the error; an error is reported exactly if the direction at the last digit is unknown, or in the fraction the error reaches the remainder |
| `Grisu.FixedHandler.RaiseLastDigit` | include/spdlog/fmt/bundled/format-inl.h:1630-1641 | raising the last digit adds one to the number denoted; a digit is appended or the exponent raised only when a one and zeros are left |
| `Grisu.IntegralDigits` | include/spdlog/fmt/bundled/format-inl.h:1526-1575 | the digits of the integral part, by descending powers of ten, with digits and remainder always adding up to the scaled value |
| `Grisu.FractionDigits` | include/spdlog/fmt/bundled/format-inl.h:1577-1585 | the digits of the fraction, scaling the error along; ends with trusted digits or an error, and the tenfold error never overflows 64 bits |
| `Grisu.GenDigits` | include/spdlog/fmt/bundled/format-inl.h:1509-1586 | whenever digits are done they are within half a unit of the last place of every value within the error; it gives up exactly if the direction at the requested digit is unknown or the error catches up with the fraction before, and then nothing has been raised and the count of digits and the exponent fit together |
| `FormatFloat.TrustTransfers` | include/spdlog/fmt/bundled/format-inl.h:1505-1508 | digits trusted for the whole error interval of the approximation are right for the exact value behind it |
| `FormatFloat.EstimateIsSafe` | include/spdlog/fmt/bundled/format-inl.h:2473-2475 | the exponent estimate that Grisu hands over on failure satisfies the fallback's precondition: the leading digit is at most nine |
| `FormatFloat.TrimZeros` | include/spdlog/fmt/bundled/format-inl.h:2482-2487 | what is removed is zeros, one for every step of the exponent, and no zero is left at the end |
| `FormatFloat.Trim` | include/spdlog/fmt/bundled/format-inl.h:2480-2488 | zeros are removed outside fixed notation when the point is not shown, and then only; the decimal denoted stays the same |
| `FormatFloat.Estimate` | include/spdlog/fmt/bundled/format-inl.h:2473-2475 | the value lies between 10^x / 2 and 10^(x+1) for the estimate x, which is itself far from any limit |
| `FormatFloat.ApproximationExists` | include/spdlog/fmt/bundled/format-inl.h:2464-2467 | every double has an approximation such as the model asks for |
| `FormatFloat.TryGrisu` | include/spdlog/fmt/bundled/format-inl.h:2472-2479 | Grisu's digits are right to the place produced, or it leaves the right count and exponent to the fallback |
| `FormatFloat.MetExactly` | include/spdlog/fmt/bundled/format-inl.h:2468-2475 | what is produced is right to the place requested if and only if: in fixed notation, at most 767 decimals are asked for or the value is near enough to one with 767; otherwise, a digit is asked for, or Grisu can round to one, or the value rounds up to ten |
| `FormatFloat.SmallestDoubleFallsShort` | include/spdlog/fmt/bundled/format-inl.h:2468-2471 | 1000 decimals of 5e-324 are a request that is not met |
| `FormatFloat.TwoAndAHalfFallsShort` | include/spdlog/fmt/bundled/format-inl.h:2473-2475 | no digits of 2.5 is a request that is not met: Grisu cannot tell, and the fallback's zero one place up is not a rounding to one digit |
| `FormatFloat.Digits` | include/spdlog/fmt/bundled/format-inl.h:2459-2489 | for every double, precision and notation the result is within half a unit of the last place produced, whether Grisu or the fallback produced it, and within half a unit of the last place requested if and only if the request can be met; in fixed notation or with the point shown all digits down to that place are returned, one more or a higher exponent only after a carry through nothing but nines; otherwise only zeros at the end are missing |
| `Places.AtMost767Digits` | include/spdlog/fmt/bundled/format-inl.h:2468-2471 | a double has at most 767 significant digits, so outside fixed notation the limit costs nothing |
| `Places.FinerPlace` | include/spdlog/fmt/bundled/format-inl.h:2471 | a result that is right to one place is right t places further down if and only if the value is that near to a decimal with the fewer places |
| `Places.PlaceAbove` | include/spdlog/fmt/bundled/format-inl.h:2394-2400 | an answer one place too high is right to one digit if and only if the value rounds up to ten |
| `Places.FitIsExact` | include/spdlog/fmt/bundled/format-inl.h:2471 | a value has at most 767 decimals if and only if its significand has the factors of two for it |
| `Places.FitIsHarmless` | include/spdlog/fmt/bundled/format-inl.h:2468-2471 | for such a value every number of decimals may be asked for |
| `Places.ClampExactly` | include/spdlog/fmt/bundled/format-inl.h:2468-2471 | from 870 decimals on the request is met by no other double |
| `TrailingZeros.InverseDividesExactly` | include/spdlog/fmt/bundled/format-inl.h:1771-1781 | for any word base, the product with the inverse of d is at most the largest quotient exactly for the multiples of d, and is then the quotient |
| `TrailingZeros.PowerOf5Test64` | include/spdlog/fmt/bundled/format-inl.h:1777-1781 | with the 24 table entries the 64-bit test is divisibility by the power of five |
| `TrailingZeros.PowerOf5Test32` | include/spdlog/fmt/bundled/format-inl.h:1772-1776 | with the 11 table entries the 32-bit test is divisibility by the power of five |
| `TrailingZeros.Inverse64` | include/spdlog/fmt/bundled/format-inl.h:337-362 | every 64-bit table entry is the inverse of its power of five |
| `TrailingZeros.Inverse32` | include/spdlog/fmt/bundled/format-inl.h:328-335 | every 32-bit table entry is the inverse of its power of five |
| `TrailingZeros.StrippedIsMaximal` | include/spdlog/fmt/bundled/format-inl.h:2040-2048 | stripping s zeros up to the cap, with no more to take, is the plain loop that divides by ten while divisible |
| `TrailingZeros.StripQuotient` | include/spdlog/fmt/bundled/format-inl.h:2063-2072 | the loop on the quotient by 10^8, which keeps the powers of two in place and shifts once at the end |
| `TrailingZeros.ChainStep` | include/spdlog/fmt/bundled/format-inl.h:2080-2083 | one test of the chain on the remainder: stop with the right result or go on with one more zero found |
| `TrailingZeros.StripRemainder` | include/spdlog/fmt/bundled/format-inl.h:2076-2122 | the unrolled chain finds at most seven zeros and recombines remainder and quotient correctly, with no 32-bit product lost |
| `TrailingZeros.RemoveTrailingZeros64` | include/spdlog/fmt/bundled/format-inl.h:2041-2123 | number and count agree with dividing by ten while divisible, up to the cap |
| `TrailingZeros.RemoveTrailingZeros32` | include/spdlog/fmt/bundled/format-inl.h:2013-2038 | the same for 32 bits, two zeros at a time |
| `TrailingZeros.AllZerosGo` | include/spdlog/fmt/bundled/format-inl.h:2049-2051 | for every n below 10^17 the cap of sixteen that the code has for double is no cap at all |
| `WideMultiply.Multiply128IsExact` | include/spdlog/fmt/bundled/format-inl.h:1649-1675 | the portable four-product form is the full double-width product, for any word base |
| `WideMultiply.MultiplyRoundsHalfUp` | include/spdlog/fmt/bundled/format-inl.h:1178-1193 | the portable form is the product over the squared base rounded half up, as the 128-bit branch computes it |
| `WideMultiply.PartsFit` | include/spdlog/fmt/bundled/format-inl.h:1186-1191 | none of the partial products and sums of the portable forms overflows 64 bits |
| `Ringbuffer.OfferIsFree` | src/MultichannelRingbuffer.cpp:48-68 | the region offered to the producer is inside the buffer, holds no readable byte, and is empty only when the buffer is full |
| `Ringbuffer.CommitAppends` | src/MultichannelRingbuffer.cpp:70-76 | committing appends the bytes at the offered place to every channel's contents |
| `Ringbuffer.ReadTakes` | src/MultichannelRingbuffer.cpp:78-100 | reading takes bytes from the front of every channel and leaves the tail where it is |
| `Ringbuffer.WriteIsInvisible` | src/MultichannelRingbuffer.cpp:48-68 | a byte stored outside the readable region changes no channel's contents |
| `Ringbuffer.PartsFitExactly` | src/MultichannelRingbuffer.cpp:84-96 | a wrapped read splits into two copies that cover the request; for a request of zero bytes the split is wrong, so a read must ask for something |
| `Ringbuffer.MultichannelRingbuffer.WriteHead` | src/MultichannelRingbuffer.cpp:48-68 | the offered place and size are the ring's free stretch |
| `Ringbuffer.MultichannelRingbuffer.Commit` | src/MultichannelRingbuffer.cpp:70-76 | the stored buffers stay and the used count grows by what was written |
| `Ringbuffer.MultichannelRingbuffer.Read` | src/MultichannelRingbuffer.cpp:78-100 | every channel's destination receives the front of its contents, wrapped or not, and the ring advances |
| `Ringbuffer.OfferIsLongest` | src/MultichannelRingbuffer.cpp:56-61 | no free stretch from the tail to the end of the buffer is longer than the offer |
| `RingProtocol.StepIsSafe` | src/MultichannelRingbuffer.cpp:48-100 | every step of producer, device and consumer, and a clear at any time, keeps the granted region inside the buffer and beside what is buffered, and the number of bytes accounted for |
| `RingProtocol.GrantIsFree` | src/MultichannelRingbuffer.cpp:48-68 | no byte of the granted region is readable, even after reads have moved the head or the buffer was cleared |
| `RingProtocol.StepConservesExactly` | src/MultichannelRingbuffer.cpp:70-76 | only a commit can break conservation, and it does if and only if the bytes it makes readable are not the ones that were stored |
| `RingProtocol.ClearExactly` | src/MultichannelRingbuffer.h:34 | a clear keeps the protocol's invariant if and only if no region is on offer or it starts at the beginning of the buffer |
| `RingProtocol.StepKeeps` | src/MultichannelRingbuffer.cpp:48-100 | every step keeps conservation with the grant at the tail if and only if it is not a clear that displaces the grant |
| `RingProtocol.RunsAreSafe` | src/MultichannelRingbuffer.cpp:48-100 | in every interleaving, with clears at any time: no granted byte is readable, and on every channel as many bytes are received or buffered as were committed since the last clear |
| `RingProtocol.RunsConserve` | src/MultichannelRingbuffer.cpp:48-100 | bytes received followed by bytes buffered are the bytes committed, on every channel: in every state of a run if and only if every commit lands, and so in every run that clears only without a grant or with one at the beginning |
| `RingProtocol.ClearInsideAGrant` | src/main.cpp:602 | a run in which the buffer is cleared between write_head and commit: a byte from before the clear is readable in place of the one committed |
| `SdrReader.GateOffersASample` | src/SdrReader.cpp:285-294 | past the free-space gate the offer is at least one sample and a whole number of them |
| `SdrReader.GatesExactly` | src/SdrReader.cpp:285-293 | the producer asks exactly when a millisecond of samples fits and is offered the whole free stretch; the high watermark is set by a buffer half full and lasts until a request finds less than ten milliseconds or the buffer is cleared |
| `SdrReader.FetchTakesAll` | src/SdrReader.cpp:362-392 | a completed request for n samples lowers the used bytes by exactly 8n and hands out the first 8n bytes of every channel |
| `SdrReader.DeliverGivesAll` | src/SdrReader.cpp:307-327 | a delivery of n samples commits exactly 8n bytes on every channel, those at the beginning of the region on offer |
| `SdrReader.RunsMoveSamples` | src/SdrReader.cpp:283-392 | over a run without clears every channel receives 8 bytes for every sample of the completed requests and has 8 bytes committed for every sample delivered |
| `SdrReader.ActKeeps` | src/SdrReader.cpp:283-392 | every step of reader thread and get_samples, and clear_buffer between two requests, keeps head, used and grant on sample boundaries and the consumer's claim on the buffer |
| `SdrReader.ReaderRunsAreRuns` | src/SdrReader.cpp:283-392 | a run of reader and consumer is a run of the ring buffer, so conservation holds for it under the same condition |
| `SdrReader.ReaderRunsAreSafe` | src/SdrReader.cpp:355-392 | over all runs, with clears, get_samples never reads more than is buffered, nor nothing, for requests of at most ten milliseconds and half the ring, and what the device is offered is whole samples of which none is readable |
| `Subframes.CasOrMbsfn` | src/Phy.cpp:318-337 | in both modes every subframe is either a CAS or an MBSFN subframe |
| `Subframes.IndexCountsEarlier` | src/Phy.cpp:370-377 | the subframe index is the number of earlier MBSFN subframes in the scheduling period, in both modes, with no 32-bit wrap |
| `Subframes.RanksAreCounted` | src/Phy.cpp:318-337 | a period holds 10P - P/4 MBSFN subframes in dedicated mode and 6P in mixed mode |
| `Subframes.IndexIsInjective` | src/Phy.cpp:370-377 | two MBSFN subframes of a period have different indices |
| `Subframes.IndexIsOnto` | src/Phy.cpp:370-377 | every rank below that number belongs to an MBSFN subframe of the period |
| `Subframes.IndexFollowsSteps` | src/main.cpp:736 | stepping the clamped subframe counter to the next MBSFN subframe adds one to the index or starts over at zero with a new period, also across the wrap at 10240 |
| `PhyMapping.ChannelOwnsInterval` | src/Phy.cpp:379-391 | with increasing ends and a common period a channel takes a subframe exactly when the rank lies after the previous channel's end and up to its own |
| `PhyMapping.RankIsServed` | src/Phy.cpp:370-391 | every rank of a channel occurs in every scheduling period, in a subframe that is mapped to that channel |
| `PhyMapping.PastTheEnd` | src/Phy.cpp:370-392 | no channel takes the subframe exactly when the rank is past the last end |
| `PhyMapping.SignallingAtFirstRank` | src/Phy.cpp:381-388 | the test for the signalling modulation, which looks at frame and subframe for the first channel only, holds exactly at each channel's first rank |
| `PhyMapping.Phy.McchInItsFrame` | src/Phy.cpp:358-359 | in the frame at the offset of every repetition period exactly the subframes set in the table are MCCH |
| `PhyMapping.Phy.McchInNoOtherFrame` | src/Phy.cpp:358-359 | no subframe of any other frame of the period is |
| `PhyMapping.Phy.McchAtExactly` | src/Phy.cpp:358-359 | the test is that one over frames, for every subframe and also for an offset beyond the period |
| `PhyMapping.Phy.MbsfnConfigForTti` | src/Phy.cpp:338-396 | MCCH subframes, set in the table and at the offset in a repetition period, go to no channel and are enabled only while MCCH is decoded; others go to the first channel that covers them with the right modulation, and are disabled when there is none |
| `FramePool.TaskQueue.Push` | include/thread_pool.hpp:51-72 | the history of pushed tasks grows by the task and stays what has been removed followed by what is queued |
| `FramePool.TaskQueue.NextTask` | include/thread_pool.hpp:131-148 | the k-th task to be removed is the k-th that was pushed, and there is none only when all of them have been removed |
| `FramePool.PushTask` | src/main.cpp:808-810 | on the queue object, main's push is the step Hand of the episode |
| `FramePool.FetchTask` | include/thread_pool.hpp:117-121 | on the queue object, a worker's fetch is the step Start, and the worker runs the task it got |
| `FramePool.LockKeeps` | src/MbsfnFrameProcessor.h:106 | taking a free processor's lock makes main its only holder |
| `FramePool.HandKeeps` | src/main.cpp:742-747 | pushing a task passes the processor from main to the task without its ever being free |
| `FramePool.StartKeeps` | include/thread_pool.hpp:113-148 | a worker takes the oldest task and with it the processor |
| `FramePool.UnlockKeeps` | src/MbsfnFrameProcessor.cpp:84-275 | a processor is freed by the one worker that runs its task |
| `FramePool.StepKeeps` | src/main.cpp:734-830 | every step of main and of any worker keeps the whole lock protocol |
| `FramePool.FewHolders` | src/main.cpp:471 | at most one task per processor, thread_cnt + 1 in all, is queued or running |
| `FramePool.FinishedInOrder` | src/main.cpp:787-830 | each processor finishes its subframes in the order it was given them, at most one being unfinished |
| `FramePool.StepKeepsClock` | src/main.cpp:736 | tasks are pushed in the order of subframes, at most one for each, across the wrap of the counter |
| `FramePool.StepKeepsTurns` | src/main.cpp:737-829 | the k-th MBSFN subframe of the episode goes to processor k modulo thread_cnt, whether it is handed on or discarded, and exactly the CAS subframes go to the CAS processor |
| `FramePool.EpisodeSkipsNothing` | src/main.cpp:735-737 | an episode goes through every subframe once: as many as it has advanced, each handed on or discarded but for the last; its k-th turn is the k-th subframe that is not for CAS |
| `FramePool.TurnsAreConsecutive` | src/main.cpp:735-829 | consecutive turns are consecutive MBSFN subframes, also across the wrap of the counter |
| `FramePool.StepKeepsInTurn` | src/main.cpp:788-810 | a task pushed for an MBSFN subframe is for the processor whose turn that subframe is |
| `FramePool.WorkersUseUpWork` | include/thread_pool.hpp:113-129 | every worker step uses up a unit of the outstanding work |
| `FramePool.SomeWorkerGoesOn` | include/thread_pool.hpp:113-148 | while a task is queued or a worker busy, some worker can go on |
| `FramePool.MainGetsTheLock` | src/MbsfnFrameProcessor.h:106 | when the workers have come to rest, the lock that main waits for is free |
| `FramePool.EpisodeIsSafe` | src/main.cpp:733-830 | over every interleaving of an episode that starts with all locks free: a processor is locked exactly when main fills it or one task for it is queued or running, tasks start once and in order, processors take turns, and main only ever waits for a task |
| `FramePool.EpisodeKeepsLocks` | src/main.cpp:733-830 | the claims about locks, holders and waiting, over every interleaving |
| `FramePool.EpisodeKeepsOrder` | include/thread_pool.hpp:113-148 | the claims about the order of tasks, over every interleaving |
| `FramePool.EpisodeTakesTurns` | src/main.cpp:734-829 | the claims about stamps and turns, over every interleaving |
| `FramePool.OrphanedExactly` | src/main.cpp:717-719 | resynchronising after an episode leaves a processor locked with no holder if and only if it is the CAS processor and its fetch has failed |
| `FramePool.ResynchronisedExactly` | src/main.cpp:717-719 | the lock protocol holds after resynchronising if and only if no CAS fetch has failed and no MBSFN processor still has a task queued or running |
| `FramePool.CasFetchCanFail` | src/main.cpp:774-785 | a run of three steps that ends in that state |
| `FramePool.OrphanIsNeverLockedAgain` | src/main.cpp:717-719 | after that no interleaving ever lets main have the CAS processor again |
| `MbsfnProcess.MbsfnFrameProcessor.Process` | src/MbsfnFrameProcessor.cpp:84-275 | on every path the lock is released exactly once; the result, the counters, the link-layer deliveries, the pending stops and the issued stops are all determined, and errors never exceed the total |
| `MbsfnProcess.MbsfnFrameProcessor.Receive` | src/MbsfnFrameProcessor.cpp:116-242 | either the transport block is good and the lock still held, or the lock has been released and exactly one error counted |
| `MbsfnProcess.MbsfnFrameProcessor.Deliver` | src/MbsfnFrameProcessor.cpp:201-231 | subheaders are handled in order up to the first bearer that does not exist; every unit before it is delivered in its place with its channel and bearer, and what was scheduled stays scheduled |
| `MbsfnProcess.MbsfnFrameProcessor.Sweep` | src/MbsfnFrameProcessor.cpp:244-268 | the pass over all channels removes and issues exactly the stops that are due |
| `MbsfnProcess.EveryUnitIsDelivered` | src/MbsfnFrameProcessor.cpp:210-229 | every service data unit goes to the link layer once, in its place among them, with the subframe's channel as channel and its own logical channel as bearer; nothing else does |
| `MbsfnProcess.LastAnnouncementCounts` | src/MbsfnFrameProcessor.cpp:202-209 | of several announcements for a logical channel the last counts |
| `MbsfnProcess.OthersKeepTheirStop` | src/MbsfnFrameProcessor.cpp:202-209 | a logical channel that is not announced keeps its stop |
| `MbsfnProcess.VisitsAreCounted` | src/MbsfnFrameProcessor.cpp:132-142 | over any sequence of subframes the total grows by the enabled ones and the errors by those of them that failed |
| `MbsfnProcess.FreshStart` | src/MbsfnFrameProcessor.cpp:116-124 | after a subframe of every fiftieth frame only that one and those behind it count |
| `MbsfnProcess.PresentOnceSeen` | src/MbsfnFrameProcessor.cpp:181-194 | a traffic channel is present once a subframe of it was decoded, the control channel once one was processed without fault, and neither is forgotten |
| `MbsfnProcess.ChannelsAreApart` | src/MbsfnFrameProcessor.cpp:117-142 | the counts of the control channel and of each traffic channel are apart |
| `MbsfnProcess.RemainingWaits` | src/MbsfnFrameProcessor.cpp:256-267 | a stop stays pending if and only if no channel's rank has reached it |
| `MbsfnProcess.StoppedOnce` | src/MbsfnFrameProcessor.cpp:256-267 | a logical channel is stopped exactly once, on the first channel whose rank has reached its stop, and otherwise not at all |
| `MbsfnProcess.CommonPeriodStopsOnFirst` | src/MbsfnFrameProcessor.cpp:244-263 | with a common period every stop that is due is issued once on the first channel, and none on another |
| `MbsfnProcess.AnnouncedIsIssued` | src/MbsfnFrameProcessor.cpp:202-263 | then a stop that a channel has announced is issued on that channel if and only if it is the first |
| `MbsfnProcess.SecondChannelsStop` | src/MbsfnFrameProcessor.cpp:202-263 | with two channels, a stop announced by the second is issued on the first |
| `LogQueue.CircularQ.PushBack` | include/spdlog/details/circular_q.h:49-62 | the item joins the end, and if the queue was full the oldest makes room and is counted; a disabled queue ignores it |
| `LogQueue.WindowAfterPush` | include/spdlog/details/circular_q.h:49-62 | the stored window after a push is the old sequence with the item appended and cut to the capacity |
| `LogQueue.WindowDropsFirst` | include/spdlog/details/circular_q.h:99-102 | moving the head forward drops exactly the oldest item |
| `LogQueue.CircularQ.PopFront` | include/spdlog/details/circular_q.h:99-102 | the oldest item leaves |
| `LogQueue.CircularQ.At` | include/spdlog/details/circular_q.h:91-95 | the item of that age |
| `LogQueue.CircularQ.Full` | include/spdlog/details/circular_q.h:109-117 | true exactly when the queue holds its capacity |
| `LogQueue.CircularQ.Empty` | include/spdlog/details/circular_q.h:104-107 | true exactly when it holds nothing |
| `LogQueue.BlockingQueue.Enqueue` | include/spdlog/details/mpmc_blocking_q.h:32-40 | once there is room, the item joins the end and nothing is overrun |
| `LogQueue.BlockingQueue.EnqueueNowait` | include/spdlog/details/mpmc_blocking_q.h:43-50 | the item joins at once, at the expense of the oldest if there is no room |
| `LogQueue.BlockingQueue.DequeueFor` | include/spdlog/details/mpmc_blocking_q.h:54-67 | the oldest item leaves, or the queue was empty and is unchanged |
| `LogQueue.StepConserves` | include/spdlog/details/mpmc_blocking_q.h:32-67 | every operation keeps items in order and accounted for |
| `LogQueue.OverrunOnlyWhenFull` | include/spdlog/details/circular_q.h:56-60 | an item is overrun exactly by a producer that does not wait for room in a full queue |
| `LogQueue.RunsConserve` | include/spdlog/details/mpmc_blocking_q.h:32-67 | in every reachable state pushed = popped + overrun + size, items leave in the order they came, and without overrunning producers none is lost |
| `LogPool.StepKeeps` | include/spdlog/details/thread_pool-inl.h:88-126 | every step of blocking and overrunning producers, destructor and workers accounts for every message and every terminate |
| `LogPool.NothingBehind` | include/spdlog/details/thread_pool-inl.h:38-53 | once all terminates are taken the queue is empty |
| `LogPool.OverrunOnlyWhenFull` | include/spdlog/details/mpmc_blocking_q.h:43-50 | a message is overrun exactly if the queue is full, and it is the oldest |
| `LogPool.OverrunKeeps` | include/spdlog/details/mpmc_blocking_q.h:43-50 | no terminate is ever overrun |
| `LogPool.DestructionIsClean` | include/spdlog/details/thread_pool-inl.h:38-53 | with blocking and overrunning producers: when the destructor returns, every message enqueued before it was handled once or overrun, each worker took exactly one terminate, and the queue is empty |
| `LogPool.DestructionLosesNothing` | include/spdlog/details/thread_pool-inl.h:38-53 | with blocking producers only, every message enqueued before it was handled exactly once, and they were taken in order |
| `LogPool.ClosingProgresses` | include/spdlog/details/thread_pool-inl.h:88-126 | while closing, every step but an idle time-out brings the end nearer |
| `LogPool.ClosingNeverSticks` | include/spdlog/details/thread_pool-inl.h:38-53 | until every worker has left there is such a step |
| `IpChecksum.SumThenFold` | src/Gw.cpp:52-66 | adding plainly and folding at the end is one's complement addition at every step, for any number of words (section 2 of RFC 1071) |
| `IpChecksum.TwoFoldsSuffice` | src/Gw.cpp:65-66 | two folds equal full end-around carry for every sum below 2^32 |
| `IpChecksum.FoldingChecks` | src/Gw.cpp:65-68 | the folded, inverted and truncated sum is the complement of the one's complement sum of the other nine words |
| `IpChecksum.CorrectChecksum` | src/Gw.cpp:44-73 | the message buffer after the correction, for a UDP packet and for any other |
| `IpChecksum.CorrectedVerifies` | src/Gw.cpp:52-72 | afterwards the ten words add up to 0xFFFF, nothing but the checksum has changed, and a second pass changes nothing (section 3.1 of RFC 791) |
| `IpChecksum.OthersAreNotTouched` | src/Gw.cpp:45 | a header whose protocol is not 17 is left unchanged |
| `IpChecksum.LeftAloneWhen` | src/Gw.cpp:69-72 | a header is left alone if and only if it verifies already, except that a checksum of all ones over words summing to all ones is rewritten to zero |
| `IpChecksum.VerifiesButRewritten` | src/Gw.cpp:69-72 | a header that verifies and is rewritten |
| `IpChecksum.VerifiesWhen` | src/Gw.cpp:52-72 | which checksum words make a header verify: the computed one, and all ones where zero would do |
| `IpChecksum.NeverAllOnes` | src/Gw.cpp:68 | the checksum computed for a UDP header is never all ones |
| `IpChecksum.ByteOrderIndependent` | src/Gw.cpp:52-72 | hosts of either byte order leave the same bytes and accept the same headers (section 2(B) of RFC 1071) |

## Left out

- Dragonbox (`to_decimal`), the cached powers of ten and the decoding of a double: the scaled significand and its error of less than one unit are preconditions of `FormatFloat.Digits`; `format.h` is not part of this model.
- TrailingZeros.RemoveTrailingZeros64: the limit on the number of zeros is the parameter `cap` (16 for double and 7 for float, `format.h:1260` and `format.h:1234`); the range of n is that for which the quotient by 10^8 fits 32 bits, which includes all n below 10^17.
- BigIntegers.Bigint.DivModAssign: the quotient is below 2^31, as its result type demands.
- BigIntegers.Bigint.Square: the code reads the size of a moved-from buffer; it is taken to keep its old value, as the buffer's move leaves it.
- Buffer capacity and allocation of `basic_memory_buffer`: the word sequence grows as needed.
- The `snprintf` path, the value zero, and hexadecimal output of `format_float`.
- SdrReader.ReaderRunsAreSafe: samples per millisecond are an integer, and time-outs are steps without a clock; `clear_buffer` comes from the thread that asks for samples, so not in the middle of a request.
- FramePool.StepKeeps: the main loop and the workers are steps of a state machine, not methods on shared objects, since they interleave; the same holds for the SDR reader's loop, `get_samples` and the logger's workers.
- FramePool.EpisodeIsSafe: one episode; sleeps, retuning, tracking of reception, and what the restart flag's writer does are not modelled.
- FramePool.TaskQueue.NextTask: that `join` returns is not claimed, since the stop flag is set outside the mutex.
- FramePool.ResynchronisedExactly: resynchronisation is one step that unlocks the MBSFN processors; what the synchronisation itself does to the sample stream is not modelled.
- The search, synchronisation and gain control of the main loop, including the frame limit whose counter wraps.
- MbsfnProcess.MbsfnFrameProcessor.Process: the stops are shared by all processors under their own mutex; one processor's view is modelled, without others' sweeps in between. Visualisation data, signal figures and timing are left out.
- The CAS processor's decoding, the MCCH and MTCH tables of the PHY, and the REST handler.
- LogPool.DestructionIsClean: exceptions swallowed by the destructor are not modelled.
- LogPool.ClosingNeverSticks: a queue with a capacity of zero never has room for a terminate and is excluded.
- LogQueue.BlockingQueue.DequeueFor: waiting, waking and time-outs are not modelled; moving an item out of the queue leaves nothing behind.
- IpChecksum.CorrectChecksum: header options are not summed, as in the code, and the buffer holds at least a whole fixed header.
- Thread priorities, the radio device, srsRAN, the TUN device, sinks, formatters and the rest of the logging library.

# Verified models of giraffic

This project models the parts of the repository whose correctness is hardest to see by reading, and proves what they
are for. It consists of four groups of modules.

**Fixed-precision floating-point printing** in the bundled fmt library. `Limbs`, `BigintSteps`, `Convolution`,
`AccumulatorModel` and `BigintModel` are the hand-written big integer: 32-bit bigits, least significant first, times a
power of 2^32; `Bigint.Value` is the number it denotes, and `BigintSizes` how large it gets. `Dragon` is the exact
printer on top of it, `Grisu` the fast printer that may give up, `CachedPowers` the scaling by cached powers of ten
before it, and `FormatFloatModel` the function that tries one and falls back to the other, for every positive double.
`FloatPrecision` says when that is not the precision asked for, and `FloatLayout` how many digits there are.
`Rounding` says what a correctly rounded quotient is (nearest, ties to even, section 4.3.1 of IEEE 754-2008),
`Scaling` writes `f * 2^e / 10^place` as a fraction of naturals, and `Digits` relates character buffers to numbers.

**The prime detector.** `Sieve` is a step system: the loop that reads the sieve and starts jobs, and the jobs that
mark multiples, interleave at every single bit access. `PrimeSearch` is the recursive search as a tree of tasks that
share a counter with the rest of the process. `DetectorModel` holds the same loops as methods over an array.

**The asynchronous log queue.** `CircularQueueModel` is the ring over an array, `BlockingQueueModel` its locked
operations, `WakeUps` its condition variables, and `ThreadPool` the whole protocol as a step system (producers,
workers, the destructor) together with the code each thread runs, which is proved to take these steps.

**Parsers, printers and fast paths.** `FormatString`, `FormatText` and `FormatFields` (format-string scanning, and the
grammar and the meaning of format strings), `DecimalText` and `CountDigitsModel` (decimal output and input),
`Grouping` (digit grouping), `Blocks`, `Utf` and `Utf8Accepted` (UTF-8 and UTF-16), `ModInverse` and `TrailingZeros`
(division by powers of five through inverses), `Rotation` (the rotating file sink) and `Losses` with `LossPercent`
(the packet-loss periods). `Words`, `Wrappers`, `Powers`, `Digits` and `Rounding` are shared.

Code that changes state in place is modelled by classes and methods with loops, each tied to a specification function
or to the property itself; protocols are step systems whose theorems quantify over all runs. Machine integers are
written out where their width matters: bigits and borrows are reduced modulo 2^32 and 2^64, the decimal parser
accumulates modulo 2^32, the inverse multiplications are modulo 2^32 or 2^64, and the UTF code uses bit vectors.

## What the code does that its comments do not say

- `compare` on big integers is exact except for equal numbers written with different exponents; then the one with more
  low bigits counts as larger (`ComparisonIsExact`, and `EqualNumbersCompareUnequal` for an instance).
- `subtract_aligned` does not move on while it propagates the last borrow. Its result is the difference exactly when
  that borrow does not meet a zero bigit; otherwise it is too large by `Excess` (`SubtractAligned`, instance
  `BorrowCanMeetZero`).
- `divmod_assign` is exact unless dividend and divisor are equal and the dividend has the larger exponent; then it
  answers zero (`DivmodAssign`, `MissesEquality`). `fallback_format` never gets there, because a number with a factor
  of two or five too many never equals the other one (`SetUp`).
- `format_float` with precision 0 in a non-fixed format rounds one place too high exactly when the fast printer cannot
  decide the first digit (`RoundsTooHigh`, a condition on significand and exponent); 2.5 comes out as 0. The number
  printed is then still the right one exactly if the value is at least 9.5 of its units (`PrecisionZero`, instance
  `TwoAndAHalf`). With any other precision, or in fixed format, the place is the promised one (`FormatFloat`).
- In fixed format one digit is missing exactly when the exact printer takes over and the value rounds up to a power of
  ten: it then moves the exponent, where the fast printer adds a zero (`FixedDigits`, instance `OneDigitShort`).
- In fixed format, digits beyond the 767th after the point are not produced. Something is cut off exactly from values
  with binary digits beyond the 767th (`RestVanishes`), such as the smallest double (`SmallestDouble`). From a
  precision of 869 on the result is then always wrong (`LongPrecision`), below that exactly if what was cut off is
  more than half a unit of the place asked for (`BeyondTheLimit`). Outside fixed format the limit never matters
  (`SignificantDigits`).
- The exponent that `get_cached_power` promises holds for every double, but not near the lower end of its table: from
  -1268 up to -1222 it holds only for -1248 to -1243 (`GetCachedPower`).
- `compare` and `add_compare` judge by size first, so a zero whose exponent lies above the top of the other number
  counts as the larger one; a zero below that top is no exception (`ComparisonIsExact`, `AddComparisonIsExact`,
  instance `ZeroCanCompareLarger`). `fallback_format` never compares such a zero (`NormalisedFor`).
- The prime search scans with an `int`. For a maximum of 2^31 - 1 or more its counter can overflow, and no search for
  a number that is not a prime below 2^31 ever has an answer; below that it is safe, but for a maximum of 0 or 1,
  where the length of the range wraps and a search that splits it reads beyond the sieve (`UndefinedExactly`,
  `LargePrimesAreNotFound`, instance `NumberBeyondInt`). An answer, where there is one, is right (`SearchIsCorrect`).
- The UTF-8 decoder takes a malformed lead byte for a character of one byte, without an error (`MalformedIsOneByte`,
  instance `StrayTail`); otherwise it accepts exactly UTF-8 (`AcceptedStrings`).
- A decimal field of more than ten digits is refused even if leading zeros make it small (`LeadingZerosCount`).
- A pool whose queue holds no message never finishes its destructor; with room for one it always does
  (`NoCapacityNeverEnds`, `DestructorProgresses`, `DestructionEnds`).
- The percentage of lost packets is cut after a division and a multiplication of doubles: 29 of 100 come out as 28
  (`PercentIsClose`, `TwentyNineOfHundred`).
- A rotation while opening leaves `current_size_` at the size of the file moved away until the next rotation; at all
  other times it is the length of file 0 (field `stale` of `RotatingFileSink`).

## Model

| member | source | states |
|---|---|---|
| `BigintModel.Bigint.SubtractBigits` | contrib/spdlog/include/spdlog/fmt/bundled/format-inl.h:380-384 | one bigit of a subtraction: new bigit minus borrow times 2^32 is the old one minus other minus the old borrow, with the borrow 0 or 1 |
| `BigintModel.Bigint.RemoveLeadingZeros` | contrib/spdlog/include/spdlog/fmt/bundled/format-inl.h:386-390 | drops top zero bigits, keeps at least one, and keeps the number |
| `BigintModel.Bigint.SubtractAligned` | contrib/spdlog/include/spdlog/fmt/bundled/format-inl.h:393-402 | the new value is the difference, plus Excess exactly when the last borrow meets a zero bigit |
| `BigintSteps.BorrowCanMeetZero` | contrib/spdlog/include/spdlog/fmt/bundled/format-inl.h:397-401 | an instance: 2^64 - 1 comes out too large by 2^64 - 2^32 |
| `BigintModel.Bigint.Multiply32` | contrib/spdlog/include/spdlog/fmt/bundled/format-inl.h:404-413 | the value is multiplied exactly by a 32-bit factor; a nonzero top bigit stays nonzero |
| `BigintModel.Bigint.Multiply64` | contrib/spdlog/include/spdlog/fmt/bundled/format-inl.h:415-430 | the value is multiplied exactly by a 64-bit factor although the carry is 64 bits wide |
| `BigintSteps.WideColumn` | contrib/spdlog/include/spdlog/fmt/bundled/format-inl.h:420-425 | no intermediate of a 64-bit column overflows, and low bigit and carry recombine to the exact product |
| `BigintModel.Bigint.ShiftLeft` | contrib/spdlog/include/spdlog/fmt/bundled/format-inl.h:460-473 | the value is multiplied by 2^shift, whole bigits going to the exponent |
| `BigintModel.Bigint.Compare` | contrib/spdlog/include/spdlog/fmt/bundled/format-inl.h:481-495 | answers Comparison for any two operands with any exponents |
| `BigintSteps.ComparisonIsExact` | contrib/spdlog/include/spdlog/fmt/bundled/format-inl.h:481-495 | on normalised operands Comparison is the sign of the difference, with the exponents deciding between equal values, exactly as long as no zero lies above the top of the other number |
| `BigintSteps.EqualNumbersCompareUnequal` | contrib/spdlog/include/spdlog/fmt/bundled/format-inl.h:493-494 | an instance of two equal numbers told apart |
| `BigintModel.Bigint.AddCompare` | contrib/spdlog/include/spdlog/fmt/bundled/format-inl.h:498-519 | answers AddComparison for any three operands with any exponents: the early exits by size, and otherwise the sign of lhs1 + lhs2 - rhs |
| `BigintSteps.AddComparisonIsExact` | contrib/spdlog/include/spdlog/fmt/bundled/format-inl.h:498-503 | on normalised operands that is the sign of lhs1 + lhs2 - rhs exactly if no zero lies above the number it is added to or compared with, or the other summand makes up for it |
| `BigintSteps.ZeroCanCompareLarger` | contrib/spdlog/include/spdlog/fmt/bundled/format-inl.h:483-485 | an instance: a zero written with exponent 5 counts as larger than one |
| `BigintSteps.AheadDecides` | contrib/spdlog/include/spdlog/fmt/bundled/format-inl.h:513-515 | why the top-down scan may stop: a lead of two or a lag at one position cannot be made up below it |
| `BigintModel.Bigint.Square` | contrib/spdlog/include/spdlog/fmt/bundled/format-inl.h:541-568 | the value is squared exactly |
| `Convolution.DiagonalsAreSquare` | contrib/spdlog/include/spdlog/fmt/bundled/format-inl.h:548-565 | the sums of cross products over the anti-diagonals add up to the square of the number |
| `Convolution.AccumulatorBound` | contrib/spdlog/include/spdlog/fmt/bundled/format-inl.h:344-361 | the running sum of cross products and carry fits the 128-bit accumulator |
| `AccumulatorModel.Accumulator.Add` | contrib/spdlog/include/spdlog/fmt/bundled/format-inl.h:351-354 | adds a 64-bit term to the two-word sum, the carry seen by the wrap of the lower word |
| `AccumulatorModel.Accumulator.ShiftRightByBigit` | contrib/spdlog/include/spdlog/fmt/bundled/format-inl.h:355-360 | divides the two-word sum by 2^32 |
| `BigintModel.Bigint.Assign` | contrib/spdlog/include/spdlog/fmt/bundled/format-inl.h:448-456 | denotes the 64-bit number, with a nonzero top bigit unless it is zero |
| `BigintModel.Bigint.AssignPow10` | contrib/spdlog/include/spdlog/fmt/bundled/format-inl.h:522-539 | denotes 10^e; up to 10^358 the buffer never holds more than 28 bigits on the way |
| `BigintModel.Bigint.Align` | contrib/spdlog/include/spdlog/fmt/bundled/format-inl.h:572-581 | lowers the exponent to that of the other number without changing the value |
| `BigintModel.Bigint.DivmodAssign` | contrib/spdlog/include/spdlog/fmt/bundled/format-inl.h:585-596 | quotient and remainder are those of integer division, except in the MissesEquality case, where nothing happens and zero is answered |
| `BigintSteps.NoStuckBorrow` | contrib/spdlog/include/spdlog/fmt/bundled/format-inl.h:591-594 | while the quotient is below 2^32 a borrow never meets a zero bigit, so the subtraction inside the division is exact |
| `Grisu.GetRoundDirection` | contrib/spdlog/include/spdlog/fmt/bundled/format-inl.h:605-619 | down or up exactly when every remainder within the error rounds that way, unknown exactly when half lies strictly inside |
| `Grisu.GrisuGenDigits` | contrib/spdlog/include/spdlog/fmt/bundled/format-inl.h:640-717 | a run that finishes leaves digits within half a unit of the last place of everything within the error, never more than 30 characters; it gives up if and only if the last digit wanted is undecided or its error too large, or the error has reached what is left over at any digit before |
| `Grisu.FailsBeforePoint` | contrib/spdlog/include/spdlog/fmt/bundled/format-inl.h:744-764 | within the integral digits it gives up exactly if the remainder is less than one unit of the error from half |
| `Grisu.FailsBelowPoint` | contrib/spdlog/include/spdlog/fmt/bundled/format-inl.h:744-764 | below the point exactly if the grown error has reached some remainder, or half the unit, or the remainder is less than it from half |
| `Grisu.FractionalDigits` | contrib/spdlog/include/spdlog/fmt/bundled/format-inl.h:708-716 | the fractional loop ends, its products stay below 2^64, and the digits cover the value with its grown error |
| `Grisu.IntegralDigits` | contrib/spdlog/include/spdlog/fmt/bundled/format-inl.h:657-706 | the digits of the integral part, one division per digit, cover the value when the handler stops there |
| `Grisu.FixedHandler.OnStart` | contrib/spdlog/include/spdlog/fmt/bundled/format-inl.h:727-742 | asks for more digits exactly if some are wanted, and gives up exactly if the only one depends on the error; a digit it writes is right for every remainder within the error |
| `Grisu.FixedHandler.OnDigit` | contrib/spdlog/include/spdlog/fmt/bundled/format-inl.h:744-774 | stops with a decision that every remainder within the error supports, with the carry propagated, or gives up |
| `Grisu.PrintedReals` | contrib/spdlog/include/spdlog/fmt/bundled/format-inl.h:605-775 | printed digits are within half a unit of the last place of every real number within the error of the scaled value |
| `Digits.PropagateCarry` | contrib/spdlog/include/spdlog/fmt/bundled/format-inl.h:762-767 | a pending ten moves to the front without changing the number; overflow exactly for all nines |
| `Dragon.SetUp` | contrib/spdlog/include/spdlog/fmt/bundled/format-inl.h:2223-2265 | numerator over denominator is the value at the given place, equality can never be missed by the division, and all four big integers fit their buffers |
| `Dragon.GenerateDigits` | contrib/spdlog/include/spdlog/fmt/bundled/format-inl.h:2305-2330 | the digits are the quotient rounded to nearest, ties to even, at the last of num_digits places; a carry out of the front leaves one and zeros |
| `Dragon.RoundLastDigit` | contrib/spdlog/include/spdlog/fmt/bundled/format-inl.h:2311-2330 | the last digit goes up after a larger remainder, or an equal one and an odd digit, with carries |
| `Dragon.RoundToUnit` | contrib/spdlog/include/spdlog/fmt/bundled/format-inl.h:2299-2304 | with no digits wanted, one or zero as the value rounds to a whole unit of the place above, ties to even |
| `Dragon.FallbackFormat` | contrib/spdlog/include/spdlog/fmt/bundled/format-inl.h:2217-2331 | the characters and the exponent spell the value rounded to nearest, ties to even, at place exp10 - (num_digits - 1), for every significand and exponent; for a double seen from its first digit no big integer ever outgrows its 32 bigits, whatever the number of digits |
| `BigintSizes.DoubleBounds` | contrib/spdlog/include/spdlog/fmt/bundled/format-inl.h:2229-2265 | the place of a double's first digit bounds the powers of ten and of two that are set up |
| `BigintSizes.LargeFits` | contrib/spdlog/include/spdlog/fmt/bundled/format-inl.h:2233-2245 | for integral values numerator and denominator leave room for the whole division |
| `BigintSizes.SmallFits` | contrib/spdlog/include/spdlog/fmt/bundled/format-inl.h:2246-2257 | the same below one |
| `BigintSizes.TenfoldSize` | contrib/spdlog/include/spdlog/fmt/bundled/format-inl.h:585-596 | a number below ten times another has at most one bigit more |
| `FormatFloatModel.FormatFloat` | contrib/spdlog/include/spdlog/fmt/bundled/format-inl.h:2363-2394 | for every positive double and every precision the result is correctly rounded at its last place, ties to even, by whichever printer ran; the place is the promised one, or one higher exactly if RoundsTooHigh; the number of digits and the exponent are given exactly, trailing zeros are kept in fixed format and with showpoint and all removed otherwise; no big integer outgrows its 32 bigits, which the destructor at line 435 asserts |
| `FloatLayout.OneResult` | contrib/spdlog/include/spdlog/fmt/bundled/format-inl.h:2380-2394 | that determines the characters and the exponent |
| `FloatLayout.FixedDigits` | contrib/spdlog/include/spdlog/fmt/bundled/format-inl.h:2376-2383 | in fixed format the digits end at the place asked for if and only if it is not the case that the exact printer takes over and the value rounds up to the next power of ten |
| `FloatLayout.OneDigitShort` | contrib/spdlog/include/spdlog/fmt/bundled/format-inl.h:2318-2333 | an instance: a double just above 9.999999995e-37 with 45 digits after the point gets 44 |
| `FormatFloatModel.FastAgreesWithExact` | contrib/spdlog/include/spdlog/fmt/bundled/format-inl.h:2377-2383 | whenever the fast printer finishes, its digits are those that the exact printer would give, ties included |
| `FormatFloatModel.PrintedIsNearest` | contrib/spdlog/include/spdlog/fmt/bundled/format-inl.h:2369-2383 | digits that cover the scaled value with its error are nearest to the unscaled one, and correctly rounded if the error is below one unit |
| `FormatFloatModel.FirstPlaceIsFirst` | contrib/spdlog/include/spdlog/fmt/bundled/format-inl.h:2371-2380 | seen from the place where the exact printer is started, the value is below ten and not noticeably below one |
| `FormatFloatModel.NoCrossing` | contrib/spdlog/include/spdlog/fmt/bundled/format-inl.h:2371-2380 | a scaling error below one unit never moves the value up across a power of ten |
| `FloatPrecision.PrecisionZero` | contrib/spdlog/include/spdlog/fmt/bundled/format-inl.h:2376-2380 | precision 0 outside fixed format gives the value rounded to one digit if and only if the fast printer decides the first digit or the value is at least 9.5 of its units |
| `FloatPrecision.TwoAndAHalf` | contrib/spdlog/include/spdlog/fmt/bundled/format-inl.h:2376-2380 | an instance: 2.5 with precision 0 comes out as 0, not 2 |
| `FloatPrecision.BeyondTheLimit` | contrib/spdlog/include/spdlog/fmt/bundled/format-inl.h:2374-2375 | in fixed format with a precision beyond 767 the result is still correctly rounded if and only if what was cut off, scaled up, is at most half a unit |
| `FloatPrecision.RestVanishes` | contrib/spdlog/include/spdlog/fmt/bundled/format-inl.h:2374-2375 | nothing is cut off if and only if the exponent is at least -767 or the significand has enough factors of two |
| `FloatPrecision.LongPrecision` | contrib/spdlog/include/spdlog/fmt/bundled/format-inl.h:2374-2375 | from a precision of 869 on that is also exactly when the printed digits are right |
| `FloatPrecision.SmallestDouble` | contrib/spdlog/include/spdlog/fmt/bundled/format-inl.h:2374-2375 | an instance: the smallest double loses digits |
| `FloatPrecision.SignificantDigits` | contrib/spdlog/include/spdlog/fmt/bundled/format-inl.h:2372-2375 | outside fixed format the limit of 767 digits never changes a result |
| `CachedPowers.Normalize` | contrib/spdlog/include/spdlog/fmt/bundled/format-inl.h:236-250 | the shifting loop brings every significand to 64 bits, keeping the value |
| `CachedPowers.RowIsHalfUnit` | contrib/spdlog/include/spdlog/fmt/bundled/format-inl.h:280-325 | each of the 87 cached powers of ten is right to half a unit of its last binary place |
| `CachedPowers.EveryRow` | contrib/spdlog/include/spdlog/fmt/bundled/format-inl.h:280-325 | by induction from the exact row for 10^4 up and down: neighbouring rows agree to a hundred millionths, so every row does with its power of ten |
| `CachedPowers.GetCachedPower` | contrib/spdlog/include/spdlog/fmt/bundled/format-inl.h:276-339 | the power found has its exponent between min_exponent and min_exponent + 28 if and only if min_exponent is at least -1221, or one of six values below |
| `CachedPowers.MultiplyParts` | contrib/spdlog/include/spdlog/fmt/bundled/format-inl.h:264-275 | four 32-bit products give the upper 64 bits of the product, rounded half up, and no sum overflows |
| `CachedPowers.Multiply` | contrib/spdlog/include/spdlog/fmt/bundled/format-inl.h:257-263 | the 128-bit form gives the same |
| `CachedPowers.ScaledIsClose` | contrib/spdlog/include/spdlog/fmt/bundled/format-inl.h:2366-2371 | for every positive double the scaled value is right to less than one unit |
| `CachedPowers.ScaledByValue` | contrib/spdlog/include/spdlog/fmt/bundled/format-inl.h:202-230 | a value scales alike however many trailing zeros its significand has: a float as a float or as a double |
| `CachedPowers.Scaled` | contrib/spdlog/include/spdlog/fmt/bundled/format-inl.h:2366-2371 | its binary exponent lies between -60 and -32, and it has 64 bits with an integral part |
| `Rounding.NearestEvenUnique` | contrib/spdlog/include/spdlog/fmt/bundled/format-inl.h:2311-2313 | correct rounding determines the digits |
| `Sieve.SieveIsCorrect` | src/primes/detector.cpp:16-41 | in every interleaving, once all jobs are joined a bit is set exactly for the primes, and the counter is zero |
| `Sieve.MarkInv` | src/primes/detector.cpp:35-38 | one interleaved write clears only a composite and undoes no other job's work |
| `Sieve.RunsAreBounded` | src/primes/detector.cpp:16-41 | no schedule takes more steps than a bound computed from the maximum |
| `Sieve.SomeStepIsOpen` | src/primes/detector.cpp:16-41 | until build can return, some thread can take a step |
| `PrimeNumbers.SmallPrimeFactor` | src/primes/detector.cpp:20-29 | a composite is struck out by a prime whose square is not above it, so the loop may stop at the square root |
| `PrimeSearch.SearchIsCorrect` | src/primes/detector.cpp:43-81 | for every schedule, maximum and portion and any changes others make to the counter, an answer is the bit of a number in range, and the counter is given back; from a maximum of 2^31 - 1 on the only answer is yes |
| `PrimeSearch.SearchTerminates` | src/primes/detector.cpp:48-81 | the steps of a search are bounded for every maximum and portion, because the counter is at least the nesting depth |
| `PrimeSearch.SomeTaskCanStep` | src/primes/detector.cpp:48-81 | an unfinished search always has a thread that can go on, unless something undefined has happened |
| `PrimeSearch.DetectorIsCorrect` | src/primes/detector.cpp:16-81 | after a finished build an answer says whether the number is a prime not above the maximum |
| `PrimeSearch.LargePrimesAreNotFound` | src/primes/detector.cpp:54-60 | no search for a prime above 2^31 - 1 has an answer |
| `PrimeSearch.UndefinedExactly` | src/primes/detector.cpp:48-81 | no search does what the language leaves undefined if and only if the maximum is from 2 to 2^31 - 2, or it is 0 or 1 and the first call scans |
| `PrimeSearch.NumberBeyondInt` | src/primes/detector.cpp:54-60 | an instance: asked for 2147483659, the counter can overflow and no search has an answer |
| `DetectorModel.Detector.BuildFor` | src/primes/detector.cpp:31-41 | clears exactly the proper multiples of the number and restores the counter |
| `DetectorModel.Detector.Build` | src/primes/detector.cpp:16-29 | run in one thread, leaves exactly the primes set |
| `DetectorModel.Detector.IsPrimeFor` | src/primes/detector.cpp:48-81 | run in one thread, answers whether the number is in range with its bit set, and restores the counter |
| `CircularQueueModel.CircularQueue.constructor` | contrib/spdlog/include/spdlog/details/circular_q.h:27-30 | an empty queue for the given number of items, one more cell than that |
| `CircularQueueModel.CircularQueue.Disabled` | contrib/spdlog/include/spdlog/details/circular_q.h:25 | the default queue holds nothing, as one that was moved from |
| `CircularQueueModel.CircularQueue.PushBack` | contrib/spdlog/include/spdlog/details/circular_q.h:49-62 | appends; in a full queue exactly the oldest item goes and is counted; a disabled queue ignores it |
| `CircularQueueModel.CircularQueue.PopFront` | contrib/spdlog/include/spdlog/details/circular_q.h:99-102 | removes the oldest item and nothing else |
| `CircularQueueModel.CircularQueue.Front` | contrib/spdlog/include/spdlog/details/circular_q.h:66-69 | the oldest item |
| `CircularQueueModel.CircularQueue.At` | contrib/spdlog/include/spdlog/details/circular_q.h:91-95 | item i in arrival order, through the wrap |
| `CircularQueueModel.CircularQueue.Size` | contrib/spdlog/include/spdlog/details/circular_q.h:77-87 | the number of items, through the wrap |
| `CircularQueueModel.CircularQueue.Full` | contrib/spdlog/include/spdlog/details/circular_q.h:109-117 | true exactly when an enabled queue holds as many items as fit |
| `CircularQueueModel.CircularQueue.Empty` | contrib/spdlog/include/spdlog/details/circular_q.h:104-107 | true exactly when there are no items |
| `CircularQueueModel.CircularQueue.MoveFrom` | contrib/spdlog/include/spdlog/details/circular_q.h:126-138 | takes over items, counters and cells and leaves the other queue disabled; moved onto itself, a queue is disabled |
| `CircularQueueModel.CircularQueue.Conservation` | contrib/spdlog/include/spdlog/details/circular_q.h:49-122 | at every moment pushed = popped + overrun + stored, and items left in the order they came |
| `BlockingQueueModel.BlockingQueue.Enqueue` | contrib/spdlog/include/spdlog/details/mpmc_blocking_q.h:32-40 | admitted exactly when there is room, and then nothing is dropped |
| `BlockingQueueModel.BlockingQueue.EnqueueNowait` | contrib/spdlog/include/spdlog/details/mpmc_blocking_q.h:43-50 | always admitted; a full queue loses its oldest item |
| `BlockingQueueModel.BlockingQueue.DequeueFor` | contrib/spdlog/include/spdlog/details/mpmc_blocking_q.h:54-67 | takes the oldest item, or reports false exactly for an empty queue |
| `BlockingQueueModel.BlockingQueue.OverrunCounter` | contrib/spdlog/include/spdlog/details/mpmc_blocking_q.h:107-111 | with what was popped and what is stored it accounts for everything pushed |
| `BlockingQueueModel.BlockingQueue.Size` | contrib/spdlog/include/spdlog/details/mpmc_blocking_q.h:113-117 | the number of stored items, never above the capacity |
| `WakeUps.ItemsFollowQueue` | contrib/spdlog/include/spdlog/details/mpmc_blocking_q.h:32-67 | the counted steps push, pop and wait as the queue does, and owe a notice for every push and pop |
| `WakeUps.NobodySleepsInVain` | contrib/spdlog/include/spdlog/details/mpmc_blocking_q.h:32-67 | no wake-up is lost: once the notices are given and nobody is about to look, consumers sleep only at an empty queue and producers only at a full one |
| `WakeUps.NoticesSuffice` | contrib/spdlog/include/spdlog/details/mpmc_blocking_q.h:32-67 | until then the notices left are as many as the items, or free places, that nobody awake will take |
| `WakeUps.OneNoticeLeft` | contrib/spdlog/include/spdlog/details/mpmc_blocking_q.h:43-50 | an instance in which only the notice of a push can wake the consumer beside an item |
| `ThreadPool.PostedInOrder` | contrib/spdlog/include/spdlog/details/thread_pool-inl.h:76-86 | in every run the messages posted are those of the post steps, in order, and the queue holds the last of them |
| `ThreadPool.OverrunTakesOldest` | contrib/spdlog/include/spdlog/details/mpmc_blocking_q.h:43-50 | a post that does not wait puts its message last; into a full queue it costs the oldest message and no other |
| `ThreadPool.ShutdownIsComplete` | contrib/spdlog/include/spdlog/details/thread_pool-inl.h:38-53 | when the joins are done, in any interleaving: the queue is empty, every message before the first terminate was handled or overrun, and workers and terminates are one to one |
| `ThreadPool.BlockedDestructorHasWorker` | contrib/spdlog/include/spdlog/details/thread_pool-inl.h:42-45 | a destructor blocked on a full queue has a running worker with something to do |
| `ThreadPool.DestructorProgresses` | contrib/spdlog/include/spdlog/details/thread_pool-inl.h:38-53 | with room for a message, destruction never deadlocks |
| `ThreadPool.DestructionEnds` | contrib/spdlog/include/spdlog/details/thread_pool-inl.h:38-53 | only a bounded number of steps other than time-outs remain once destruction began |
| `ThreadPool.NoCapacityNeverEnds` | contrib/spdlog/include/spdlog/details/thread_pool-inl.h:42-45 | with no room for a message the destructor never gets past its first terminate |
| `ThreadPool.BlockingNeverOverruns` | contrib/spdlog/include/spdlog/details/thread_pool-inl.h:76-86 | a run without overrunning posts loses no message |
| `ThreadPool.RunInv` | contrib/spdlog/include/spdlog/details/thread_pool-inl.h:38-126 | the invariant of every run: the queue is the unconsumed end of what was posted, terminates come last, stopped workers and consumed terminates are paired |
| `ThreadPool.Pool.PostMessage` | contrib/spdlog/include/spdlog/details/thread_pool-inl.h:76-86 | the policy decides between waiting for room and dropping the oldest message; on the ring this does what the post step of the protocol does, exactly when that step is enabled |
| `ThreadPool.Pool.NextMessage` | contrib/spdlog/include/spdlog/details/thread_pool-inl.h:98-103 | on the ring this is the step in which a worker takes the oldest message, or its time-out |
| `ThreadPool.Pool.ProcessNextMessage` | contrib/spdlog/include/spdlog/details/thread_pool-inl.h:96-126 | takes the oldest message if any, and says stop exactly for a terminate |
| `FormatString.Handler.ParseShort` | contrib/spdlog/include/spdlog/fmt/bundled/core.h:2389-2408 | the character loop reports exactly the events and the verdict of Scan |
| `FormatString.Handler.ParseLong` | contrib/spdlog/include/spdlog/fmt/bundled/core.h:2409-2431 | the two-pass search reports exactly the same events and verdict for every string |
| `FormatString.Handler.ParseFormatString` | contrib/spdlog/include/spdlog/fmt/bundled/core.h:2382-2432 | the length of the string decides only which of the two loops runs |
| `FormatString.Handler.Write` | contrib/spdlog/include/spdlog/fmt/bundled/core.h:2410-2424 | a stretch without opening braces contributes what the character loop would report for it |
| `FormatString.Handler.ParseReplacementField` | contrib/spdlog/include/spdlog/fmt/bundled/core.h:2342-2380 | the field at a brace, with every error in its order |
| `FormatString.Handler.ParseArgId` | contrib/spdlog/include/spdlog/fmt/bundled/core.h:2164-2200 | an argument by position, number or name |
| `FormatFields.RenderedMeans` | contrib/spdlog/include/spdlog/fmt/bundled/core.h:2164-2432 | a string rendered from characters and fields is scanned to exactly what these mean, errors of the counter, of unknown arguments and of specifiers included |
| `FormatFields.OnlyRenderedIsAccepted` | contrib/spdlog/include/spdlog/fmt/bundled/core.h:2164-2432 | and every string that is accepted is rendered from some |
| `FormatFields.GivenIndex` | contrib/spdlog/include/spdlog/fmt/bundled/core.h:2171-2178 | a field with an index takes the argument of that index, or is refused exactly if there is none |
| `FormatFields.GivenName` | contrib/spdlog/include/spdlog/fmt/bundled/core.h:2185-2190 | a field with a name takes the argument of that name and passes on the text up to its closing brace |
| `FormatFields.SyntaxErrors` | contrib/spdlog/include/spdlog/fmt/bundled/core.h:2164-2408 | what else a field or a closing brace can look like, and the error it is refused with |
| `FormatText.EscapedPrintsItself` | contrib/spdlog/include/spdlog/fmt/bundled/core.h:2393-2405 | text with its braces doubled is accepted and prints as the text, with no field |
| `FormatText.OnlyEscapedPrints` | contrib/spdlog/include/spdlog/fmt/bundled/core.h:2393-2405 | and it is the only accepted string without fields that prints it |
| `FormatText.NeverMixed` | contrib/spdlog/include/spdlog/fmt/bundled/core.h:653-676 | automatic and manual indices never both occur in one string, as long as specifier parsers use the counter through its own operations |
| `FormatText.AutomaticIdsInOrder` | contrib/spdlog/include/spdlog/fmt/bundled/core.h:653-664 | fields without an index get the arguments in order, none left out |
| `CountDigitsModel.CountDigitsFallback` | contrib/spdlog/include/spdlog/fmt/bundled/format.h:899-912 | the loop counts the decimal digits |
| `CountDigitsModel.CountDigits64` | contrib/spdlog/include/spdlog/fmt/bundled/format.h:921-939 | the table of logarithms and powers gives the same count for every 64-bit number |
| `CountDigitsModel.CountDigits32` | contrib/spdlog/include/spdlog/fmt/bundled/format.h:959-988 | the increment table gives the same count for every 32-bit number |
| `DecimalText.CountsAgree` | contrib/spdlog/include/spdlog/fmt/bundled/format.h:899-988 | all ways to count give the length of the numeral |
| `DecimalText.FormatDecimal` | contrib/spdlog/include/spdlog/fmt/bundled/format.h:1050-1078 | writes exactly the numeral, right-aligned in the field, and nothing else |
| `DecimalText.FormatDecimalByOne` | contrib/spdlog/include/spdlog/fmt/bundled/format.h:1055-1062 | the loop for constant evaluation writes the same |
| `DecimalText.ParseNonnegativeInt` | contrib/spdlog/include/spdlog/fmt/bundled/core.h:2096-2116 | the value of the digits, or the error value for more than ten digits or a number above the largest int, despite the unsigned wrap |
| `DecimalText.ParseInvertsFormat` | contrib/spdlog/include/spdlog/fmt/bundled/core.h:2096-2116 | reading a numeral back gives the number exactly when it is an int |
| `DecimalText.LeadingZerosCount` | contrib/spdlog/include/spdlog/fmt/bundled/core.h:2109-2115 | eleven digits are refused even when they spell one |
| `Grouping.GroupedSize` | contrib/spdlog/include/spdlog/fmt/bundled/format.h:1404-1412 | the first pass gives the width of the grouped number for every nonempty grouping |
| `Grouping.Fill` | contrib/spdlog/include/spdlog/fmt/bundled/format.h:1420-1437 | the second pass fills exactly those cells with the grouped digits and its cursor ends on the first one |
| `Grouping.WriteIntLocalized` | contrib/spdlog/include/spdlog/fmt/bundled/format.h:1397-1440 | prefix and digits of the value, with a separator exactly where the digits to its right make up whole groups, in a buffer sized before writing |
| `Grouping.SeparatorsStand` | contrib/spdlog/include/spdlog/fmt/bundled/format.h:1404-1437 | the grouping by which the buffer is sized and filled puts separators at the sums of group sizes, the last one repeating, up to a size that stops it |
| `Grouping.ThreeAndTwos` | contrib/spdlog/include/spdlog/fmt/bundled/format.h:1404-1437 | groups of three and then two: 1234567 is written 12,34,567 |
| `Grouping.SeparatorsOnly` | contrib/spdlog/include/spdlog/fmt/bundled/format.h:1420-1437 | deleting the separators gives the digits back |
| `Grouping.LocalizedReadsBack` | contrib/spdlog/include/spdlog/fmt/bundled/format.h:1397-1440 | and the number, if the separator is no digit |
| `Utf.DecodeInvertsEncode` | contrib/spdlog/include/spdlog/fmt/bundled/format.h:451-481 | the branchless decoder gives the scalar value and no error wherever its encoding stands and whatever follows |
| `Blocks.ForEach` | contrib/spdlog/include/spdlog/fmt/bundled/format.h:484-505 | reading whole blocks in place and the rest in a padded copy sees what reading step by step sees, for every byte string and decoder |
| `Utf.ForEachCodepoint` | contrib/spdlog/include/spdlog/fmt/bundled/format.h:484-505 | the same for the UTF-8 decoder |
| `Utf.VisitsInvertEncoding` | contrib/spdlog/include/spdlog/fmt/bundled/format.h:484-505 | any sequence of scalar values is visited unchanged after encoding (section 3 of RFC 3629) |
| `Utf8Accepted.EncodedBytes` | contrib/spdlog/include/spdlog/fmt/bundled/chrono.h:332-346 | the bytes as numbers: the ranges of lead and tail bytes, and the code point to base 64 (section 3 of RFC 3629) |
| `Utf8Accepted.AcceptedExactly` | contrib/spdlog/include/spdlog/fmt/bundled/format.h:451-481 | without a malformed lead byte there is no error if and only if the bytes are the encoding of the scalar value visited |
| `Utf8Accepted.AcceptedStrings` | contrib/spdlog/include/spdlog/fmt/bundled/format.h:484-505 | the strings read without an error and without a malformed lead are exactly the encodings of scalar values |
| `Utf8Accepted.StrayTail` | contrib/spdlog/include/spdlog/fmt/bundled/format.h:451-481 | an instance: a stray tail byte is taken for a zero |
| `Utf.EncodeUnits` | contrib/spdlog/include/spdlog/fmt/bundled/chrono.h:322-351 | the UTF-8 bytes of the code points read from the units, or an error exactly when they cannot be read |
| `Utf.ReadInvertsUtf16` | contrib/spdlog/include/spdlog/fmt/bundled/chrono.h:322-331 | surrogate pairs are combined to the scalar values they stand for (section 2 of RFC 2781) |
| `Utf.AcceptedIsUtf16` | contrib/spdlog/include/spdlog/fmt/bundled/chrono.h:324-331 | 16-bit units are accepted only when they are the UTF-16 form of some scalar values |
| `Utf.ReadWide` | contrib/spdlog/include/spdlog/fmt/bundled/chrono.h:332-350 | 32-bit units are accepted exactly when all are scalar values |
| `Utf8Accepted.UnitsAreUtf16` | contrib/spdlog/include/spdlog/fmt/bundled/format-inl.h:2531-2537 | the units as numbers: the surrogates hold ten bits each (section 2.1 of RFC 2781) |
| `Utf.Utf8ToUtf16` | contrib/spdlog/include/spdlog/fmt/bundled/format-inl.h:2527-2539 | the units of the visited code points and a closing zero, or an exception at any error |
| `Utf.Utf16RoundTrip` | contrib/spdlog/include/spdlog/fmt/bundled/format-inl.h:2527-2539 | encoding UTF-16 as UTF-8 and converting back is the identity |
| `ModInverse.InverseDecides` | contrib/spdlog/include/spdlog/fmt/bundled/format-inl.h:953-992 | for every divisor with an inverse modulo m: the product is at most the largest quotient exactly for multiples, and then it is the quotient |
| `ModInverse.DivisibleByPowerOf5In32` | contrib/spdlog/include/spdlog/fmt/bundled/format-inl.h:953-963 | true exactly when 5^e divides the 32-bit number |
| `ModInverse.DivisibleByPowerOf5In64` | contrib/spdlog/include/spdlog/fmt/bundled/format-inl.h:964-992 | true exactly when 5^e divides the 64-bit number |
| `ModInverse.Rows64` | contrib/spdlog/include/spdlog/fmt/bundled/format-inl.h:966-990 | every row of the table is an inverse and the largest quotient |
| `TrailingZeros.RemoveTrailingZeros32` | contrib/spdlog/include/spdlog/fmt/bundled/format-inl.h:1919-1943 | n = r * 10^s with s at most 7, and no further zero could be removed |
| `TrailingZeros.RemoveTrailingZeros64` | contrib/spdlog/include/spdlog/fmt/bundled/format-inl.h:1946-2029 | n = r * 10^s with s at most 16, and no further zero could be removed, by either path |
| `TrailingZeros.RemovedUnique` | contrib/spdlog/include/spdlog/fmt/bundled/format-inl.h:1919-2029 | that determines r and s |
| `Rotation.RotatingFileSink.SinkIt` | contrib/spdlog/include/spdlog/sinks/rotating_file_sink-inl.h:64-75 | appends, or starts a fresh file when the message does not fit; the files stay a suffix of all that was logged since the last rotation that failed, and within the limit since opening |
| `Rotation.RotatingFileSink.Rotate` | contrib/spdlog/include/spdlog/sinks/rotating_file_sink-inl.h:89-118 | moves every file up by one and leaves file 0 empty; a rename that fails leaves exactly the files that Failed says, an empty file 0, and the invariant |
| `Rotation.RotatingFileSink.constructor` | contrib/spdlog/include/spdlog/sinks/rotating_file_sink-inl.h:27-39 | continues file 0, or rotates it away on request |
| `Rotation.ShiftedText` | contrib/spdlog/include/spdlog/sinks/rotating_file_sink-inl.h:94-117 | a rotation loses at most the file with the highest index |
| `Rotation.ShiftedExactly` | contrib/spdlog/include/spdlog/sinks/rotating_file_sink-inl.h:94-117 | where every file is when the renames down to some index are done |
| `Rotation.ShiftedMoves` | contrib/spdlog/include/spdlog/sinks/rotating_file_sink-inl.h:94-117 | every other file keeps its contents under the next index |
| `Rotation.RotatedText` | contrib/spdlog/include/spdlog/sinks/rotating_file_sink-inl.h:89-118 | what is kept is a suffix of what there was |
| `Rotation.RotatedKept` | contrib/spdlog/include/spdlog/sinks/rotating_file_sink-inl.h:89-118 | kept files are within the limit, hold one message, or were found like that |
| `Rotation.FailedMoves` | contrib/spdlog/include/spdlog/sinks/rotating_file_sink-inl.h:94-114 | after a rename that fails every file but file 0 and the highest one still has its text, under its own or the next index |
| `Rotation.FailedText` | contrib/spdlog/include/spdlog/sinks/rotating_file_sink-inl.h:94-114 | what is kept then, followed by what was cut from file 0, is all the text but perhaps that of the highest file |
| `Rotation.FailedKept` | contrib/spdlog/include/spdlog/sinks/rotating_file_sink-inl.h:94-114 | the invariant goes on from there |
| `Losses.Period.AddPacket` | src/losses/detector.cpp:40-44 | records a packet exactly if it fits; after the first query the answer no longer changes |
| `Losses.Period.GetLoss` | src/losses/detector.cpp:16-24 | the number of expected serial numbers not received before the first query, frozen afterwards |
| `Losses.Period.CalcLoss` | src/losses/detector.cpp:31-38 | sorting and intersecting counts the missing serial numbers, repetitions and padding notwithstanding |
| `Losses.ExpectedOnce` | src/losses/detector.cpp:8 | every serial number is expected in one period |
| `Losses.Intersect` | src/losses/detector.cpp:35 | the common elements of two sorted sequences |
| `Losses.Detector.OnPacketReceived` | src/losses/detector.cpp:52-76 | the packet goes to the current period, or the next one after the evaluation time, exactly if it fits; period keys stay contiguous from zero, or from one without an evaluation time |
| `Losses.Seconds` | src/losses/detector.cpp:61 | whole seconds, counted towards zero |
| `Losses.Detector.Accumulate` | src/losses/detector.cpp:97-111 | total and loss are the sums over the last periods, each of which has answered for good with the packets it missed; no other period is asked |
| `Losses.Detector.CalcLoss` | src/losses/detector.cpp:97-114 | the losses of the last periods over their total, and no percentage of nothing |
| `LossPercent.PercentIsClose` | src/losses/detector.cpp:113 | computed with doubles, the percentage is the integral part of the quotient, except that an integer may come out one too low |
| `LossPercent.TwentyNineOfHundred` | src/losses/detector.cpp:113 | an instance: 29 of 100 come out as 28 |
| `Losses.Detector.GetCurrentLoss` | src/losses/detector.cpp:78-88 | the percentage lost in the last periods, as many as configured, and in no others; 0 before there are so many, which is always for a negative number, and none for a number of zero |
| `Losses.Detector.GetAverageLoss` | src/losses/detector.cpp:90-95 | the percentage lost in all periods, and none before the first packet |

## Left out

- DetectorModel.Detector.IsPrimeFor: the two halves run one after the other, for a maximum below 2^31 - 1; all other
  schedules and maxima are those of `PrimeSearch`.
- DetectorModel.Detector.Build: each job runs where it is started; all other schedules are those of `Sieve`.
- BlockingQueueModel.BlockingQueue.Enqueue: one attempt of a blocked producer; waiting is the subject of `WakeUps`,
  and a step that is not enabled in `ThreadPool`.
- Losses.Period.AddPacket: says that a packet for a full period is not recorded; the source writes past its vector.
- Losses.Detector.OnPacketReceived: the same, for the period that the packet goes to.
- TrailingZeros.RemoveTrailingZeros64: the unrolled last seven divisions are written as a loop.
- `format_float` for zero, for negative precision (the shortest form, printed by Dragonbox) and through snprintf.
- The shortest branch of `fallback_format`, which `format_float` returns before reaching.
- The decoding of an IEEE 754 bit pattern; a double is its significand and exponent (`IsDouble`).
- The specifier language inside a replacement field: its parser is an arbitrary function that may use the argument
  counter.
- Formatting of the arguments themselves, locale facets and padding to a width.
- The shortcut for the format string consisting of one empty field, which does what the scan does.
- Overflow of counters that would take more than 2^31 fields, 2^64 overruns or a sieve near 2^64 to reach, and of
  32-bit serial numbers and totals of packets.
- Copying a circular queue, and the C++ memory model: every bit access and every locked region is one step.
- A rename that fails while a rotating file is opened: the constructor throws, and there is no sink.
- The file system beyond contents per rotation index, and the derivation of file names.
- Dragonbox, the HTTP server, the dispatcher, UDP, Poco, flatbuffers, configuration, the main programs, and the
  remaining spdlog sinks, registry and pattern flags: plumbing with many easy cases.

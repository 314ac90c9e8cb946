# Verified models of double-conversion and of folly's concurrent containers

The app ships native libraries under `ios/Pods`. Four of them hold its difficult code, and this project
models those and proves what they are for.

1. **double-conversion** turns IEEE 754 doubles into decimal digits and text, and text into doubles.
   The model covers the fixed-capacity bignum (a class over an array of 28-bit bigits), exact digit
   generation on it, the fast paths (Grisu3 with shortest and with counted digits, the fixed-point
   path, the 64-bit approximation of `Strtod`), the table of cached powers of ten, the estimate of the
   power of ten, the decimal scanner and the two text formats. A double is its 64-bit word; its value
   is an integer number of units of 2^-1075. `uint32` and `uint64` are bounded integers, so that no
   intermediate result wraps unless the model writes the reduction out.
2. **folly's `CancellationState`**: one atomic word (cancelled bit, lock bit, two reference counts), a
   list of callbacks and the handshake of a destructor with the signalling thread.
3. **folly's lock-free tables**, `AtomicUnorderedInsertMap` and `AtomicHashArray`.
4. **folly's `ConcurrentSkipList`**, run by one thread: a class over a heap of node towers.

The second and third are transition systems: any number of threads and calls, one step for each atomic
operation, any interleaving. Their theorems speak of every state of every run. A run is a sequence of
states and a sequence of enabled steps that lead from each state to the next, from the initial state.

How the results fit together: `BignumDtoaShortest` and `Grisu3` both produce digits that meet
`ShortestFor`, whose digits are unique; `FastFixedDtoa` and the bignum path both meet `FixedFor`, and
`Grisu3Counted` and the bignum path both meet `PrecisionFor`, again unique. So it does not matter which
path answers. `ReadDouble` rounds every decimal correctly, and `PrintAndParse` ties the two directions
together over text, of which `ShortestText` leaves one for each double and converter.

The concurrent parts have theorems of two kinds: what no run ever reaches, and what calls achieve. The
second kind says when a call ends, what its result means for the run, and that it succeeds where it should.

## Model

| member | source | states |
|---|---|---|
| RoundTrips.PrintAndParse | ios/Pods/DoubleConversion/double-conversion/double-conversion.cc:161-196 | With the program's own table and estimate: the text is the one shortest text of the double in the converter's format, and reading it gives the same word; only a negative zero may lose its sign, exactly when the converter prints one zero. |
| DoubleToStrings.TextRoundTrip | ios/Pods/DoubleConversion/double-conversion/double-conversion.cc:739-908 | The same for any table and estimate that keep their contracts: the scanner consumes what the printer wrote, the word comes back, and it is the double nearest to the number the text stands for. |
| DoubleToStrings.ToShortestIeeeNumber | ios/Pods/DoubleConversion/double-conversion/double-conversion.cc:161-196 | The shortest digits are printed in decimal form exactly if the converter's bounds hold the exponent, otherwise in exponential form; a minus stands before negative numbers, and before a negative zero unless zeros are printed alike. |
| DoubleToStrings.ShortestTextUnique | ios/Pods/DoubleConversion/double-conversion/double-conversion.cc:161-196 | These conditions leave one text only, for every double and every converter. |
| DoubleConversion.PrintAndRead | ios/Pods/DoubleConversion/double-conversion/double-conversion.cc:355-414 | The digits of any finite double read back as the same word, ties on both boundaries and the closer lower boundary of powers of two included. |
| DoubleConversion.DoubleToAscii | ios/Pods/DoubleConversion/double-conversion/double-conversion.cc:355-416 | Whichever path answers, the digits are the shortest that round to the double and, of those, the nearest. |
| DoubleConversion.PrintedUnique | ios/Pods/DoubleConversion/double-conversion/double-conversion.cc:396-414 | There is only one right answer in shortest mode, so the fast and the exact path agree. |
| DtoaModes.DoubleToAsciiFixed | ios/Pods/DoubleConversion/double-conversion/double-conversion.cc:355-416 | In fixed mode the digits denote the double rounded half up to the requested places, from either path; they do not begin with a zero, no digits go with the point -places, and a zero is the digit 0 with point 1. |
| DtoaModes.DoubleToAsciiPrecision | ios/Pods/DoubleConversion/double-conversion/double-conversion.cc:355-416 | In precision mode the digits are the double rounded half up to the requested number of digits, from either path, for every double and every number of digits. |
| DtoaModes.PrecisionAgree | ios/Pods/DoubleConversion/double-conversion/bignum-dtoa.cc:283-323 | Correctly rounded counted digits of a double and their decimal point are unique. |
| Grisu.Grisu3 | ios/Pods/DoubleConversion/double-conversion/fast-dtoa.cc:519-588 | When it succeeds the digits round to the double, no shorter ones do, and none of their length is nearer. |
| FastDtoa.DigitGen | ios/Pods/DoubleConversion/double-conversion/fast-dtoa.cc:300-396 | Terminates without wrapping; succeeds if and only if some candidate surely lies inside the unsafe interval and is closest to w, and then the digits are that candidate; no multiple of a higher power of ten lies in the interval. |
| FastDtoa.RoundWeed | ios/Pods/DoubleConversion/double-conversion/fast-dtoa.cc:61-166 | Decrements the last digit towards w without borrowing and succeeds if and only if some digits are right for every number within the error; the buffer then holds these. |
| FastDtoa.BiggestPowerTen | ios/Pods/DoubleConversion/double-conversion/fast-dtoa.cc:240-256 | The power of ten found is the largest one not above the number. |
| Grisu.CertainIsBest | ios/Pods/DoubleConversion/double-conversion/fast-dtoa.cc:61-166 | What is certain of the three approximations holds of the exact boundaries and the exact value: inside, shortest and strictly nearest. |
| CountedGrisu.Grisu3Counted | ios/Pods/DoubleConversion/double-conversion/fast-dtoa.cc:591-632 | When it succeeds the digits are exactly those of the exact conversion, up to 19 of them, also for doubles just below a power of ten. |
| CountedGrisu.DigitGenCounted | ios/Pods/DoubleConversion/double-conversion/fast-dtoa.cc:428-505 | On success there are as many digits as requested and rounding them was sure in spite of the error. |
| CountedGrisu.RoundWeedCounted | ios/Pods/DoubleConversion/double-conversion/fast-dtoa.cc:181-223 | Succeeds if and only if the rounding is sure, and then rounds to nearest, a carry out of the first digit raising the exponent. |
| PowerGaps.NoneJustBelowTen | ios/Pods/DoubleConversion/double-conversion/fast-dtoa.cc:428-505 | No double lies less than one part in 2^62 below any power of ten; so the approximation of counted mode never falls into a higher decade than its double. |
| CachedPowers.TableServes | ios/Pods/DoubleConversion/double-conversion/cached-powers.cc:44-174 | The table's 87 entries are within half a unit of their powers of ten, and the index computed for any window the conversions ask for finds an entry inside it, whatever the floating-point error below 10^-9. |
| Estimates.EstimateHolds | ios/Pods/DoubleConversion/double-conversion/bignum-dtoa.cc:385-413 | The estimated power of ten is never too high and at most one too low, for every double and any floating-point error the code allows for. |
| Estimates.NormalizedExponent | ios/Pods/DoubleConversion/double-conversion/bignum-dtoa.cc:37-44 | The exponent the significand has after shifting its top bit to the hidden bit's place. |
| ShortestDigits.RoundUp | ios/Pods/DoubleConversion/double-conversion/bignum-dtoa.cc:226-272 | Rounding up keeps the last digit below ten, because a shorter number would have been in the interval otherwise, and gives the best digits of this length. |
| BignumDtoa.GenerateShortestDigits | ios/Pods/DoubleConversion/double-conversion/bignum-dtoa.cc:185-274 | Terminates, with the two deltas the same object or not; the digits lie in the interval, closed exactly for even significands, no shorter ones do, and they are the closest, ties going to the even digit. |
| BignumDtoa.GenerateCountedDigits | ios/Pods/DoubleConversion/double-conversion/bignum-dtoa.cc:283-323 | The digits are the fraction rounded half up, a carry out of the first digit moving the decimal point. |
| BignumDtoa.BignumToFixed | ios/Pods/DoubleConversion/double-conversion/bignum-dtoa.cc:326-367 | The digits denote the fraction rounded half up at the requested place, also when that place is above the first digit; they do not begin with a zero, and the point is right when there are none. |
| DoubleDtoa.BignumDtoaShortest | ios/Pods/DoubleConversion/double-conversion/bignum-dtoa.cc:89-178 | For every positive finite double, at most 17 digits: the shortest that round to it, and the nearest of those. |
| DoubleDtoa.InitialScaledStartValues | ios/Pods/DoubleConversion/double-conversion/bignum-dtoa.cc:568-609 | Numerator, denominator and both deltas hold the double and its boundaries exactly, divided by the estimated power of ten, and far below the capacity. |
| DoubleDtoa.FixupMultiply10 | ios/Pods/DoubleConversion/double-conversion/bignum-dtoa.cc:612-639 | Corrects an estimate one too low: all values are multiplied by ten exactly when the upper boundary is below the denominator. |
| FixedExact.BignumDtoaFixed | ios/Pods/DoubleConversion/double-conversion/bignum-dtoa.cc:89-178 | Fixed mode of the exact path, shortcut for tiny values included, rounds the double half up to the requested places, with no leading zero and the point -places when nothing is left. |
| FixedExact.BignumDtoaPrecision | ios/Pods/DoubleConversion/double-conversion/bignum-dtoa.cc:89-178 | Precision mode of the exact path rounds the double half up to the requested digits. |
| FixedExact.FixedAgree | ios/Pods/DoubleConversion/double-conversion/fixed-dtoa.cc:309-402 | Two digit strings that are both right in fixed mode have the same point and the same digits, up to zeros at the end. |
| FixedDtoa.FastFixedDtoa | ios/Pods/DoubleConversion/double-conversion/fixed-dtoa.cc:309-402 | Answers exactly for exponents up to 20 and up to 20 places, without overflow of any 64-bit or 128-bit number, with the double rounded half up, no zeros at either end, and the point -places when nothing is left. |
| FixedDtoa.FillFractionals64 | ios/Pods/DoubleConversion/double-conversion/fixed-dtoa.cc:230-264 | Emits the fraction's digits and rounds half up at the requested place; the shift by point - 1 gets the amount -1 exactly for fractions whose last bit is set and has its place among the requested ones, and nothing remains then. |
| FixedDtoa.NoBitLeft | ios/Pods/DoubleConversion/double-conversion/fixed-dtoa.cc:262 | Such a double: 2^51 + 1/2 has the exponent -1 and an odd significand. |
| FixedDtoa.FillFractionals128 | ios/Pods/DoubleConversion/double-conversion/fixed-dtoa.cc:265-287 | The same for fractions that need 128 bits. |
| FixedDtoa.RoundUp | ios/Pods/DoubleConversion/double-conversion/fixed-dtoa.cc:189-219 | Adds one to the digits, carrying through nines, and moves the point if the carry leaves the buffer. |
| FixedDtoa.TrimZeros | ios/Pods/DoubleConversion/double-conversion/fixed-dtoa.cc:291-306 | Removes zeros at both ends and leaves the number unchanged. |
| FixedDtoa.FillDigits64 | ios/Pods/DoubleConversion/double-conversion/fixed-dtoa.cc:168-186 | Appends the decimal digits of the number to the buffer and keeps what is there. |
| UInt128s.UInt128.Multiply | ios/Pods/DoubleConversion/double-conversion/fixed-dtoa.cc:42-57 | Multiplies the 128-bit value exactly. |
| UInt128s.UInt128.Shift | ios/Pods/DoubleConversion/double-conversion/fixed-dtoa.cc:59-78 | Divides or multiplies by the power of two, modulo 2^128, for all amounts from -64 to 64. |
| UInt128s.UInt128.DivModPowerOf2 | ios/Pods/DoubleConversion/double-conversion/fixed-dtoa.cc:82-95 | Quotient and remainder by a power of two across both words. |
| DiyFpStrtods.ReadDouble | ios/Pods/DoubleConversion/double-conversion/strtod.cc:448-472 | Every digit string with any exponent is read as the nearest double, ties to even, overflow and underflow included. |
| DiyFpStrtods.DiyFpStrtod | ios/Pods/DoubleConversion/double-conversion/strtod.cc:274-381 | If it says so, the result is the nearest double; otherwise it is that or the one just below: also around the smallest denormals. |
| DiyFpStrtods.ComputeGuess | ios/Pods/DoubleConversion/double-conversion/strtod.cc:423-446 | The same for the whole guess, the shortcuts for huge and tiny decimals included. |
| DiyFpStrtods.ReadDiyFp | ios/Pods/DoubleConversion/double-conversion/strtod.cc:176-194 | The leading digits approximate the decimal to within half a unit, or exactly if all were read. |
| DiyFpStrtods.DiyFpToUint64 | ios/Pods/DoubleConversion/double-conversion/ieee.h:233-263 | Encoding inverts decoding for all finite doubles, and significands below the denormal exponent become 0. |
| ErrorTracking.NearTimesCached | ios/Pods/DoubleConversion/double-conversion/strtod.cc:322-340 | Multiplying by a cached power adds less than a unit to the error, the product of both errors included. |
| HalfDenormal.DigitsRead | ios/Pods/DoubleConversion/double-conversion/strtod.cc:274-381 | A decimal closer above 2^-1075 than the error bound can tell has known leading digits. |
| HalfDenormal.ExactlyHalf | ios/Pods/DoubleConversion/double-conversion/strtod.cc:300-340 | With those digits the approximation is not below 2^-1075, so that such a decimal is not flushed to zero. |
| Strtod.TrimAndCut | ios/Pods/DoubleConversion/double-conversion/strtod.cc:133-150 | Trimming and cutting to 780 digits leaves every decimal, however long, rounding to the same double. |
| Strtod.CutRounds | ios/Pods/DoubleConversion/double-conversion/strtod.cc:111-130 | Replacing the digits after the 779th of a longer string by a 1 keeps the double it rounds to, since no boundary between doubles has more than 771 significant digits. |
| Strtod.CompareBufferWithDiyFp | ios/Pods/DoubleConversion/double-conversion/strtod.cc:392-418 | The sign of the exact difference of the decimal and the boundary, for all exponents, within the bignum's capacity. |
| Strtod.BoundaryDecides | ios/Pods/DoubleConversion/double-conversion/strtod.cc:448-472 | If the guess is right or one too low, comparing with its upper boundary gives the nearest double, ties to even. |
| Strtod.TooLarge | ios/Pods/DoubleConversion/double-conversion/strtod.cc:430-433 | Decimals beyond the shortcut's limit do round to infinity. |
| Strtod.TooSmall | ios/Pods/DoubleConversion/double-conversion/strtod.cc:434-437 | Decimals below the shortcut's limit do round to zero. |
| Ieee.RoundsToUnique | ios/Pods/DoubleConversion/double-conversion/ieee.h:162-198 | The rounding intervals do not overlap: a number rounds to one double only. |
| Ieee.Adjacent | ios/Pods/DoubleConversion/double-conversion/ieee.h:88-100 | Neighbouring doubles share their boundary, at powers of two as well. |
| Grisu.NormalizedBoundaries | ios/Pods/DoubleConversion/double-conversion/ieee.h:171-185 | Both boundaries with one exponent, the lower one closer at powers of two. |
| DiyFps.DiyFp.Multiply | ios/Pods/DoubleConversion/double-conversion/diy-fp.cc:34-55 | Exactly the 128-bit product rounded half up, although no intermediate result has more than 64 bits. |
| DiyFps.DiyFp.Normalize | ios/Pods/DoubleConversion/double-conversion/diy-fp.h:77-95 | The same value with the top bit set. |
| Bignums.Bignum.Square | ios/Pods/DoubleConversion/double-conversion/bignum.cc:340-409 | Squares the value while overwriting the copy it reads from; the accumulator never overflows and ends at 0. |
| Bignums.Bignum.AssignPowerUInt16 | ios/Pods/DoubleConversion/double-conversion/bignum.cc:412-482 | Exactly the power, delayed multiplication included, under the one capacity check the code makes. |
| Bignums.Bignum.DivideModuloIntBignum | ios/Pods/DoubleConversion/double-conversion/bignum.cc:486-549 | Quotient and remainder for quotients below 2^16, any two exponents; and for every such division whether the debug assertions on the first digit and on the equal length hold, by an exact condition on the two numbers. |
| BignumArithmetic.LeadingSmall | ios/Pods/DoubleConversion/double-conversion/bignum.cc:507 | The assertion that the divisor begins with a large digit fails for 2^28 divided by 2^13, within the stated precondition. |
| BignumArithmetic.LengthLost | ios/Pods/DoubleConversion/double-conversion/bignum.cc:515 | The assertion of equal length fails for 2^56 divided by 2^56 - 1, within the stated precondition. |
| BignumArithmetic.FinalLength | ios/Pods/DoubleConversion/double-conversion/bignum.cc:499-515 | Removing the leading digits loses a digit exactly if the dividend is longer than the divisor o and the remainder lies between B^n - o and B^(n - 1), n being the length of o and B the base. |
| BignumDtoa.GenerateDigit | ios/Pods/DoubleConversion/double-conversion/bignum-dtoa.cc:195-197 | One decimal digit of the fraction and the exact remainder; the first assertion of the division holds always, the second for every denominator whose first 28 bits are not all set. |
| DivisionChecks.DenominatorsNotFull | ios/Pods/DoubleConversion/double-conversion/bignum-dtoa.cc:568-609 | No denominator of the digit generation, in any mode and for any double, has its first 28 bits all set; so both assertions hold for all its divisions. |
| Bignums.Bignum.SubtractTimes | ios/Pods/DoubleConversion/double-conversion/bignum.cc:738-763 | Subtracts the multiple exactly; returning as soon as the borrow is gone leaves a clamped number. |
| Bignums.Bignum.PlusCompare | ios/Pods/DoubleConversion/double-conversion/bignum.cc:636-670 | The sign of a + b - c for any exponents; the shortcuts on lengths are sound. |
| Bignums.Bignum.Compare | ios/Pods/DoubleConversion/double-conversion/bignum.cc:618-633 | The sign of the difference of the values. |
| Bignums.Bignum.MultiplyByUInt64 | ios/Pods/DoubleConversion/double-conversion/bignum.cc:273-297 | Multiplies the value exactly; the carry always fits 64 bits. |
| Bignums.Bignum.MultiplyByPowerOfTen | ios/Pods/DoubleConversion/double-conversion/bignum.cc:300-337 | Multiplies the value by the power of ten. |
| Bignums.Bignum.AssignDecimalString | ios/Pods/DoubleConversion/double-conversion/bignum.cc:102-120 | The value of the digit string. |
| Bignums.Bignum.Align | ios/Pods/DoubleConversion/double-conversion/bignum.cc:698-719 | Lowers the exponent to the other's and keeps value and length. |
| Bignums.Bignum.AddBignum | ios/Pods/DoubleConversion/double-conversion/bignum.cc:169-208 | Adds the values across different exponents, cells above the used ones staying zero. |
| Bignums.Bignum.SubtractBignum | ios/Pods/DoubleConversion/double-conversion/bignum.cc:211-235 | Subtracts the values and clamps. |
| NumberTexts.ParseOfText | ios/Pods/DoubleConversion/double-conversion/double-conversion.cc:739-908 | Parsing the text of a well-formed number gives that number: sign, both digit strings and exponent. |
| NumberTexts.TextOfParse | ios/Pods/DoubleConversion/double-conversion/double-conversion.cc:739-908 | What parses is the text of the number it parses to, character for character. |
| StringToDoubles.StringToDouble | ios/Pods/DoubleConversion/double-conversion/double-conversion.cc:597-908 | Any text is junk if and only if it is not a decimal number, and otherwise read as the double nearest to it, with its sign, digits beyond the 772nd and saturated exponents included. |
| StringToDoubles.ScanDecimal | ios/Pods/DoubleConversion/double-conversion/double-conversion.cc:597-908 | Any text is scanned to its end or junk; a number is handed to Strtod as its first 772 significant digits, with a 1 for others that are not all zero, and the exponent that goes with them. |
| StringToDoubles.HandedExactly | ios/Pods/DoubleConversion/double-conversion/double-conversion.cc:895-906 | A number of at most 772 significant digits is handed over unchanged: as these digits, zeros, and an exponent that makes it the same number. |
| StringToDoubles.KeptRounds | ios/Pods/DoubleConversion/double-conversion/double-conversion.cc:895-906 | A 1 in place of dropped non-zero digits keeps the rounding. |
| StringToDoubles.ScanMantissa | ios/Pods/DoubleConversion/double-conversion/double-conversion.cc:739-826 | The scanner keeps the leading significant digits and counts the others, leading zeros and zeros after the point included. |
| DoubleToStrings.CreateDecimalRepresentation | ios/Pods/DoubleConversion/double-conversion/double-conversion.cc:113-158 | The integer part is the digits before the point, padded with zeros, or one zero; the places are as many as requested and go on with the digits; without places the point and a zero follow exactly by the two flags. |
| DoubleToStrings.CreateExponentialRepresentation | ios/Pods/DoubleConversion/double-conversion/double-conversion.cc:75-110 | One digit, a point exactly if there are more, these; then the converter's letter, the sign by the exponent and the flag, and the exponent without leading zeros. |
| DoubleToStrings.DecimalScans | ios/Pods/DoubleConversion/double-conversion/double-conversion.cc:113-158 | Any 1 to 772 digits printed in decimal form are scanned to the end of the text, and Strtod gets these digits and the same number. |
| DoubleToStrings.ExponentialScans | ios/Pods/DoubleConversion/double-conversion/double-conversion.cc:75-110 | The same in exponential form, for all exponents of up to four digits. |
| CancellationSafety.AtMostOnce | ios/Pods/Flipper-Folly/folly/CancellationToken.cpp:119-177 | In every interleaving each callback's function starts at most once. |
| CancellationSafety.AllCallbacksHaveRun | ios/Pods/Flipper-Folly/folly/CancellationToken.cpp:119-177 | When the first requestCancellation has returned, every callback has run, or was taken off the list by its destructor, or is still in its constructor, which will run it. |
| CancellationSafety.NeverRunAfterDestruction | ios/Pods/Flipper-Folly/folly/CancellationToken.cpp:75-117 | In no state after a callback's destructor has returned is it run again, nor is it running unless it destroyed itself. |
| CancellationSafety.InsideOnlyOnSignaller | ios/Pods/Flipper-Folly/folly/CancellationToken.cpp:98-107 | A destructor marks its callback as destroyed while it is running only on the signalling thread, and the call that runs the callback is below the destructor on that thread's stack. |
| CancellationSafety.NoAccessAfterDestruction | ios/Pods/Flipper-Folly/folly/CancellationToken.cpp:129-175 | No step of any thread reads or writes a callback whose destructor has returned. |
| CancellationSafety.OnlyAccessed | ios/Pods/Flipper-Folly/folly/CancellationToken.cpp:38-177 | The table of accessed callbacks is complete: whatever the fields of any other callback hold, a step is enabled as well, does the same and leaves them alone. |
| CancellationSafety.MutualExclusion | ios/Pods/Flipper-Folly/folly/CancellationToken.cpp:179-247 | At most one call holds the lock, it is executing, and the lock bit is set. |
| CancellationSafety.ReferenceCounts | ios/Pods/Flipper-Folly/folly/CancellationToken-inl.h:284-315 | The token field counts live tokens and registered callbacks, the source field live sources; the state has been deleted once if there are none, and not otherwise. |
| CancellationSafety.DeletedIsIdle | ios/Pods/Flipper-Folly/folly/CancellationToken.cpp:203-209 | When the state is deleted nothing holds the lock, nothing is on the list and no call is in progress. |
| CancellationSafety.NoUseAfterDelete | ios/Pods/Flipper-Folly/folly/CancellationToken-inl.h:284-315 | After the deletion no step uses the state. |
| CancellationSteps.StepInv | ios/Pods/Flipper-Folly/folly/CancellationToken.cpp:38-247 | Every atomic step of every call keeps the invariant of word, list, frames and callbacks. |
| CancellationProgress.OnlyAfterRequest | ios/Pods/Flipper-Folly/folly/CancellationToken.cpp:38-73 | In every state, a callback that has run or is running does so with cancellation requested. |
| CancellationProgress.ConstructorRegisters | ios/Pods/Flipper-Folly/folly/CancellationToken.cpp:38-73 | A constructor that ends before cancellation is requested, with a source alive, leaves its callback registered and on the list. |
| CancellationProgress.WaitsForAnother | ios/Pods/Flipper-Folly/folly/CancellationToken.cpp:97-116 | A waiting destructor waits for a callback that no call on its own thread is running: one that is completed, or that the signalling thread, another one, is working on. |
| CancellationTermination.NeverDeadlocked | ios/Pods/Flipper-Folly/folly/CancellationToken.cpp:38-177 | In every state with a call in progress some call can take its next step: the lock and the destructors' waits never block each other. |
| CancellationTermination.CallsEnd | ios/Pods/Flipper-Folly/folly/CancellationToken.cpp:38-177 | If no more calls are made, only as many steps remain as a measure of the calls and the list says, and where none is possible all calls have returned. |
| CancellationTermination.RequestEnds | ios/Pods/Flipper-Folly/folly/CancellationToken.cpp:119-177 | A request returns only with cancellation requested: at once if it had been before, otherwise as the signalling call, with the list empty. |
| UnorderedMap.ChainsAreDisjointLists | ios/Pods/Flipper-Folly/folly/AtomicUnorderedMap.h:262-307 | In every reachable state every chain ends in slot 0 without a cycle and no slot is in two chains. |
| UnorderedMap.KeysAreUnique | ios/Pods/Flipper-Folly/folly/AtomicUnorderedMap.h:262-307 | No key is in the map twice. |
| UnorderedMap.LinksArePermanent | ios/Pods/Flipper-Folly/folly/AtomicUnorderedMap.h:262-307 | A linked slot keeps its place, key, value and successor in every later state. |
| UnorderedMap.OneWinner | ios/Pods/Flipper-Folly/folly/AtomicUnorderedMap.h:262-307 | Of all calls for one key, one linked its slot. |
| UnorderedMap.EveryKeyHasAWinner | ios/Pods/Flipper-Folly/folly/AtomicUnorderedMap.h:262-307 | Every key in the map was linked by a call, and the value is that call's. |
| UnorderedMap.ResultsAgree | ios/Pods/Flipper-Folly/folly/AtomicUnorderedMap.h:262-322 | Calls for one key that have returned a slot returned the same one, and one of them at most inserted it. |
| UnorderedMap.NeverStuck | ios/Pods/Flipper-Folly/folly/AtomicUnorderedMap.h:262-307 | A call that has not ended has an enabled step: no index is out of bounds and no slot state below zero. |
| UnorderedMapProgress.InsertsAlone | ios/Pods/Flipper-Folly/folly/AtomicUnorderedMap.h:262-307 | In every state of every run, a new findOrConstruct that runs by itself ends: with the slot of its key if that is in the map, changing nothing, and otherwise, if a slot is free, with true and a linked slot that holds key and value. |
| UnorderedMapProgress.FindsAlone | ios/Pods/Flipper-Folly/folly/AtomicUnorderedMap.h:320-322 | So does a find, with the slot of its key, or with nothing if the key is not in the map; it changes nothing. |
| UnorderedMapProgress.AnyCallAlone | ios/Pods/Flipper-Folly/folly/AtomicUnorderedMap.h:262-307 | A call at any point of its way ends with a result when it runs by itself and a slot is free. |
| UnorderedMapProgress.OnlyAllocationFails | ios/Pods/Flipper-Folly/folly/AtomicUnorderedMap.h:430-441 | A call fails only while it allocates, and there taking any free slot is enabled too. |
| UnorderedMap.KeyToSlotIdx | ios/Pods/Flipper-Folly/folly/AtomicUnorderedMap.h:408-415 | Repeated subtraction reduces the masked hash modulo the number of slots. |
| HashArray.CellsEvolve | ios/Pods/Flipper-Folly/folly/AtomicHashArray.h:429-437 | A cell only moves from empty to locked, from locked to a key or back, and from a key to erased. |
| HashArray.OneLiveCell | ios/Pods/Flipper-Folly/folly/AtomicHashArray-inl.h:158-268 | A key is live in one cell at most, and no cell before it in its probe sequence is empty. |
| HashArray.PresentIsFound | ios/Pods/Flipper-Folly/folly/AtomicHashArray-inl.h:94-117 | A call whose key was there when it began and still is finds it, whatever the other threads do. |
| HashArrayResults.FindResults | ios/Pods/Flipper-Folly/folly/AtomicHashArray-inl.h:94-117 | A find that succeeds returns a cell that held its key during the call; otherwise it returns the capacity, and at some moment of the call its key was in no cell. |
| HashArrayResults.InsertResults | ios/Pods/Flipper-Folly/folly/AtomicHashArray-inl.h:158-268 | An insert succeeds if and only if it filled the cell it returns, with its key and value, and it fills no other; a failed one returns a cell that held its key during the call, or the capacity. |
| HashArrayResults.EraseResults | ios/Pods/Flipper-Folly/folly/AtomicHashArray-inl.h:295-337 | An erase succeeds if and only if it took its key out of the cell it returns, and it takes no other out; a failed one returns the capacity, and at some moment of the call its key was in no cell. |
| HashArrayResults.OncePerCell | ios/Pods/Flipper-Folly/folly/AtomicHashArray-inl.h:158-337 | A cell is filled once and erased once, so successful inserts match filled cells and successful erases match erased ones. |
| HashArrayProgress.FindsAlone | ios/Pods/Flipper-Folly/folly/AtomicHashArray-inl.h:94-117 | Where no call is under way, a find ends with the cell of its key, or with nothing if no cell has it, and changes nothing. |
| HashArrayProgress.InsertsAlone | ios/Pods/Flipper-Folly/folly/AtomicHashArray-inl.h:158-268 | Where no call is under way, an insert ends: with the cell of its key if there is one, else with key and value written to a free cell if there is one and the array is not full, else without room. |
| HashArrayProgress.ErasesAlone | ios/Pods/Flipper-Folly/folly/AtomicHashArray-inl.h:295-337 | Where no call is under way, an erase takes its key out of the one cell that has it, or changes nothing and reports none. |
| HashArray.TargetIsTheCell | ios/Pods/Flipper-Folly/folly/AtomicHashArray-inl.h:94-117 | The cell such a call is to find is the one that held the key when it began. |
| HashArray.FullIsFinal | ios/Pods/Flipper-Folly/folly/AtomicHashArray-inl.h:158-268 | Once the full flag is set while nothing is pending, no empty cell is ever locked again. |
| HashArray.GivenUpIsAbsent | ios/Pods/Flipper-Folly/folly/AtomicHashArray-inl.h:158-268 | When an insert has returned without room, because the array was full or every cell had been probed, its key is in no cell and never will be. |
| HashArray.SizeIsLiveKeys | ios/Pods/Flipper-Folly/folly/AtomicHashArray.h:287-289 | size() is the number of live keys if and only if as many insertions as erasures are not counted yet, and it is too large by 2^64 if and only if more erasures than entries are counted. |
| HashArray.CountersAndKeys | ios/Pods/Flipper-Folly/folly/AtomicHashArray-inl.h:158-337 | In every state entries and erasures, with the ones not counted yet, make up the live keys, and the pending counter is the number of calls between its two updates. |
| HashArrayRuns.SizeTooLarge | ios/Pods/Flipper-Folly/folly/AtomicHashArray-inl.h:312-315 | A run reaches size() == 1 with no live key: the erasure has exchanged the key and not counted it. |
| HashArrayRuns.SizeWraps | ios/Pods/Flipper-Folly/folly/AtomicHashArray.h:287-289 | A run reaches size() == 2^64 - 1 with no live key: the erasure is counted before the insertion. |
| HashArray.CheckFails | ios/Pods/Flipper-Folly/folly/AtomicHashArray-inl.h:240 | From a state where a cell is taken, the debug check that it is not empty fails later if and only if a value constructor has thrown in that cell and nobody has locked it since. |
| HashArray.SeenTaken | ios/Pods/Flipper-Folly/folly/AtomicHashArray-inl.h:167-240 | A call that stands at the check has seen its cell taken, and has gone straight to the check since. |
| HashArray.CheckHolds | ios/Pods/Flipper-Folly/folly/AtomicHashArray-inl.h:240 | In runs where no value constructor throws the check never fails. |
| HashArrayRuns.CheckCanFail | ios/Pods/Flipper-Folly/folly/AtomicHashArray-inl.h:216-240 | A run with a constructor that throws reaches a state where the check fails. |
| HashArray.FlagSteps | ios/Pods/Flipper-Folly/folly/AtomicHashArray-inl.h:188-233 | The full flag becomes 2 or 1 by its two stores only, is never 0 again, and goes from 2 to 1 exactly when a call that found the maximum reached stores its 1 late. |
| HashArrayRuns.FlagGoesBack | ios/Pods/Flipper-Folly/folly/AtomicHashArray-inl.h:188-233 | A run in which it does go from 2 to 1. |
| HashArray.NeverStuck | ios/Pods/Flipper-Folly/folly/AtomicHashArray-inl.h:94-337 | No call meets an index outside the array or takes a counter below zero. |
| SkipList.Run | ios/Pods/Flipper-Folly/folly/ConcurrentSkipList.h:314-407 | Any sequence of insertions with any heights, removals and growths keeps every layer linked, sorted and a subsequence of the one below, and does to the keys what it does to a set. |
| SkipList.ConcurrentSkipList.AddOrGetData | ios/Pods/Flipper-Folly/folly/ConcurrentSkipList.h:314-365 | Adds exactly the key if it is missing, in its place, with a fresh node; otherwise returns the node that has it and changes nothing. |
| SkipList.ConcurrentSkipList.Remove | ios/Pods/Flipper-Folly/folly/ConcurrentSkipList.h:367-407 | Removes exactly the key, reports whether it was there, and unlinks its node from all layers. |
| SkipList.ConcurrentSkipList.GrowHeight | ios/Pods/Flipper-Folly/folly/ConcurrentSkipList.h:510-534 | Raises the head to the new height and keeps the nodes. |
| SkipList.ConcurrentSkipList.FindInsertionPoint | ios/Pods/Flipper-Folly/folly/ConcurrentSkipList.h:222-249 | On each layer the last node before the key and the first one not before it, and the highest layer that holds the key itself. |
| SkipList.ConcurrentSkipList.FindNodeDownRight | ios/Pods/Flipper-Folly/folly/ConcurrentSkipList.h:458-484 | Finds the first node whose key is not less, and says whether it is equal. |
| SkipList.ConcurrentSkipList.FindNodeRightDown | ios/Pods/Flipper-Folly/folly/ConcurrentSkipList.h:486-500 | The same node and the same answer by the other search order. |
| SkipList.ConcurrentSkipList.LowerBound | ios/Pods/Flipper-Folly/folly/ConcurrentSkipList.h:502-508 | The first node not less than the key that is not marked for removal. |
| SkipList.ConcurrentSkipList.Find | ios/Pods/Flipper-Folly/folly/ConcurrentSkipList.h:268-274 | The node of the key unless it is missing or marked for removal. |

## Left out

- DoubleStrtod: its hardware multiplications and divisions are a function that may answer or not; if it answers, it must be correctly rounded (`DoubleStrtodOk`). A build without exact double operations never answers.
- CachedPowers.TableServes: the floating-point product in the index is a real product with an arbitrary small error; so is the one of `Estimates.EstimateHolds`. The rounding of the hardware itself is not part of this model.
- Ieee: NaN, the infinities as inputs of the printer, and the symbols for them.
- Single precision: `Strtof`, class `Single` and the `SHORTEST_SINGLE` modes.
- StringToDoubles.StringToDouble: the scanner without flags only: no hexadecimal or octal numbers, spaces, trailing junk or special symbols; texts have at most 2^29 - 1 characters, so that counting digits does not overflow.
- The text formats ToFixed, ToExponential and ToPrecision, which only choose modes and digit counts around what is modelled; `HandleSpecialValues`; hexadecimal bignum strings.
- Bignums.Bignum: `EnsureCapacity` aborts the program; here its conditions are preconditions, and they hold for every call of the conversions.
- Buffers hold digits without the terminating NUL, and their sizes are preconditions.
- The second copy of double-conversion under `ios/Pods/Flipper-DoubleConversion`, and the React Native code.
- Memory orders: atomic operations are sequentially consistent. Spurious failures of weak exchanges and waiting strategies only repeat steps and are not modelled.
- CancellationSafety.ReferenceCounts: counts stay below 2^31 and callers hold a reference during a call, as the class asks; a callback object is not destroyed before its constructor has returned.
- CancellationTermination.CallsEnd: a user's callback is taken to return; what happens while it never does is not modelled.
- HashArray: linear probing only; no quadratic probing, growth of `AtomicHashMap` or iterators; thread-cached counters are exact.
- UnorderedMap: no iterators; the masked hash is a remainder, as the mask is one less than a power of two; memory and constructors never fail in other ways than for lack of slots.
- SkipList.Run: one thread. Locks succeed at once, so the retry loops are left after one turn; the `Skipper`, the node recycler and reference counts are not modelled; heights are arguments instead of random numbers, keys are integers and the table of size limits is a parameter.

Where the code and its comments differ, or one might expect more of it, the model follows the code:

- Two debug assertions of the division do not follow from its stated precondition: `bignum.cc:507` (`BignumArithmetic.LeadingSmall`) and `bignum.cc:515` (`BignumArithmetic.LengthLost`). Quotient and remainder are right all the same, `Bignums.Bignum.DivideModuloIntBignum` says exactly when the assertions hold, and in the digit generation they always do (`BignumDtoa.GenerateDigit`, `DivisionChecks.DenominatorsNotFull`).
- At `fixed-dtoa.cc:262` the shift amount is -1 when the point has reached 0 (`FixedDtoa.NoBitLeft`); nothing remains then, and the model does not round (`FixedDtoa.FillFractionals64` says exactly when).
- Ties in shortest mode go to the even digit, where the header says upwards (`BignumDtoa.GenerateShortestDigits`).
- For odd significands `FixupMultiply10` compares strictly, so that the range it establishes is (1, 10] and not [1, 10) (`DoubleDtoa.ScaledValues`).
- The debug check at `AtomicHashArray-inl.h:240` can fail when the value constructor of another call throws (`HashArrayRuns.CheckCanFail`), and only then (`HashArray.CheckFails`, `HashArray.CheckHolds`).
- The full flag can go back from 2 to 1 (`HashArrayRuns.FlagGoesBack`); that nothing is inserted any more does not depend on it (`HashArray.FullIsFinal`).
- size() of the hash array is not the number of its keys while calls are in progress, and may wrap (`HashArray.SizeIsLiveKeys`, `HashArrayRuns.SizeTooLarge`, `HashArrayRuns.SizeWraps`).

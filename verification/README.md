# Verified models of {fmt} algorithms and MPSC queues

A Dafny model of the algorithms at the core of the formatting library {fmt} (in `fmt/`) and of two
lock-free queues (in `Self-Study/Threading/`), with proofs of what they are for. Run
`dafny verify dfyconfig.toml` to check everything.

| files | what they model |
|---|---|
| `TrailingZeros`, `Dragonbox` | the shortest decimal of a binary64 number: the search in scaled units, division by magic numbers, removal of trailing zeros by modular inverses |
| `Bigits`, `Convolution`, `BigintArithmetic`, `BigintOrder`, `Bigint` | `bigint`, the arbitrary-precision integer, as a class that is updated in place |
| `DragonArithmetic`, `DragonLoops`, `DragonSetup`, `DragonMeaning`, `DragonInterval`, `DragonPrinter`, `DragonPrecision`, `DragonInputs`, `DragonExamples` | `format_dragon`: exact shortest and fixed-precision digits, from the initial numbers to the meaning of the text as a real number, exactly where the exponents of the bigints make it print something else, and which of that the numbers of its caller can reach |
| `WriteFloat`, `FloatNotation` | `do_write_float`: the four layouts of significand and exponent, and for which values each is used with how many digits |
| `MpscMemory`, `MpscIntrusive`, `MpscAlone`, `MpscSequential`, `MpscNonIntrusive`, `MpscDelivery` | Vyukov's multi-producer single-consumer queues as transition systems over their atomic accesses |
| `ArgIds`, `FormatSpecs`, `SpecsRoundTrip`, `FormatStrings`, `FormatParser` | the parsers of format strings and of format specifiers, and the handler they drive |
| `CompileFormat`, `CompileAccepts`, `FormatMeaning` | the compiler from format strings to trees, against the interpreter, and what a format string means piece by piece |
| `Utf8` | the branchless decoder, the loop over code points and the encoder |
| `OutputBuffer` | the truncating buffer behind `format_to_n` |
| `Printable` | the generator of the tables of unprintable code points, and their decoder |
| `IsoWeek` | ISO week dates |
| `Powers`, `Digits`, `Options` | powers, digit characters, optional values |

How to read the model:

- The cache of powers of ten in Dragonbox is one real number, the scaled half unit; the accessors answer
  floor, integrality and parity questions about its multiples exactly.
- A queue's run is a sequence of states and actions, each action one atomic access (or one call) of one
  thread. A ghost log holds the nodes in the order in which they were exchanged into head. The number of
  producers and the length of a run are arbitrary. Accesses are sequentially consistent.
- Format strings are sequences of code units. Reporting an error stops: the result is `None`. Arguments have
  a type, perhaps a name, and a value that an arbitrary function writes, given the specifiers.
- Text that a parser tells its handler is a sequence of events; two sequences are the same layout if they
  have the same fields and the same text between them.

What the proofs found out about the code:

- `compare` reports equal values with different exponents as different (`BigintOrder.CompareExactness`).
  `format_dragon` depends on it in three places, each with its exact condition in the contract of
  `DragonPrinter.FormatDragon`, and each only for exponents e >= 0 of the binary number:
  - A number at the lower end of the rounding interval is accepted or not by the exponents of remainder and
    lower margin, and by the parity of the significand only if they are equal. With a 113-bit odd significand
    the text may read back as the number below (`DragonExamples.OddLowerEnd`). With an even one, already with 64
    bits, a shorter text at the lower end may be passed over for a longer one (`DragonExamples.EvenLowerEnd`).
    Either happens exactly if the exponents differ in the wrong direction and the lower end is the decimal that
    should be printed if it counted.
  - A zero remainder after the first digit is not recognised if the value is a multiple of the estimated power of
    ten and the exponents cross a multiple of 32: a zero is printed behind the digit (`DragonExamples.TrailingZero`).
  - In precision mode a value that is exactly a power of ten may be divided into the digits 0 and 10
    (`DragonExamples.MissedPower`).

  The last two concern the function on its own. They need a significand that is not normalised, or an estimate that
  the only caller (`format.h:3271-3277`, `:3541`) does not make: for significands below 2^64 neither happens with any
  good estimate (`DragonInputs.NarrowSignificand`); for normalised 113-bit significands no power of ten is missed with
  any good estimate (`DragonInputs.QuadSignificand`), and no trailing zero is printed with the caller's
  (`DragonInputs.QuadEstimate`). For significands below 2^64 only the lower end of an even one can go wrong, and every
  text reads back as the number.
- In precision mode the exponent correction looks at the upper end of the rounding interval, so the value may be below
  the power of ten of the first digit. That digit is then a zero, exactly if the value is below that power by more than
  half a unit of the last digit (`DragonPrecision.LeadingZero`). The 64-bit significand nearest to 10^28 is printed with
  a leading zero from 21 digits on (`DragonExamples.LeadingZeroExample`).
- The powering loop of `assign_pow10` never starts for exponents from 2^30 on, because the loop before it that
  looks for the top bit does not end (`Bigints.BitmaskLoopEnds`).
- The 64-bit `remove_trailing_zeros` loses the high part of the quotient for inputs from 2^32 * 10^8 on that
  are multiples of 10^8 (`TrailingZeros.TruncatedQuotient`, `TrailingZeros.TruncatedToZero`); Dragonbox stays
  below that.
- If an argument is named dynamically and a later one of the same name statically, the compiler takes the later
  one and the interpreter the first (`CompileFormat.NamesMustAgree`).
- The compiler counts fields with static names as if they were automatic ones, so it rejects an index after such a name,
  which the interpreter accepts (`CompileAccepts.NameThenIndex`).
- `Dequeue` of the intrusive queue can return false although the queue holds elements, all links are stored and no
  producer is active, when an `Enqueue` runs between two of its loads (`MpscAlone.FailsBetweenLoads`).
- Calling `out()` on the limited buffer before the limit is reached makes later text disappear
  (`OutputBuffer.OutTwice`, `OutputBuffer.LostCharacter`).
- Week 53 of a negative year is not recognised (`IsoWeek.WeekDate`, `IsoWeek.NegativeDate`).

## Model

| member | source | states |
|---|---|---|
| TrailingZeros.InverseTest | fmt/include/fmt/format-inl.h:1147-1155 | For any odd divisor part with its inverse: multiplying by the inverse and rotating gives at most the limit exactly for multiples of the divisor, and then gives the quotient |
| TrailingZeros.Test100 | fmt/include/fmt/format-inl.h:1146-1151 | The 32-bit and 64-bit tests for a factor 100 are exact for every word and yield n / 100 |
| TrailingZeros.Test10 | fmt/include/fmt/format-inl.h:1152-1156 | The same for the factor 10 |
| TrailingZeros.Umul128 | fmt/include/fmt/format.h:1451-1477 | The four 32-bit products with their carries make up the 128-bit product of any two 64-bit words |
| TrailingZeros.MagicTest | fmt/include/fmt/format-inl.h:1164-1173 | For every 64-bit n the test with ceil(2^90 / 10^8) holds exactly for multiples of 10^8, and the shifted high word is then n / 10^8 |
| TrailingZeros.StripByInverse | fmt/include/fmt/format-inl.h:1146-1157 | The loop and the last step remove all trailing zeros from any nonzero word and add their number to s |
| TrailingZeros.RemoveTrailingZeros32 | fmt/include/fmt/format-inl.h:1140-1158 | For every nonzero 32-bit n: n becomes n / 10^s with no zero left, s counted from its start value |
| TrailingZeros.RemoveTrailingZeros64 | fmt/include/fmt/format-inl.h:1161-1196 | For every nonzero n below 2^32 * 10^8: n becomes n / 10^s with no trailing zero left |
| TrailingZeros.StrippedIsMaximal | fmt/include/fmt/format-inl.h:1139-1161 | The s returned is the largest exponent with 10^s dividing the input: 10^t divides it exactly for t <= s |
| TrailingZeros.TruncatedQuotient | fmt/include/fmt/format-inl.h:1170-1176 | For multiples of 10^8 of any size, the cast of the quotient to 32 bits keeps n * 10^s equal to the input exactly when the quotient is below 2^32 |
| TrailingZeros.TruncatedToZero | fmt/include/fmt/format-inl.h:1140-1176 | 2^32 * 10^8 passes the test for divisibility and its quotient is cast to zero, which the 32-bit loop would take for a multiple of 100 for ever; below it the cast is exact |
| Dragonbox.DivideBy1000 | fmt/include/fmt/format-inl.h:250-253 | Below 2^63 the multiply-and-shift is floor(n / 1000) |
| Dragonbox.CheckDivisibilityAndDivide | fmt/include/fmt/format-inl.h:211-234 | For n <= 10 * divisor: the flag is divisibility by 10 or 100 and the result is the floor of the quotient |
| Dragonbox.BigDivisor | fmt/include/fmt/format-inl.h:1307-1329 | Each branch of step 2 decides whether a multiple of 1000 lies in the scaled interval, with the endpoint rule |
| Dragonbox.SmallDivisor | fmt/include/fmt/format-inl.h:1338-1365 | Step 3 rounds the scaled center to the nearest multiple of 100, ties to even, from an integer distance, one parity bit and one integrality bit |
| Dragonbox.SearchScaled | fmt/include/fmt/format-inl.h:1300-1366 | Steps 2 and 3 on scaled values: a multiple of 1000 in the interval, or none there and the nearest multiple of 100, which is inside |
| Dragonbox.RoundToHundred | fmt/include/fmt/format-inl.h:1335-1366 | From the label on: the nearest multiple of 100 to the center, inside the interval |
| Dragonbox.NearestAmongHundreds | fmt/include/fmt/format-inl.h:1335-1366 | The result of the rounding has minimal distance among all multiples of 100, and where another one is as near, it is the even one |
| Dragonbox.ToDecimal | fmt/include/fmt/format-inl.h:1276-1367 | The decimal returned lies in the rounding interval of f * 2^e; no decimal in the interval has a larger exponent; a multiple of 10^(kappa+1) is used exactly when one is in the interval; otherwise the result is the nearest multiple of 10^kappa, ties to even |
| MpscIntrusive.StepInv | Self-Study/Threading/MPSCQueue.h:95-136 | Every atomic step of any producer or of the consumer keeps the invariant about head, tail, links, pending stores and returned elements |
| MpscIntrusive.ExecutionInv | Self-Study/Threading/MPSCQueue.h:95-136 | Every state of every interleaving satisfies the invariant |
| MpscIntrusive.Fifo | Self-Study/Threading/MPSCQueue.h:95-136 | In every interleaving the returned elements, each once, followed by the content are the elements in head-exchange order; the dummy is never returned and no node occurs twice from tail on |
| MpscIntrusive.ReturnedIsFree | Self-Study/Threading/MPSCQueue.h:117-135 | No thread has a pending store to a returned node and the queue does not reach it |
| MpscIntrusive.GivesUp | Self-Study/Threading/MPSCQueue.h:104-135 | Exactly when Dequeue returns false: at the first load of the next link if and only if tail is the dummy, and the queue is empty or a producer is between its exchange and its link store; at the last load if and only if such a producer exists; at the load of head if and only if such a producer existed when this call loaded the link, or a node has been exchanged into head since then; at no other step |
| MpscAlone.Alone | Self-Study/Threading/MPSCQueue.h:102-136 | From every reachable state with no producer in Enqueue, a call of Dequeue run alone returns the first element of the content and leaves the rest, and returns nothing exactly if the content is empty |
| MpscAlone.FailsBetweenLoads | Self-Study/Threading/MPSCQueue.h:121-126 | An execution in which Dequeue returns false with two elements queued, all links stored and no producer active |
| MpscSequential.MpscQueueIntrusive.constructor | Self-Study/Threading/MPSCQueue.h:79-85 | The queue starts empty with head and tail at the dummy |
| MpscSequential.MpscQueueIntrusive.Enqueue | Self-Study/Threading/MPSCQueue.h:95-100 | Used alone: the content grows by the element at its end (by nothing for the dummy) |
| MpscSequential.MpscQueueIntrusive.Dequeue | Self-Study/Threading/MPSCQueue.h:102-136 | Used alone: fails exactly on the empty queue, otherwise returns the first element and leaves the rest |
| MpscNonIntrusive.StepInv | Self-Study/Threading/MPSCQueue.h:34-52 | Every atomic step keeps the invariant about links, node ownership, data and returned values |
| MpscNonIntrusive.ExecutionInv | Self-Study/Threading/MPSCQueue.h:34-52 | Every state of every interleaving satisfies the invariant |
| MpscNonIntrusive.Fifo | Self-Study/Threading/MPSCQueue.h:34-52 | The dequeued sequence is a prefix of the head-exchange order in every interleaving |
| MpscNonIntrusive.NoUseAfterFree | Self-Study/Threading/MPSCQueue.h:34-52 | Every step dereferences live nodes only |
| MpscDelivery.ValueOfCall | Self-Study/Threading/MPSCQueue.h:34-39 | In every interleaving the i-th value, and the i-th value dequeued, is the argument of a call of Enqueue: of the latest call of the producer that made the i-th exchange of head |
| MpscDelivery.CallDelivers | Self-Study/Threading/MPSCQueue.h:34-39 | Every call of Enqueue delivers its argument with its exchange of head, once and for good |
| MpscDelivery.Alone | Self-Study/Threading/MPSCQueue.h:41-52 | From every reachable state with no producer in Enqueue, a call of Dequeue run alone ends and returns the next value, and returns nothing exactly if all have been returned |
| MpscDelivery.DeadNodesIrrelevant | Self-Study/Threading/MPSCQueue.h:34-52 | Whatever a node holds before its allocation or after its deletion, every step does the same; and no step changes such a node but the call that allocates it |
| MpscNonIntrusive.DeletedIsFree | Self-Study/Threading/MPSCQueue.h:49-50 | The node that Dequeue deletes is not one an in-flight producer will still write to |
| MpscNonIntrusive.GivesUp | Self-Study/Threading/MPSCQueue.h:41-46 | Dequeue returns false only if at its load of Next everything has been returned or the next producer has exchanged but not linked |
| MpscNonIntrusive.NoLeak | Self-Study/Threading/MPSCQueue.h:34-52 | With no call in progress the live nodes are exactly those from tail to head, one more than the remaining elements |
| Bigints.Bigint.Assign | fmt/include/fmt/format.h:2825-2833 | The object denotes the number assigned |
| Bigints.Bigint.AssignFrom | fmt/include/fmt/format.h:2842-2848 | Copies the bigits and the exponent of another number |
| Bigints.Bigint.Multiply | fmt/include/fmt/format.h:2791-2800 | Multiplication by a 32-bit number in place |
| Bigints.Bigint.MultiplyWide | fmt/include/fmt/format.h:2804-2820 | Multiplication by a 64-bit or 128-bit number in place, in two halves with a wide carry |
| Bigints.Bigint.ShiftLeft | fmt/include/fmt/format.h:2859-2872 | Multiplication by a power of two: whole bigits go to the exponent, the rest is shifted |
| Bigints.Bigint.RemoveLeadingZeros | fmt/include/fmt/format.h:2773-2777 | Drops zero bigits at the top without changing the number and restores normal form |
| Bigints.Bigint.Square | fmt/include/fmt/format.h:2945-2971 | The exact square, by sums of cross products per diagonal in a 128-bit accumulator that never overflows |
| Bigints.LowerDiagonal | fmt/include/fmt/format.h:2954-2957 | The first inner loop adds all products on a diagonal of the lower half |
| Bigints.UpperDiagonal | fmt/include/fmt/format.h:2964-2965 | The second inner loop adds all products on a diagonal of the upper half |
| Bigints.Bigint.AssignPow10 | fmt/include/fmt/format.h:2926-2943 | The number is exactly 10^e, by left-to-right powering of 5 and one shift, for every e for which the loops end |
| Bigints.BitmaskLoopEnds | fmt/include/fmt/format.h:2929-2931 | For int exponents the loop that looks for the top bit ends exactly if the exponent is below 2^30 |
| Bigints.Bigint.Align | fmt/include/fmt/format.h:2975-2984 | Lowers the exponent to that of the other number by zero bigits, keeping the value |
| Bigints.Bigint.SubtractAligned | fmt/include/fmt/format.h:2780-2789 | Exact subtraction of a smaller number in place, borrows included |
| Bigints.Compare | fmt/include/fmt/format.h:2881-2896 | The sign of lhs - rhs, except that equal values with different exponents are ordered by exponent, and that numbers with different bigit counts are ordered by them even if one is zero |
| BigintOrder.CompareExactness | fmt/include/fmt/format.h:2881-2896 | For positive numbers compare is exact except exactly when the exponents differ and the bigits of one number are those of the other with zeros below |
| BigintOrder.CompareExample | fmt/include/fmt/format.h:2881-2896 | Two equal values that compare as different |
| BigintOrder.LowBigit | fmt/include/fmt/format.h:2881-2896 | A nonzero bigit below the exponent of the other number makes the values differ |
| Bigints.AddCompare | fmt/include/fmt/format.h:2899-2923 | The exact sign of lhs1 + lhs2 - rhs for any exponents, in spite of the early exits |
| Bigints.Bigint.DivmodAssign | fmt/include/fmt/format.h:2988-2999 | Returns q and leaves r with old == q * divisor + r and r < divisor; only if the operands are equal and this one has the larger exponent it returns zero and changes nothing |
| DragonLoops.Shortest | fmt/include/fmt/format.h:3076-3102 | Shortest digits for any exponents of the numbers: all characters are digits and the first is not zero; the number is within the margins and none within them is closer, where the lower end counts as the exponents say; none within the margins has one digit less, except for the missed zero remainder, where there are two digits; the loop ends |
| DragonLoops.Margins | fmt/include/fmt/format.h:3082-3084 | Exactly when low and high are set, for any exponents: how equality with the lower margin is decided, and the zero that is taken for larger |
| DragonLoops.NextDigit | fmt/include/fmt/format.h:3081-3084 | One iteration: a digit of at most nine (eight if it may be incremented), the exact remainder and the meaning of the comparisons |
| DragonLoops.RoundsUp | fmt/include/fmt/format.h:3087-3094 | Which neighbour is taken: the only one within the margins, or the nearer one, or the even digit |
| DragonLoops.LeadingDigits | fmt/include/fmt/format.h:3115-3120 | All digits but the last of a fixed number of digits, with the exact remainder; or, when the first comparison misses equal numbers, the characters 0, one behind 9, 0, 0 and so on |
| DragonLoops.PropagateCarry | fmt/include/fmt/format.h:3124-3130 | Moving the carry to the left keeps the number denoted; afterwards only the first character can be above nine, and then the rest are zeros |
| DragonLoops.PositivePrecision | fmt/include/fmt/format.h:3114-3143 | The text and the exponent are those of the number rounded to its n-th digit, ties to even: n digits at the unit given; or, when all nines are carried, a one and zeros, with a digit more if fixed and with the exponent one larger if not; only for two or more digits of a missed equality it is another text, which is given |
| DragonLoops.Precision | fmt/include/fmt/format.h:3104-3143 | The same for any n, zero and negative included |
| DragonSetup.Setup | fmt/include/fmt/format.h:3024-3062 | The initial numbers are the value and its two margins over one denominator, in units of 10^exp10, in all three cases of exponents |
| DragonSetup.HalfGaps | fmt/include/fmt/format.h:3018-3062 | The margins are half the distances to the neighbouring numbers, to the predecessor with the next smaller exponent where that is closer |
| DragonSetup.TermsScaled | fmt/include/fmt/format.h:3026-3061 | Splitting powers of two and ten between numerator and denominator keeps the real value |
| DragonPrinter.Fixup | fmt/include/fmt/format.h:3064-3072 | The exponent is lowered exactly when the upper end of the interval does not reach 10^exp10, and the numbers are rescaled |
| DragonInterval.LowerEndTaken | fmt/include/fmt/format.h:3082-3096 | A best decimal of the interval with its lower end is one of the interval without it exactly if the lower end is not the decimal to print |
| DragonInterval.LowerEndLeftOut | fmt/include/fmt/format.h:3082-3096 | A best decimal of the interval without its lower end is one of the interval with it exactly if the lower end is not the decimal to print |
| DragonPrinter.FormatDragon | fmt/include/fmt/format.h:3012-3143 | As real numbers, for every significand, exponent and good estimate: without precision the text is in the rounding interval of f * 2^e, both ends included for even f, exactly if an odd significand's lower end is not misjudged, and closest to the value with no power of ten more possible exactly if the lower end is not misjudged and no trailing zero is printed; with precision it is the text of the nearest multiple of the unit of the last digit, ties to even, with that number of digits and that exponent, exactly if no power of ten is missed. With fixup and fixed the exponent is -num_digits and the digits are the multiple of 10^-num_digits nearest to the value; otherwise there are max(num_digits, 1) digits, one more only if fixed is set without fixup and all nines are carried. More than INT_MAX digits are refused |
| DragonPrecision.PrecisionDetermined | fmt/include/fmt/format.h:3104-3143 | Digits and exponent of the precision mode are determined: two texts that satisfy its contract are the same |
| DragonPrecision.PrecisionValue | fmt/include/fmt/format.h:3114-3143 | The text denotes the rounded multiple of the unit, carried nines included |
| DragonPrecision.LeadingZero | fmt/include/fmt/format.h:3064-3143 | For every number of digits from one on and every value that is no missed power: the text begins with a zero exactly if the value is below the power of ten of the first digit by more than half a unit of the last one |
| DragonPrecision.NoLeadingZero | fmt/include/fmt/format.h:3064-3143 | Unless the estimated power of ten lies between the value and the upper end of its interval, the text begins with no zero |
| DragonExamples.LeadingZeroExample | fmt/include/fmt/format.h:3064-3143 | For the 64-bit significand nearest to 10^28 the text begins with a zero exactly from 21 digits on |
| DragonInputs.CallerEstimateIsGood | fmt/include/fmt/format.h:3271-3277 | The rounded-up decimal logarithm of the top bit of a significand is a good estimate in every mode, with fixup |
| DragonInputs.QuadSignificand | fmt/include/fmt/format.h:3114-3122 | For every normalised 113-bit significand with a good estimate no power of ten is missed |
| DragonInputs.QuadEstimate | fmt/include/fmt/format.h:3267-3278 | For every normalised 113-bit significand with the estimate of the caller no trailing zero is printed |
| DragonInputs.NarrowSignificand | fmt/include/fmt/format.h:3012-3062 | For every significand below 2^64 with a good estimate no power of ten is missed, no trailing zero is printed, and the lower end is misjudged only for even significands |
| DragonExamples.LowerEndDivides | fmt/include/fmt/format.h:3024-3037 | For equal margins the lower end is the decimal to print exactly if a power of ten above 2^e divides (2 f - 1) * 2^(e-1) |
| DragonExamples.OddLowerEnd | fmt/include/fmt/format.h:3076-3102 | A 113-bit odd significand for which every text that the shortest mode may print is the excluded lower end |
| DragonExamples.EvenLowerEnd | fmt/include/fmt/format.h:3076-3102 | A 64-bit even significand whose shortest text is 48 with exponent 27, which the shortest mode does not print |
| DragonExamples.TrailingZero | fmt/include/fmt/format.h:3076-3102 | 2 * 10^43 with an exact estimate instead of the caller's: the shortest text is the digit 2, which the shortest mode does not print |
| DragonExamples.MissedPower | fmt/include/fmt/format.h:3114-3143 | 10^31 with a 72-bit significand, which no format has: with two or more digits the text contains a character that is no digit |
| ArgIds.ParseNonnegativeInt | fmt/include/fmt/base.h:2220-2240 | Accumulating in a wrapping 32-bit word and checking afterwards returns the number of at most ten digits if it fits an int and the error value otherwise |
| ArgIds.IntNeverWraps | fmt/include/fmt/base.h:2220-2240 | Without leading zeros: a number above INT_MAX is rejected and every other is returned unchanged |
| ArgIds.ParseArgId | fmt/include/fmt/base.h:2259-2294 | The loops over digits and name characters find the argument id at a position, or report an error |
| ArgIds.ParseContext.NextArgId | fmt/include/fmt/base.h:755-763 | Automatic ids count up, unless indexing is manual |
| ArgIds.ParseContext.CheckArgId | fmt/include/fmt/base.h:769-776 | An explicit index is an error after an automatic one, otherwise it makes indexing manual |
| ArgIds.ParseContext.CheckArgName | fmt/include/fmt/base.h:777-779 | A name makes indexing manual |
| ArgIds.ParseContext.Resolve | fmt/include/fmt/base.h:2296-2315 | The argument that a dynamic width or precision refers to, and the counter afterwards |
| ArgIds.ParseDynamicSpec | fmt/include/fmt/base.h:2318-2338 | Parses a number or an argument id in braces and threads the counter |
| FormatSpecs.ParseFormatSpecs | fmt/include/fmt/base.h:2356-2537 | The loop with its state order computes the specs, the end position and the counter of the specification function, or reports an error exactly when that does |
| FormatSpecs.ParseSpec | fmt/include/fmt/base.h:2409-2532 | One pass of the switch |
| FormatSpecs.ParsePrecision | fmt/include/fmt/base.h:2340-2350 | The precision behind its point |
| FormatSpecs.StatesIncrease | fmt/include/fmt/base.h:2370-2377 | Every accepted specifier enters its states in strictly increasing order |
| SpecsRoundTrip.RoundTrip | fmt/include/fmt/base.h:2356-2537 | Any record of fill, alignment, flags, width, precision, presentation type and case, written as [[fill]align][sign][#][0][width][.precision][L][type], is parsed back to the same record at the same place in any string, with automatic ids of width and precision threaded in order, if and only if the argument type allows every part that is written and the counter every id; otherwise it is rejected |
| SpecsRoundTrip.OneLetter | fmt/include/fmt/base.h:2467-2526 | A letter or question mark by itself is accepted exactly if it is that of a presentation type, in either case where there are two, that the argument type allows |
| SpecsRoundTrip.IdRead | fmt/include/fmt/base.h:2259-2294 | Every id that is read is the text before its end: nothing, a number without leading zeros cut off at INT_MAX, or a name of letters, digits and underscores |
| SpecsRoundTrip.NamesAreWritten | fmt/include/fmt/base.h:2254-2256 | The names accepted are those of letters, digits and underscores with no digit in front |
| SpecsRoundTrip.LeadLengths | fmt/include/fmt/base.h:2194-2198 | The packed table of code point lengths is that of the lead bytes of UTF-8, for every code unit |
| SpecsRoundTrip.WidthTooBig | fmt/include/fmt/base.h:2318-2327 | Every width above INT_MAX is rejected |
| SpecsRoundTrip.PointAlone | fmt/include/fmt/base.h:2340-2350 | A point with nothing behind it is rejected |
| SpecsRoundTrip.BraceFill | fmt/include/fmt/base.h:2515-2526 | An opening brace as a fill character is rejected |
| FormatStrings.ShortIsReference | fmt/include/fmt/base.h:2580-2597 | The simple loop tells the handler the fields and the text of the character-by-character reading |
| FormatStrings.LongIsReference | fmt/include/fmt/base.h:2599-2623 | So does the search-based path with its writer |
| FormatStrings.SameReadings | fmt/include/fmt/base.h:2577-2624 | For every string both paths accept or reject alike and report the same fields with the same text between them |
| FormatStrings.DoublingEscapes | fmt/include/fmt/base.h:2577-2624 | Doubling every brace of any text makes either path emit exactly the text and no field |
| FormatParser.ParseReplacementField | fmt/include/fmt/base.h:2540-2574 | One field, with the handler called as the specification says |
| FormatParser.ParseShort | fmt/include/fmt/base.h:2580-2597 | The loop for short strings |
| FormatParser.Write | fmt/include/fmt/base.h:2599-2614 | The writer: text up to a position with doubled closing braces |
| FormatParser.ParseLong | fmt/include/fmt/base.h:2615-2623 | The path for longer strings |
| FormatParser.Parse | fmt/include/fmt/base.h:2577-2624 | Which path is taken, and what the handler has been told afterwards |
| FormatParser.FormatHandler.OnArgId | fmt/include/fmt/format.h:4266-4278 | The argument an id refers to, or an error when there is none |
| FormatParser.FormatHandler.OnFormatSpecs | fmt/include/fmt/format.h:4286-4302 | Parses the specifiers for the type of the argument and finds the closing brace |
| CompileFormat.CompiledEqualsInterpreted | fmt/include/fmt/compile.h:240-425 | For every string that compiler and interpreter both accept, formatting the compiled tree gives what interpreting the string gives, provided that the first static argument of each name is the first of that name |
| FormatMeaning.InterpretMeaning | fmt/include/fmt/format.h:4252-4309 | For any sequence of texts and fields with any well-formed specifiers, written as a format string: interpreting it gives the texts and, for each field, the argument that its id means written with the specifiers of its record, where width and precision are the numbers written or the values of their integer arguments; or an error exactly if one of them is not allowed, missing or no integer from 0 to INT_MAX |
| FormatMeaning.CompiledMeaning | fmt/include/fmt/compile.h:240-425 | Where the compiler accepts such a string, its tree gives the same |
| FormatMeaning.WriterGets | fmt/include/fmt/format.h:4294-4301 | For all specifiers read, the writer gets them with only width and precision replaced, each by its own number or the value of its own argument |
| FormatMeaning.NoValueIsError | fmt/include/fmt/format.h:4294-4297 | Without such a value nothing is written |
| FormatMeaning.Unbalanced | fmt/include/fmt/base.h:2577-2624 | A brace at the end that nothing closes, or a closing one that is not doubled, behind any such string is an error |
| CompileAccepts.CompilerAccepts | fmt/include/fmt/compile.h:316-410 | Without names the compiler accepts every string that the interpreter reads, with all its fields and specifiers, except exactly those with a character argument written as one with a sign, '#' or numeric alignment |
| CompileAccepts.NameThenIndex | fmt/include/fmt/compile.h:369-387 | A static name and then an index: accepted by the interpreter, rejected by the compiler |
| CompileFormat.NamesMustAgree | fmt/include/fmt/base.h:2670-2678 | Where that fails there is a string that both accept and whose two texts are equal only for writers that write the two arguments of one name alike |
| CompileFormat.RepeatedName | fmt/include/fmt/base.h:1897-1905 | A dynamic and then a static argument named a: the compiled tree formats the second, the interpreter the first |
| CompileFormat.CompilePreserves | fmt/include/fmt/compile.h:240-410 | The same from any position on, with the two argument counters related |
| CompileFormat.FieldMeaning | fmt/include/fmt/compile.h:316-342 | A field and everything after it, with or without specifiers |
| CompileFormat.ManualSpecsAt | fmt/include/fmt/compile.h:266-276 | Specifiers accepted under manual indexing and under any other counter are the same |
| CompileFormat.EventsTextIsLayoutText | fmt/include/fmt/format.h:4261-4302 | The formatted text depends only on the fields and the concatenated text between them |
| CompileFormat.LoneClosingBrace | fmt/include/fmt/compile.h:396-399 | A single closing brace before another character is accepted by the compiler only |
| Utf8.Decode | fmt/include/fmt/format.h:606-641 | No error exactly for the well-formed sequences of section 4 of RFC 3629; then the advance is their length and encoding the code point gives the bytes back |
| Utf8.ErrorMeansMalformed | fmt/include/fmt/format.h:629-638 | The accumulated error bits are zero exactly for the sequences of the standard |
| Utf8.DecodesBack | fmt/include/fmt/format.h:1433-1446 | Every code point that convert can encode is decoded back from its bytes, whatever follows |
| Utf8.ScalarValue | fmt/include/fmt/format.h:617-627 | The code point of every well-formed sequence consists of the payload bits of its bytes in order (section 3 of RFC 3629) |
| Utf8.SeenUntilFalse | fmt/include/fmt/format.h:648-676 | The callback sees a prefix of the pieces; it has answered true to all of them but the last, and has seen fewer than all exactly by answering false |
| Utf8.ForEachCodepoint | fmt/include/fmt/format.h:648-676 | The callback sees the pieces of the string in order until it returns false; no byte outside the string or its padded copy is read |
| Utf8.PiecesCover | fmt/include/fmt/format.h:648-676 | The pieces are consecutive and together they are the string |
| Utf8.PiecesNonempty | fmt/include/fmt/format.h:648-676 | Every piece has one to four bytes |
| Utf8.PieceMeaning | fmt/include/fmt/format.h:648-657 | A valid piece is the encoding of its code point, an invalid one a single byte where no sequence begins |
| Utf8.Convert | fmt/include/fmt/format.h:1413-1446 | UTF-32 to UTF-8: the concatenated encodings, or failure at a value that is no code point |
| Utf8.DecodeThenEncode | fmt/include/fmt/format.h:1413-1446 | The code points of a string encode to the string exactly when none of them is invalid |
| Utf8.EncodeThenDecode | fmt/include/fmt/format.h:1413-1446 | What convert writes is decoded to the same code points |
| OutputBuffer.LimitedBuffer.Limit | fmt/include/fmt/base.h:944-948 | Counts a flush and returns how much of it fits below the limit |
| OutputBuffer.LimitedBuffer.Grow | fmt/include/fmt/base.h:998-1001 | A full buffer is flushed, so at least one slot is free afterwards |
| OutputBuffer.LimitedBuffer.PushBack | fmt/include/fmt/base.h:898-901 | The text so far grows by one character |
| OutputBuffer.LimitedBuffer.Append | fmt/include/fmt/base.h:904-919 | The text so far grows by the characters appended, in chunks; the loop ends |
| OutputBuffer.LimitedBuffer.Count | fmt/include/fmt/base.h:1031-1033 | The length of the whole text |
| OutputBuffer.LimitedBuffer.Out | fmt/include/fmt/base.h:1027-1030 | The end of the text in the output; afterwards nothing more is written there, so the text there stays complete exactly if the limit has been reached |
| OutputBuffer.OutTwice | fmt/include/fmt/base.h:949-1030 | Calls, out(), more calls and out() again: the output holds the text before the first out() up to the limit and is otherwise unchanged; text is missing exactly if the limit had not been reached and more text follows |
| OutputBuffer.LostCharacter | fmt/include/fmt/base.h:949-1030 | One character, out(), and another one, with room for two: the second is not in the output |
| OutputBuffer.FormatToN | fmt/include/fmt/base.h:2921-2927 | For every limit and every sequence of calls: exactly the first min(n, total) characters are written, nothing else changes, and the count is the total |
| Printable.CompressSingletons | fmt/support/printable.py:73-88 | The buckets hold the singletons: low bytes in order, counted by high byte |
| Printable.CountsFit | fmt/support/printable.py:73-88 | With at most 255 singletons for each high byte every count fits a byte |
| Printable.HighBytesFit | fmt/support/printable.py:73-88 | For singletons below 2^16 every high byte of the table fits a byte |
| Printable.CompressNormal | fmt/support/printable.py:90-115 | The entries are the alternating gaps and lengths in one or two bytes each |
| Printable.FindSingleton | fmt/include/fmt/format-inl.h:1711-1723 | The search by buckets finds exactly the singletons |
| Printable.ScanRanges | fmt/include/fmt/format-inl.h:1725-1735 | The toggling loop is false exactly on members of the ranges |
| Printable.IsPrintable | fmt/include/fmt/format-inl.h:1707-1736 | False exactly on the singletons and the members of the ranges |
| Printable.EncodeAndDecode | fmt/support/printable.py:73-115 | Decoding the tables built from any increasing 16-bit singletons, fewer than 256 for each high byte, and ascending ranges answers membership, and every entry of the tables fits a byte |
| WriteFloat.FloatTextValue | fmt/include/fmt/format.h:2567-2670 | In all four layouts the text reads back as significand * 10^exponent |
| WriteFloat.DoWriteFloat | fmt/include/fmt/format.h:2567-2670 | The text is the sign and the layout chosen, and the size computed in advance is the number of characters written |
| FloatNotation.NotationOfValue | fmt/include/fmt/format.h:2582-2592 | In general format the text has an exponent exactly if the value is below 0.0001 or at least 10^16, or 10^precision if that is positive; in exponent format always, in fixed format never |
| FloatNotation.ZeroNotation | fmt/include/fmt/format.h:2582-2592 | Zero is written without an exponent, except in exponent format |
| FloatNotation.ExponentCounts | fmt/include/fmt/format.h:2593-2618 | A text with an exponent has one digit before the point and, with showpoint, as many digits as the precision asks for; when the point is written; sign and number of digits of the exponent, and its value |
| FloatNotation.FixedCounts | fmt/include/fmt/format.h:2621-2669 | For a text without an exponent the numbers of digits before and behind the point, with and without showpoint, and when the point is written |
| WriteFloat.ExponentLayout | fmt/include/fmt/format.h:2593-2618 | Exponent notation reads back as the number |
| WriteFloat.IntegerLayout | fmt/include/fmt/format.h:2621-2642 | Digits and zeros read back as the number |
| WriteFloat.SplitLayout | fmt/include/fmt/format.h:2643-2653 | Digits split by the point read back as the number |
| WriteFloat.FractionLayout | fmt/include/fmt/format.h:2654-2669 | Leading zeros and digits read back as the number |
| WriteFloat.WriteExponent | fmt/include/fmt/format.h:1597-1615 | A sign and two to four digits that denote the exponent, as many as were counted in advance |
| WriteFloat.ExpDigitsValue | fmt/include/fmt/format.h:1595-1615 | The exponent text denotes the exponent |
| WriteFloat.FormatDecimal | fmt/include/fmt/format.h:1309-1330 | Two digits at a time from the end: the decimal digits end at the given size and nothing else changes |
| WriteFloat.WriteSignificand | fmt/include/fmt/format.h:2502-2523 | The digits of an integer significand with a point inside, written backwards |
| IsoWeek.YearWeeks | fmt/include/fmt/chrono.h:1264-1273 | For every year that is not negative the formula is the number of Thursdays of the year |
| IsoWeek.FiftyThree | fmt/include/fmt/chrono.h:1264-1273 | A year has 53 Thursdays exactly when its first or its last day is one, otherwise 52 |
| IsoWeek.WeekDate | fmt/include/fmt/chrono.h:1274-1292 | For every consistent date of any year, year and week are those of the week's Thursday (section 2.2.10 of ISO 8601:2004) exactly when that Thursday is not the 365th or 366th day of a negative year |
| IsoWeek.WeekDateFromYearOne | fmt/include/fmt/chrono.h:1278-1292 | From year 1 on the week date is always right |
| IsoWeek.WeekDateUnique | fmt/include/fmt/chrono.h:1278-1292 | A day has only one week date |
| IsoWeek.NegativeYear | fmt/include/fmt/chrono.h:1264-1273 | Every negative year gets 52 weeks, which is right exactly when neither its first nor its last day is a Thursday |
| IsoWeek.NegativeExample | fmt/include/fmt/chrono.h:1264-1273 | Year -2 has 53 weeks and gets 52 |
| IsoWeek.NegativeDate | fmt/include/fmt/chrono.h:1278-1292 | December 31 of year -2 is in its week 53 and is placed in week 1 of year -1 |

## Left out

- Dragonbox.ToDecimal: the shorter-interval case (powers of two), the tables of powers of ten, the recovery of compressed entries, the fixed-range logarithms and the binary32 instance are not modelled; the accessors are taken as exact, and the extraction of significand and exponent from the bits is left to the caller.
- Dragonbox.DivideBy1000: stated below 2^63, where the magic division is used and exact.
- Bigints.Bigint.AssignPow10: requires e < 2^30, outside of which the source does not end; int exponents and sizes are otherwise unbounded.
- Bigints.Bigint.DivmodAssign: requires a zero dividend not to have more bigits than the divisor; compare would call it larger, and the source would subtract beyond its bigits.
- DragonPrinter.FormatDragon: requires an exponent estimate that is right or one too large (with fixup), below 2^30 in size, and in shortest mode an upper end below 10^(estimate + 1), because that power would otherwise be in the rounding interval itself; the estimate is taken as the exact logarithm rounded up, its computation in floating point is not modelled, nor is the removal of trailing zeros by the caller.
- MpscNonIntrusive.StepInv: the queue is modelled on values only, not as a class; the destructors of both queues are not modelled.
- Weak memory orders of the atomics: the model interleaves sequentially consistent accesses.
- FormatMeaning.InterpretMeaning: requires that every argument has a type, as all but missing arguments have; a precision of no digits and numbers with leading zeros are not written by the records, though the parser reads them.
- CompileAccepts.CompilerAccepts: stated for arguments without names and specifiers without names; with names the compiler may reject more, or give up.
- CompileFormat.CompiledEqualsInterpreted: leaves out arguments of user-defined types, locales, and the strings that only the compiler accepts.
- FormatSpecs.ParseFormatSpecs: code units above 0xFF have length one and are no ASCII, as for wide characters; 128 to 255 are read as bytes.
- Utf8.Convert: the UTF-16 branch with surrogate pairs is not modelled; the combined code point is computed there but never written.
- OutputBuffer.LimitedBuffer.Append: the exceptions, the move constructor and the flush in the destructor are not modelled.
- Printable.IsPrintable: the generated tables and the fixed ranges above 0x20000 are not modelled.
- WriteFloat.DoWriteFloat: padding to a width, digit grouping, locale decimal points and the choice of precision are not modelled.
- Fixed-precision printing with two 64-bit segments, hexadecimal floating point, `write_int`, and escaping of strings.
- The winsock server, the locked queues, locale, time zone, file and console output, `os.h`, `std.h`, `color.h`, `ranges.h`, `printf.h` and the build scripts: input and output, wrappers or type-level plumbing.

# Proofs for the CMSIS layer of the gateway

This project models, in Dafny, the parts of the vendored CMSIS headers that compute something
hard to get right, and proves what they promise for every input, every run and every table:

- the fixed-point kernels of `arm_math.h`: Newton reciprocals, the Q15 and Q31 PID controllers
  in their plain and DSP builds, the circular buffer loops, the Clarke and Park transforms and
  their inverses, linear and bilinear table interpolation, the packed 16-bit
  multiply-accumulates, the clips and `mult32x64`;
- the memory protection unit loaders `ARM_MPU_LoadEx` (Armv8-M) and `ARM_MPU_Load` (Armv7-M);
- interrupt priorities: packed words against byte registers, and the preemption/subpriority
  encoding;
- the portable bit loops `__CLZ` and `__RBIT`.

`dafny verify dfyconfig.toml` checks everything.

## Conventions

A C integer is an `int` in the range of its type. A right shift of a signed value is floor
division, and every cast that could lose something is an explicit wrap (`ToI32`, `ToU32`, ...);
the theorems say where it loses nothing. Signed overflow and the left shift of a negative value
are undefined in C, and a narrowing cast of a value that does not fit is implementation-defined;
where the code can reach them (the fallback in `PackedMac.MacFoldExact`,
`PidQ31.OutputQ31SaturatesIff`, negative arguments in `Reciprocal`, the casts in
`VectorTransforms`) the model takes the two's complement result.

Unsigned mask-and-shift code is written with `/`, `%` and `+`: masking with 2^n - 1 is `% 2^n`,
and or-ing into bits that are clear is addition (`ByteLanes.ClearedIsClear` shows that the bits
are clear where a byte is merged into a word). `rnr & ~(MPU_TYPE_RALIASES - 1)` is rounding down
to a multiple of the alias count, a power of two.

The DSP intrinsics are instructions in a build that has them, and are modelled from the
instructions: SMUAD keeps the low 32 bits of its sum, SMLALD and SMLALDX add both products at 64
bits (Armv7-M Architecture Reference Manual, DDI 0403, section A7.7). The C fallbacks of SMLALD
and SMLALDX belong to builds without the instructions and appear only in `PackedMac`.

Objects and loops of the original are classes and methods whose contracts equate the new state
with a specification function: `RecipQ31`, `PlainStep`, `DspStep`, `Stored`, `Scattered`,
`SetRegions`, `SetRows`, `PackedSet`, `ByteSet`. The lemmas are about those functions.
Straight-line code is a function.

The registers of the protection units are modelled from the architecture: on Armv8-M the plain
pair addresses the region in RNR and alias n the n-th region of the group of four RNR lies in
(Armv8-M Architecture Reference Manual, DDI 0553, chapter D1); on Armv7-M every alias is the
plain pair, and a base address with VALID set also loads RNR (Armv7-M Architecture Reference
Manual, DDI 0403, section B3.5).

## Where code and documentation disagree

The model follows the code.

- `clip_q63_to_q15` and `clip_q31_to_q7` test the wrong bits; the exact inputs on which they
  saturate are `FixedPoint.ClipQ63ToQ15IsSaturationIff` and
  `FixedPoint.ClipQ31ToQ7IsSaturationIff`, and the least positive inputs on which they fail are in
  `FixedPoint.ClipQ63ToQ15Fails` and `FixedPoint.ClipQ31ToQ7Fails`.
- The C fallback of the packed multiply-accumulates adds two products at 32 bits and so loses
  2^32 for a pair of largest products: `PackedMac.MacFoldIsDotIff`, `PackedMac.FallbackLosesWord`.
- `arm_pid_q31` is documented to saturate and wraps: `PidQ31.OutputQ31SaturatesIff` for a sample,
  `PidQ31.RunSaturatesIff` for a run, `PidQ31.OutputQ31Wraps`.
- `arm_clarke_q31` is documented to be free of overflow, but its second product is cast to 32
  bits before the saturating addition: `VectorTransforms.ClarkeSaturatesIff`,
  `VectorTransforms.ClarkeWraps`.
- `arm_park_q31` and its inverse are documented to be free of overflow too; they are saturated
  sums exactly when no product is that of two least values: `VectorTransforms.ParkSaturatesIff`,
  `VectorTransforms.InvParkSaturatesIff`, `VectorTransforms.ParkWraps`.
- The two builds of `arm_pid_q15` are one function in the documentation and differ when A0 and
  the sample are negative: `Pid.DspAccExact`, `Pid.BuildsAgreeOnStepIff`, `Pid.BuildsAgreeIff`,
  `Pid.BuildsDisagreeForNegativeA0`, `Pid.BuildsDrift`.
- The linear interpolation returns one unit less than a positive table entry at the entry
  itself, but not below zero or past the end; so it is monotone over all arguments only under
  the condition in `Interpolation.LookupMonotoneEverywhereIff` (`Interpolation.LookupStepsDown`).
- The bounds check of the bilinear interpolation is meant to keep its reads inside the table and
  admits the last row and column: `Interpolation.BoundsCheckSufficesIff`,
  `Interpolation.LastEntryHasNoNeighbours`.
- The comment in the circular loops asks for positive and negative increments; the update keeps
  every offset in the buffer exactly for increments from 0 to the length:
  `CircularBuffer.NextStaysInsideIff`, `CircularBuffer.NegativeStepLeavesBuffer`. The loops are
  modelled for every increment.
- A circular write stores its offset through a 16-bit cast, so the buffer is a FIFO exactly up
  to a length of 65536, for strides that move at all: `CircularBuffer.FifoFromIff`,
  `CircularBuffer.OffsetCastExactIff`, `CircularBuffer.CircularBufferIsFifoIff`,
  `CircularBuffer.LongBufferIsNotFifo`.
- A negative or zero argument of `arm_recip_q31` never gets a reciprocal, although the code
  has a branch for it: `Reciprocal.RecipQ31AccurateIff`, `Reciprocal.RecipQ31NonPositive`,
  `Reciprocal.MinusOneFailsQ31`. For `arm_recip_q15` a negative argument may get one with one
  table and not with another (`ReciprocalSign.MinusOneFails`, `ReciprocalSign.AccuracyDependsOnTable`); the arguments that
  get one with every good table are the positive ones: `ReciprocalSign.AccurateWithEveryTableIff`.

## Model

| member | source | states |
|---|---|---|
| `FixedPoint.CastsKeepLowBits` | MIMXRT1051xxxxB_Project/CMSIS/arm_math.h:589-635 | a cast changes a value only by a multiple of the size of its type |
| `FixedPoint.ClipIsSaturation` | MIMXRT1051xxxxB_Project/CMSIS/arm_math.h:589-624 | the Q63 to Q31 and Q31 to Q15 clips are saturation, for every input |
| `FixedPoint.ClipQ63ToQ15IsSaturationIff` | MIMXRT1051xxxxB_Project/CMSIS/arm_math.h:599-604 | the Q63 to Q15 clip saturates exactly outside two bands of inputs |
| `FixedPoint.ClipQ63ToQ15Fails` | MIMXRT1051xxxxB_Project/CMSIS/arm_math.h:599-604 | the least positive failing input gives the least value instead of the greatest |
| `FixedPoint.ClipQ31ToQ7IsSaturationIff` | MIMXRT1051xxxxB_Project/CMSIS/arm_math.h:609-614 | exactly which inputs the Q31 to Q7 clip saturates |
| `FixedPoint.ClipQ31ToQ7Fails` | MIMXRT1051xxxxB_Project/CMSIS/arm_math.h:609-614 | the least positive failing input |
| `FixedPoint.Mult32x64IsExact` | MIMXRT1051xxxxB_Project/CMSIS/arm_math.h:629-635 | the split 64 by 32 bit product is the floor of the exact product over 2^32, with no partial product wrapping |
| `FixedPoint.SsatIsClamp` | MIMXRT1051xxxxB_Project/CMSIS/cmsis_gcc.h:1315-1331 | `__SSAT` is the clamp to a signed range for all widths from 1 to 32, and the value itself for others |
| `BitLoops.Rbit` | MIMXRT1051xxxxB_Project/CMSIS/cmsis_gcc.h:989-1000 | the loop returns the reversed word although its accumulator carries unreversed bits until the last shift |
| `BitLoops.ReverseMirrors` | MIMXRT1051xxxxB_Project/CMSIS/cmsis_iccarm.h:516-527 | bit i of the reversal is bit n - 1 - i of the argument |
| `BitLoops.ReverseIsInvolution` | MIMXRT1051xxxxB_Project/CMSIS/cmsis_iccarm.h:516-527 | reversing twice gives the argument back |
| `BitLoops.LeadingZeros` | MIMXRT1051xxxxB_Project/CMSIS/cmsis_iccarm.h:501-514 | c leading zeros mean 2^(31-c) <= v < 2^(32-c), and 32 of them mean v is zero |
| `BitLoops.LeadingZerosUnique` | MIMXRT1051xxxxB_Project/CMSIS/cmsis_iccarm.h:501-514 | only one count satisfies that |
| `BitLoops.Clz` | MIMXRT1051xxxxB_Project/CMSIS/cmsis_iccarm.h:501-514 | the single-bit mask loop terminates with the number of leading zeros, for every word |
| `Reciprocal.RoundStaysBelow` | MIMXRT1051xxxxB_Project/CMSIS/arm_math.h:671-678 | a Newton round with both truncations never overshoots the reciprocal, whatever the estimate, and its temporary never underflows |
| `Reciprocal.RoundSquaresError` | MIMXRT1051xxxxB_Project/CMSIS/arm_math.h:671-678 | a round squares the relative error up to two truncation terms |
| `Reciprocal.ArmRecipQ31` | MIMXRT1051xxxxB_Project/CMSIS/arm_math.h:640-684 | the method with its loop computes the specified result and returns one more than the normalisation shift |
| `Reciprocal.NormalizeQ31` | MIMXRT1051xxxxB_Project/CMSIS/arm_math.h:650-660 | the shift by the leading zeros brings every positive argument into [2^30, 2^31) without wrapping |
| `Reciprocal.RoundQ31Value` | MIMXRT1051xxxxB_Project/CMSIS/arm_math.h:671-678 | a pass for any argument and any estimate: the difference is taken modulo 2^32 and the result saturated |
| `Reciprocal.BucketOfAnyQ31` | MIMXRT1051xxxxB_Project/CMSIS/arm_math.h:662-667 | the seed for any argument is the entry for its upper bits, modulo 64 |
| `Reciprocal.RoundQ31IsExact` | MIMXRT1051xxxxB_Project/CMSIS/arm_math.h:671-678 | for positive arguments no cast of a round loses anything and the clip never saturates |
| `Reciprocal.EveryPassStaysBelowQ31` | MIMXRT1051xxxxB_Project/CMSIS/arm_math.h:669-678 | after any number of passes from any non-negative table entry the estimate is below the reciprocal |
| `Reciprocal.RecipQ31IsTwoRounds` | MIMXRT1051xxxxB_Project/CMSIS/arm_math.h:640-684 | for a positive argument the result is exactly two unwrapped rounds from the entry for the normalised argument |
| `Reciprocal.RecipQ31Accurate` | MIMXRT1051xxxxB_Project/CMSIS/arm_math.h:640-684 | a seed within 2^55 of 2^61 gives 0 <= 2^61 - in * 2^signBits * dst <= 2^37 + 2^32 + 5 * 2^20 |
| `Reciprocal.RecipQ31AccurateIff` | MIMXRT1051xxxxB_Project/CMSIS/arm_math.h:640-684 | with a good table that accuracy is reached exactly for positive arguments |
| `Reciprocal.RecipQ31NonPositive` | MIMXRT1051xxxxB_Project/CMSIS/arm_math.h:640-684 | for every other argument and every good table the result is 0x7FFFFFFF |
| `Reciprocal.NormalizeNonPositiveQ31` | MIMXRT1051xxxxB_Project/CMSIS/arm_math.h:655-660 | a negative argument is shifted as its absolute value is, and zero by 31 |
| `Reciprocal.MinusOneFailsQ31` | MIMXRT1051xxxxB_Project/CMSIS/arm_math.h:650-660 | the argument -1 is one for which it is not |
| `Reciprocal.MidpointTableIsGoodQ31` | MIMXRT1051xxxxB_Project/CMSIS/arm_math.h:662-667 | good tables of 64 entries exist: the reciprocals of the bucket midpoints |
| `Reciprocal.ArmRecipQ15` | MIMXRT1051xxxxB_Project/CMSIS/arm_math.h:690-736 | the Q15 method with its loop and unsigned product computes the specified result |
| `Reciprocal.NormalizeQ15` | MIMXRT1051xxxxB_Project/CMSIS/arm_math.h:701-711 | every positive argument is brought into [2^14, 2^15) without wrapping |
| `Reciprocal.RoundQ15IsExact` | MIMXRT1051xxxxB_Project/CMSIS/arm_math.h:721-729 | for positive arguments the unsigned product does not wrap and the unclipped cast does not truncate |
| `Reciprocal.EveryPassStaysBelowQ15` | MIMXRT1051xxxxB_Project/CMSIS/arm_math.h:719-729 | after any number of passes from any non-negative table entry the estimate is below the reciprocal |
| `ReciprocalSign.AnyRound` | MIMXRT1051xxxxB_Project/CMSIS/arm_math.h:721-729 | a pass for any normalised argument and any estimate is the exact one modulo 2^16 |
| `ReciprocalSign.BucketOfAny` | MIMXRT1051xxxxB_Project/CMSIS/arm_math.h:713-717 | the seed for any argument is the entry for its upper bits, modulo 64 |
| `ReciprocalSign.NormalizeNegative` | MIMXRT1051xxxxB_Project/CMSIS/arm_math.h:701-711 | a negative argument is normalised as its absolute value is |
| `Reciprocal.RecipQ15IsTwoRounds` | MIMXRT1051xxxxB_Project/CMSIS/arm_math.h:690-736 | for a positive argument the result is exactly two unwrapped rounds |
| `Reciprocal.RecipQ15Accurate` | MIMXRT1051xxxxB_Project/CMSIS/arm_math.h:690-736 | a seed within 2^23 of 2^29 gives 0 <= 2^29 - in * 2^signBits * dst <= 2^16 + 2^7 |
| `Reciprocal.BucketTableIsGoodQ15` | MIMXRT1051xxxxB_Project/CMSIS/arm_math.h:713-717 | good tables of 64 entries exist: the reciprocals of the bucket midpoints, or of points up to 0x60 from them |
| `ReciprocalSign.AccurateWithEveryTableIff` | MIMXRT1051xxxxB_Project/CMSIS/arm_math.h:690-736 | the accuracy 0 <= 2^29 - in * 2^signBits * dst <= 2^17 is reached with every good table exactly for positive arguments |
| `ReciprocalSign.AccurateWithUpperTableIff` | MIMXRT1051xxxxB_Project/CMSIS/arm_math.h:690-736 | one good table reaches it for no negative argument at all |
| `ReciprocalSign.AccuracyDependsOnTable` | MIMXRT1051xxxxB_Project/CMSIS/arm_math.h:690-736 | the midpoint table does reach it for -31479, so no condition on the argument alone decides it for every good table |
| `ReciprocalSign.MinusOneFails` | MIMXRT1051xxxxB_Project/CMSIS/arm_math.h:701-711 | with the midpoint table the result for -1 is the positive 28717 |
| `PackedMac.HalvesOfRead` | MIMXRT1051xxxxB_Project/CMSIS/arm_math.h:437-461 | the halves the intrinsics take from a little-endian two-sample load are the samples |
| `PackedMac.HalvesOfSignExtended` | MIMXRT1051xxxxB_Project/CMSIS/arm_math.h:4908 | the high half of a sign-extended 16-bit value is only its sign |
| `PackedMac.SmlaldStep` | MIMXRT1051xxxxB_Project/CMSIS/arm_math.h:999-1008 | one step adds both products modulo 2^64, less 2^32 when their 32-bit sum wraps |
| `PackedMac.SmlaldxStep` | MIMXRT1051xxxxB_Project/CMSIS/arm_math.h:1014-1023 | the same for the crossed products |
| `PackedMac.InstructionStep` | MIMXRT1051xxxxB_Project/CMSIS/cmsis_gcc.h:1938-1953 | one step of the instructions adds both products modulo 2^64 with no loss |
| `PackedMac.MacFoldExact` | MIMXRT1051xxxxB_Project/CMSIS/arm_math.h:999-1023 | over whole arrays the fold is the scalar (or pairwise crossed) dot product modulo 2^64; with the fallback, less 2^32 for each wrapping pair |
| `PackedMac.DotIsScalar` | MIMXRT1051xxxxB_Project/CMSIS/arm_math.h:999-1023 | that dot product is the sum over single samples, with the samples of each word of one array exchanged if crossed |
| `PackedMac.MacFoldIsDotIff` | MIMXRT1051xxxxB_Project/CMSIS/arm_math.h:999-1023 | it is the dot product always in the DSP build, and with the fallback exactly when no pair has both products equal to 2^30 |
| `PackedMac.FallbackLosesWord` | MIMXRT1051xxxxB_Project/CMSIS/arm_math.h:999-1008 | two words of least samples, on which the fallback and the instruction differ |
| `Pid.PlainStepExact` | MIMXRT1051xxxxB_Project/CMSIS/arm_math.h:4915-4934 | no intermediate overflows; the output is the saturated sum of the last output and the floor of the increment |
| `Pid.DspAccExact` | MIMXRT1051xxxxB_Project/CMSIS/arm_math.h:4904-4911 | the DSP accumulator is the plain one plus exactly the product of the sign halves of A0 and the sample: 1 when both are negative |
| `Pid.PlainStepIsSum` | MIMXRT1051xxxxB_Project/CMSIS/arm_math.h:4915-4934 | the plain output as one formula of gains, samples and last output |
| `Pid.DspStepIsSum` | MIMXRT1051xxxxB_Project/CMSIS/arm_math.h:4904-4934 | the DSP output likewise |
| `Pid.BuildsAgreeOnStepIff` | MIMXRT1051xxxxB_Project/CMSIS/arm_math.h:4904-4934 | from a common state the builds produce the same state exactly when that 1 is absent or does not carry into an unsaturated output |
| `Pid.BuildsDifferByOne` | MIMXRT1051xxxxB_Project/CMSIS/arm_math.h:4904-4934 | from a common state the outputs differ by at most one unit, the DSP one being larger |
| `Pid.BuildsDrift` | MIMXRT1051xxxxB_Project/CMSIS/arm_math.h:4904-4934 | over every run from every state both builds remember the same samples, and the DSP output is ahead by at most the number of negative samples, or not at all if A0 >= 0 |
| `Pid.DriftReached` | MIMXRT1051xxxxB_Project/CMSIS/arm_math.h:4904-4934 | that bound is reached: for A0 = -1 and n samples of -32767 the plain output stays 0 and the DSP output is n |
| `Pid.BuildsAgreeIff` | MIMXRT1051xxxxB_Project/CMSIS/arm_math.h:4904-4934 | state and output agree over every run from reset exactly for these gains: A0 >= 0, or all three even |
| `Pid.DisagreeingRun` | MIMXRT1051xxxxB_Project/CMSIS/arm_math.h:4904-4934 | for any other gains a run of at most three samples from reset tells the builds apart |
| `Pid.BuildsAgreeOnRuns` | MIMXRT1051xxxxB_Project/CMSIS/arm_math.h:4904-4934 | for those gains state and output agree over every run from every state |
| `Pid.BuildsDisagreeForNegativeA0` | MIMXRT1051xxxxB_Project/CMSIS/arm_math.h:4908 | a run of one sample from reset that tells the builds apart for A0 = -1 |
| `Pid.TracksPositional` | MIMXRT1051xxxxB_Project/CMSIS/arm_math.h:4762-4768 | the increments telescope: over every unsaturated run from reset the output is the positional controller's less a rounding loss below one unit per sample |
| `Pid.RunRemembersSamples` | MIMXRT1051xxxxB_Project/CMSIS/arm_math.h:4927-4930 | the state always holds the last two samples |
| `PidQ31.OutputQ31SaturatesIff` | MIMXRT1051xxxxB_Project/CMSIS/arm_math.h:4845-4877 | the Q31 output is the exact sum wrapped to 32 bits, and when that equals the documented saturation |
| `PidQ31.OutputQ31Wraps` | MIMXRT1051xxxxB_Project/CMSIS/arm_math.h:4845-4877 | an input one unit above full scale, for which it is the least value |
| `PidQ31.RunIsWrappedTotal` | MIMXRT1051xxxxB_Project/CMSIS/arm_math.h:4851-4877 | after every run from reset the output is the unbounded sum of the rounded-down increments, taken modulo 2^32 once, whatever overflowed on the way |
| `PidQ31.TotalTracksPositional` | MIMXRT1051xxxxB_Project/CMSIS/arm_math.h:4762-4768 | that sum is the positional controller less a loss below one unit per sample |
| `PidQ31.TracksPositionalQ31` | MIMXRT1051xxxxB_Project/CMSIS/arm_math.h:4762-4768 | so the output is that sum exactly when the sum fits 32 bits, and follows the positional controller whenever that fits, even after earlier overflows |
| `PidQ31.RunSaturatesIff` | MIMXRT1051xxxxB_Project/CMSIS/arm_math.h:4845-4877 | all outputs of a run are the documented saturated ones exactly when every sum of the documented controller fits or wraps to the limit |
| `PidQ31.InstanceQ31.Process` | MIMXRT1051xxxxB_Project/CMSIS/arm_math.h:4851-4877 | the method updates the state array as the step function says |
| `Pid.InstanceQ15.Process` | MIMXRT1051xxxxB_Project/CMSIS/arm_math.h:4897-4934 | the plain method updates the state array as the step function says |
| `Pid.InstanceQ15Dsp.Process` | MIMXRT1051xxxxB_Project/CMSIS/arm_math.h:4897-4934 | the DSP method, with A1 and A2 in one word, does likewise |
| `CircularBuffer.CircularWrite` | MIMXRT1051xxxxB_Project/CMSIS/arm_math.h:5891-5929 | for every increment whose accesses stay inside the array, the loop stores the gathered block at the offsets reached in turn and stores the next offset modulo 2^16 |
| `CircularBuffer.GatheredAt` | MIMXRT1051xxxxB_Project/CMSIS/arm_math.h:5909-5914 | sample k of the gathered block is the source sample at start + k * srcInc |
| `CircularBuffer.LastStoreWins` | MIMXRT1051xxxxB_Project/CMSIS/arm_math.h:5909-5925 | for any increment a position holds the last sample stored there |
| `CircularBuffer.UnstoredKept` | MIMXRT1051xxxxB_Project/CMSIS/arm_math.h:5909-5925 | and one where nothing is stored is unchanged |
| `CircularBuffer.OffsetRunsOff` | MIMXRT1051xxxxB_Project/CMSIS/arm_math.h:5917-5920 | for a negative increment, and for one above L, the offsets run off in a straight line |
| `CircularBuffer.CircularRead` | MIMXRT1051xxxxB_Project/CMSIS/arm_math.h:5935-5986 | likewise, the loop stores the samples found at those offsets through the wrapping destination pointer and leaves the buffer alone |
| `CircularBuffer.SlotNext` | MIMXRT1051xxxxB_Project/CMSIS/arm_math.h:5917-5920 | for increments from 0 to L one conditional subtraction keeps the offset equal to (start + k * inc) mod L |
| `CircularBuffer.NextStaysInsideIff` | MIMXRT1051xxxxB_Project/CMSIS/arm_math.h:5917-5920 | it keeps every offset of the buffer in the buffer exactly for those increments |
| `CircularBuffer.NegativeStepLeavesBuffer` | MIMXRT1051xxxxB_Project/CMSIS/arm_math.h:5917-5920 | stepping back from slot 0 of 4 leaves the buffer |
| `CircularBuffer.OffsetIsSlot` | MIMXRT1051xxxxB_Project/CMSIS/arm_math.h:5909-5925 | for those increments every offset the loop reaches is the slot (start + k * inc) mod L |
| `CircularBuffer.StoredIsWritten` | MIMXRT1051xxxxB_Project/CMSIS/arm_math.h:5909-5925 | so a write never leaves the array and is the strided write |
| `CircularBuffer.LoadedIsBlockRead` | MIMXRT1051xxxxB_Project/CMSIS/arm_math.h:5957-5980 | and a read never leaves it and is the strided read |
| `CircularBuffer.UntouchedSlotsKept` | MIMXRT1051xxxxB_Project/CMSIS/arm_math.h:5909-5925 | a slot no sample lands in is unchanged |
| `CircularBuffer.LastSampleWins` | MIMXRT1051xxxxB_Project/CMSIS/arm_math.h:5909-5925 | a slot holds the last sample that landed in it |
| `CircularBuffer.WritesCompose` | MIMXRT1051xxxxB_Project/CMSIS/arm_math.h:5891-5929 | writing two blocks in turn is writing their concatenation |
| `CircularBuffer.ScatteredContiguously` | MIMXRT1051xxxxB_Project/CMSIS/arm_math.h:5957-5968 | with step 1 and room the destination receives the block in order |
| `CircularBuffer.TargetStraight` | MIMXRT1051xxxxB_Project/CMSIS/arm_math.h:5962-5968 | for any step the destination pointer is start + k * dstInc as long as no step lands on the end |
| `CircularBuffer.TargetRestarts` | MIMXRT1051xxxxB_Project/CMSIS/arm_math.h:5962-5968 | and starts over at the base when one does |
| `CircularBuffer.LastTargetWins` | MIMXRT1051xxxxB_Project/CMSIS/arm_math.h:5957-5968 | a destination position that is reached holds the last sample stored there |
| `CircularBuffer.UntargetedKept` | MIMXRT1051xxxxB_Project/CMSIS/arm_math.h:5957-5968 | and all others are unchanged |
| `CircularBuffer.TargetCircular` | MIMXRT1051xxxxB_Project/CMSIS/arm_math.h:5962-5968 | with a step that divides the length and the way to the end the destination is itself used as a circular buffer |
| `CircularBuffer.SameSlotIff` | MIMXRT1051xxxxB_Project/CMSIS/arm_math.h:5917-5920 | two samples share a slot exactly when their distance is a multiple of L / gcd(L, inc) |
| `CircularBuffer.ReadBackIff` | MIMXRT1051xxxxB_Project/CMSIS/arm_math.h:5891-5986 | reading a block back with the same start and stride returns it exactly when it repeats with that period |
| `CircularBuffer.EveryBlockReadBackIff` | MIMXRT1051xxxxB_Project/CMSIS/arm_math.h:5891-5986 | for samples of any type with two values, every block of length n comes back exactly when n <= L / gcd(L, inc) |
| `CircularBuffer.CircularBufferIsFifo` | MIMXRT1051xxxxB_Project/CMSIS/arm_math.h:5891-5986 | for every stride, with offsets that survive the 16-bit store and one period of slots as capacity, every disciplined interleaving of block writes and reads reads out a prefix of what was written, in order |
| `CircularBuffer.FifoFromIff` | MIMXRT1051xxxxB_Project/CMSIS/arm_math.h:5891-5986 | from given equal offsets that is so over all disciplined interleavings exactly when every offset the stride can reach survives the store |
| `CircularBuffer.CapacityIff` | MIMXRT1051xxxxB_Project/CMSIS/arm_math.h:5891-5986 | and for a capacity exactly when it is at most L / gcd(L, inc) |
| `CircularBuffer.ApplyIsLoops` | MIMXRT1051xxxxB_Project/CMSIS/arm_math.h:5891-5986 | the operations of these runs are what the write and read loops do |
| `CircularBuffer.CircularBufferIsFifoIff` | MIMXRT1051xxxxB_Project/CMSIS/arm_math.h:5891-5986 | over all equal offsets it is a FIFO exactly when L <= 65536, or inc is 0 or L |
| `CircularBuffer.LongBufferIsNotFifo` | MIMXRT1051xxxxB_Project/CMSIS/arm_math.h:5928 | a disciplined run of three operations from offset 0 with stride 1 that reads the wrong sample in any longer buffer |
| `CircularBuffer.WriteKeepsFifo` | MIMXRT1051xxxxB_Project/CMSIS/arm_math.h:5891-5929 | a write that fits keeps all outstanding samples in their slots |
| `CircularBuffer.ReadKeepsFifo` | MIMXRT1051xxxxB_Project/CMSIS/arm_math.h:5935-5986 | a read not ahead of the writes returns the oldest outstanding samples |
| `CircularBuffer.OffsetCastExactIff` | MIMXRT1051xxxxB_Project/CMSIS/arm_math.h:5928 | the 16-bit store of the offset is harmless from every offset exactly when L <= 65536, or inc is 0 or L |
| `VectorTransforms.QAddSaturates` | MIMXRT1051xxxxB_Project/CMSIS/arm_math.h:935-951 | `__QADD` and `__QSUB` are saturating |
| `VectorTransforms.ClarkeSaturatesIff` | MIMXRT1051xxxxB_Project/CMSIS/arm_math.h:5033-5052 | the result is the saturated sum exactly for the Ib whose product fits 32 bits |
| `VectorTransforms.ClarkeExact` | MIMXRT1051xxxxB_Project/CMSIS/arm_math.h:5033-5052 | the result for every input: outside that range the second product is out by 2^32 |
| `VectorTransforms.ClarkeWraps` | MIMXRT1051xxxxB_Project/CMSIS/arm_math.h:5048-5051 | the first Ib above that range turns the largest beta into the least |
| `VectorTransforms.ClarkeIsScaledSum` | MIMXRT1051xxxxB_Project/CMSIS/arm_math.h:5033-5052 | beta is (Ia + 2 Ib) / sqrt(3) in the scale of the constants, rounded down by less than two units |
| `VectorTransforms.InvClarkeSaturates` | MIMXRT1051xxxxB_Project/CMSIS/arm_math.h:5119-5138 | for every input the inverse gives Ialpha and the saturated difference of the two exact products |
| `VectorTransforms.InvClarkeIsScaledDifference` | MIMXRT1051xxxxB_Project/CMSIS/arm_math.h:5119-5138 | where the difference fits it is (sqrt(3) Ibeta - Ialpha) / 2 in the scale of the constants to within one unit |
| `VectorTransforms.ClarkeRoundTrip` | MIMXRT1051xxxxB_Project/CMSIS/arm_math.h:5119-5138 | without wrap or saturation, Clarke and back gives Ia exactly and Ib to within -3 and +1 |
| `VectorTransforms.ClarkeRoundTripHalfScale` | MIMXRT1051xxxxB_Project/CMSIS/arm_math.h:5119-5138 | in particular for all currents up to 2^30 |
| `VectorTransforms.ParkRotates` | MIMXRT1051xxxxB_Project/CMSIS/arm_math.h:5223-5252 | the forward transform is the rotation by minus the angle to within two units |
| `VectorTransforms.InvParkRotates` | MIMXRT1051xxxxB_Project/CMSIS/arm_math.h:5326-5355 | the inverse transform is the rotation by the angle to within two units |
| `VectorTransforms.ScaledExactIff` | MIMXRT1051xxxxB_Project/CMSIS/arm_math.h:5235-5245 | a product cast to 32 bits is the floor of the exact one unless both factors are least |
| `VectorTransforms.ParkExact` | MIMXRT1051xxxxB_Project/CMSIS/arm_math.h:5223-5355 | what both transforms compute for every input |
| `VectorTransforms.ParkSaturatesIff` | MIMXRT1051xxxxB_Project/CMSIS/arm_math.h:5223-5252 | both outputs are the saturated sums of the truncated products exactly when none of the four products is that of two least values |
| `VectorTransforms.InvParkSaturatesIff` | MIMXRT1051xxxxB_Project/CMSIS/arm_math.h:5326-5355 | the same for the inverse |
| `VectorTransforms.ParkWraps` | MIMXRT1051xxxxB_Project/CMSIS/arm_math.h:5235-5251 | minus one times minus one gives minus one |
| `VectorTransforms.ParkRoundTrip` | MIMXRT1051xxxxB_Project/CMSIS/arm_math.h:5223-5355 | whenever no product wraps and no addition saturates, both components come back scaled by cos^2 + sin^2 to within five units |
| `VectorTransforms.ParkRoundTripSmall` | MIMXRT1051xxxxB_Project/CMSIS/arm_math.h:5223-5355 | that is so for any sine and cosine when the components add up to less than 2^30 |
| `VectorTransforms.ParkRoundTripOnCircle` | MIMXRT1051xxxxB_Project/CMSIS/arm_math.h:5223-5355 | and for a genuine sine and cosine whenever the vector is eight units shorter than full scale |
| `Interpolation.LinearQ15IsLookup` | MIMXRT1051xxxxB_Project/CMSIS/arm_math.h:5525-5567 | no intermediate of the Q15 version overflows |
| `Interpolation.LinearQ7IsLookup` | MIMXRT1051xxxxB_Project/CMSIS/arm_math.h:5582-5624 | the 32-bit Q7 version computes the same function of the table |
| `Interpolation.LinearValues` | MIMXRT1051xxxxB_Project/CMSIS/arm_math.h:5525-5624 | both formats for every table and argument: the first entry below zero, the last from the last point on, the weighted mean of two neighbours between |
| `Interpolation.LookupBounds` | MIMXRT1051xxxxB_Project/CMSIS/arm_math.h:5548-5565 | every result lies within its cell, down to one unit below |
| `Interpolation.LookupFollowsLine` | MIMXRT1051xxxxB_Project/CMSIS/arm_math.h:5548-5565 | every result is the point on the straight line to within little more than one unit |
| `Interpolation.BlendEnds` | MIMXRT1051xxxxB_Project/CMSIS/arm_math.h:5557-5563 | both ends of a cell give the entry there, or one less if it is positive |
| `Interpolation.LookupMonotone` | MIMXRT1051xxxxB_Project/CMSIS/arm_math.h:5525-5567 | a nondecreasing table gives a nondecreasing function of all x >= 0, across cells and into the tail |
| `Interpolation.LookupMonotoneEverywhereIff` | MIMXRT1051xxxxB_Project/CMSIS/arm_math.h:5538-5547 | over all x it is nondecreasing exactly when there is one entry or the first is not positive |
| `Interpolation.LookupStepsDown` | MIMXRT1051xxxxB_Project/CMSIS/arm_math.h:5538-5565 | with the constant table 1, 1 it steps down at zero |
| `Interpolation.WeightedSumBounds` | MIMXRT1051xxxxB_Project/CMSIS/arm_math.h:7042-7060 | the four weights add up to (2^20 - 1)^2, so the sum lies between the scaled least and greatest neighbour |
| `Interpolation.WeightedSumCorners` | MIMXRT1051xxxxB_Project/CMSIS/arm_math.h:6964-7060 | at the corners of the cell each neighbour has all the weight |
| `Interpolation.AdmittedIff` | MIMXRT1051xxxxB_Project/CMSIS/arm_math.h:6936-6953 | the bounds check admits exactly 0 <= X < rows * 2^20 and 0 <= Y < columns * 2^20 |
| `Interpolation.BoundsCheckSufficesIff` | MIMXRT1051xxxxB_Project/CMSIS/arm_math.h:6955-6978 | in a memory of size entries, rows and columns being cut to 2048, the bounds check keeps all four reads inside for every point exactly when rows + width * columns < size |
| `Interpolation.LastEntryHasNoNeighbours` | MIMXRT1051xxxxB_Project/CMSIS/arm_math.h:6955-6978 | a table of two by two whose last point is admitted and has no neighbours |
| `Interpolation.BilinearQ15Bounds` | MIMXRT1051xxxxB_Project/CMSIS/arm_math.h:6926-6994 | for every X in [0, rows * 2^20) and Y in [0, columns * 2^20) whose four reads exist in memory nothing overflows and the result is the bilinear mean to within one unit and lies within the four neighbours, down to one unit below; for every other point it is zero |
| `Interpolation.BilinearQ7Bounds` | MIMXRT1051xxxxB_Project/CMSIS/arm_math.h:7004-7068 | the same for Q7, where the result is the rounded-down mean itself |
| `MpuV8.Mpu.SetRegionEx` | MIMXRT1051xxxxB_Project/CMSIS/mpu_armv8.h:249-254 | sets one region |
| `MpuV8.Mpu.OrderedMemcpy` | MIMXRT1051xxxxB_Project/CMSIS/mpu_armv8.h:283-290 | stores the words of a table one by one into the register window |
| `MpuV8.Mpu.LoadEx` | MIMXRT1051xxxxB_Project/CMSIS/mpu_armv8.h:298-321 | for one alias or four, any first region and any table that fits, equals assigning the rows one after the other, never storing outside the window; RNR is left at the group of the last row |
| `MpuV8.StoreWordsSetRegions` | MIMXRT1051xxxxB_Project/CMSIS/core_armv81mml.h:1544-1567 | storing whole rows into the alias window assigns consecutive regions |
| `MpuV8.SetRegionsPointwise` | MIMXRT1051xxxxB_Project/CMSIS/mpu_armv8.h:292-297 | region rnr + i holds row i and every other region is unchanged |
| `MpuV8.SetRegionsSplit` | MIMXRT1051xxxxB_Project/CMSIS/mpu_armv8.h:309-318 | loading a table in two parts is loading it at once |
| `MpuV8.SetRegionsCommute` | MIMXRT1051xxxxB_Project/CMSIS/mpu_armv8.h:292-297 | loads of disjoint ranges can be exchanged |
| `MpuV8.SetMemAttrEx` | MIMXRT1051xxxxB_Project/CMSIS/mpu_armv8.h:182-193 | one byte of one attribute register is replaced and the other seven are kept, an index above 7 changes nothing |
| `MpuV8.AttributeIsByte` | MIMXRT1051xxxxB_Project/CMSIS/mpu_armv8.h:184-192 | attribute idx is byte idx % 4 of register idx / 4 |
| `MpuV7.RbarFields` | MIMXRT1051xxxxB_Project/CMSIS/mpu_armv7.h:75-78 | a value built by ARM_MPU_RBAR is valid and yields its region and base back |
| `MpuV7.Mpu.SetRegion` | MIMXRT1051xxxxB_Project/CMSIS/mpu_armv7.h:225-229 | sets the region the base address selects, or the current one |
| `MpuV7.Mpu.OrderedMemcpy` | MIMXRT1051xxxxB_Project/CMSIS/mpu_armv7.h:248-255 | stores the words of a table one by one into the register window |
| `MpuV7.Mpu.Load` | MIMXRT1051xxxxB_Project/CMSIS/mpu_armv7.h:261-270 | for any alias count equals setting the rows one by one, RNR included |
| `MpuV7.StoreWordsSetRows` | MIMXRT1051xxxxB_Project/CMSIS/mpu_armv7.h:261-270 | storing the words of rows through the aliases is setting the rows |
| `MpuV7.SetRowIs` | MIMXRT1051xxxxB_Project/CMSIS/mpu_armv7.h:225-229 | a row with VALID set goes to the region it names and selects it, any other to the selected region |
| `MpuV7.BuiltRowsNameRegion` | MIMXRT1051xxxxB_Project/CMSIS/mpu_armv7.h:75-78 | rows built by ARM_MPU_RBAR go to the region they name |
| `MpuV7.SetRowsPointwise` | MIMXRT1051xxxxB_Project/CMSIS/mpu_armv7.h:257-270 | whether or not rows carry a region number, each region holds the last row that goes to it, all others are unchanged, and the last row's region stays selected |
| `MpuV7.SetRowsContinue` | MIMXRT1051xxxxB_Project/CMSIS/mpu_armv7.h:264-268 | loading chunk by chunk is loading the table |
| `ByteLanes.LaneIsByte` | MIMXRT1051xxxxB_Project/CMSIS/core_armv8mbl.h:1451-1452 | byte `lane` is the word shifted down by 8 * lane, modulo 2^8 |
| `ByteLanes.LaneOfWithLane` | MIMXRT1051xxxxB_Project/CMSIS/core_armv8mbl.h:1451-1452 | the read-modify-write of a word replaces one byte and keeps the other three |
| `ByteLanes.ClearedIsClear` | MIMXRT1051xxxxB_Project/CMSIS/core_armv8mbl.h:1451-1452 | the byte or-ed into is zero |
| `NvicPriority.PackedNvic.SetPriority` | MIMXRT1051xxxxB_Project/CMSIS/core_armv8mbl.h:1447-1459 | replaces byte irqn % 4 of word irqn / 4, or of word (irqn % 16 - 8) / 4 for an exception, and keeps the other three |
| `NvicPriority.PackedSetWrites` | MIMXRT1051xxxxB_Project/CMSIS/core_armv8mbl.h:1447-1459 | the same of the specification, with every other word kept |
| `NvicPriority.PackedNvic.GetPriority` | MIMXRT1051xxxxB_Project/CMSIS/core_armv8mbl.h:1471-1482 | reads the priority from that byte of the word |
| `NvicPriority.PackedGetReads` | MIMXRT1051xxxxB_Project/CMSIS/core_armv8mbl.h:1471-1482 | the same of the specification |
| `NvicPriority.ByteNvic.SetPriority` | MIMXRT1051xxxxB_Project/CMSIS/core_armv81mml.h:2382-2392 | rewrites one byte register |
| `NvicPriority.ByteNvic.GetPriority` | MIMXRT1051xxxxB_Project/CMSIS/core_armv81mml.h:2404-2415 | reads one byte register |
| `NvicPriority.ByteSlots` | MIMXRT1051xxxxB_Project/CMSIS/core_armv81mml.h:2382-2415 | the register is number irqn, or irqn + 12 for an exception |
| `NvicPriority.IndicesInside` | MIMXRT1051xxxxB_Project/CMSIS/core_armv8mbl.h:1239-1241 | the index macros stay inside IPR and SHPR for every interrupt number |
| `NvicPriority.SameFieldIff` | MIMXRT1051xxxxB_Project/CMSIS/core_armv8mbl.h:1239-1241 | different interrupts use different bytes |
| `NvicPriority.PackedSetIndependent` | MIMXRT1051xxxxB_Project/CMSIS/core_armv8mbl.h:1447-1459 | setting one interrupt never disturbs another |
| `NvicPriority.GetAfterSet` | MIMXRT1051xxxxB_Project/CMSIS/core_armv8mbl.h:1447-1482 | a get returns the implemented bits of the last priority set for that interrupt |
| `NvicPriority.PackedRunRefinesByteRun` | MIMXRT1051xxxxB_Project/CMSIS/core_armv81mml.h:2382-2415 | over every sequence of set and get calls both register layouts return the same values, each word being four byte registers, lowest first |
| `NvicPriority.RefinesIff` | MIMXRT1051xxxxB_Project/CMSIS/core_armv81mml.h:2382-2415 | the words are so packed exactly when both hold the same byte for every interrupt |
| `NvicPriority.ResetRefines` | MIMXRT1051xxxxB_Project/CMSIS/core_armv8mbl.h:365-394 | the refinement holds for the reset registers |
| `NvicPriority.FieldWidths` | MIMXRT1051xxxxB_Project/CMSIS/core_armv81mml.h:2435-2436 | the two fields share all implemented bits, for every group and 1 to 8 bits |
| `NvicPriority.DecodeEncode` | MIMXRT1051xxxxB_Project/CMSIS/core_armv81mml.h:2429-2467 | decoding an encoding gives each field modulo its width |
| `NvicPriority.DecodeSplits` | MIMXRT1051xxxxB_Project/CMSIS/core_armv81mml.h:2456-2467 | decoding takes any priority apart into fields of the widths the group gives |
| `NvicPriority.BinaryPoint` | MIMXRT1051xxxxB_Project/CMSIS/core_armv81mml.h:2429-2442 | in the stored byte the preemption priority starts at bit group + 1, or above the unimplemented bits, and the subpriority lies below |
| `NvicPriority.EncodeClosedForm` | MIMXRT1051xxxxB_Project/CMSIS/core_armv81mml.h:2429-2442 | the encoding in closed form for every group and number of bits |
| `NvicPriority.EncodeKeepsOrder` | MIMXRT1051xxxxB_Project/CMSIS/core_armv81mml.h:2429-2442 | numeric order of encodings is lexicographic order of in-range pairs |
| `NvicPriority.EncodeSetGetDecode` | MIMXRT1051xxxxB_Project/CMSIS/core_armv81mml.h:2382-2467 | encode, set, get and decode in turn give each field modulo its width |

## Left out

- NormalizeQ31: the least 32-bit value (and for Q15 the least 16-bit value) is excluded everywhere in `Reciprocal`, because negating or shifting it is undefined in C.
- CircularWrite: the source block is a value, so a source that overlaps the circular buffer is not modelled; the destination of a read is required not to be the circular buffer.
- CircularBufferIsFifo: writing and reading use the same increment, from 0 to the length; for others the loops leave the buffer.
- BilinearQ15Bounds: reads of entries that do not exist in memory are not modelled; `BoundsCheckSufficesIff` says for which tables the code makes none.
- LoadEx: tables that run past the last region are not modelled, because the architecture leaves writes to unimplemented regions unpredictable.
- The contents of the reciprocal tables: the headers only declare them, so the theorems are about every table of a stated quality.
- Armv8-M and Armv7-M memory barriers, the enable and disable functions, and the non-secure duplicates of the loaders and priority functions.
- Routines `arm_math.h` only declares (filters, transforms, matrices, square roots), the floating-point variants, the Q31 interpolators, and the remaining SIMD intrinsics.
- Inline-assembly intrinsics, `__USAT`, `__ROR`, register bit definitions, ITM, SysTick and FPU probes: hardware access or one-line expressions.
- Board support files: fixed configuration.

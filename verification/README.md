# A verified model of GraphEngine's numeric and data-moving core

This project models the parts of GraphEngine whose correctness rests on arithmetic, on index
calculations or on interleavings, and proves what they compute for every input, every buffer or every
run.

- **Half precision** (`Half`, `HalfArithmetic`, `HalfRounding`, `HalfInteger`, `HalfFloat`, `Fp16`): the
  software binary16 of `fp16_t`. A pattern denotes an exact integer number of units of 2^-24. `Nearest`
  says, without mentioning any algorithm, that a pattern is the finite half closest to a rational number
  with ties to even (section 4.3.1 of IEEE 754-2008). Addition, subtraction, multiplication and the
  conversions from and to float, double and the integer types are imperative methods proved against it,
  for all operand patterns.
- **Thread pool** (`ThreadPool`): constructor, workers, committing clients and destructor as atomic steps
  of one state machine: stop flag, mutex, condition variable with spurious wake-ups, FIFO queue, idle
  counter. The theorems hold in every reachable state or over every run.
- **Constant-folding kernels** (`GatherV2`, `Pack`, `Concat`, `ReduceProd`, `DynamicStitch`): flat-buffer
  loops proved to implement their meaning on multi-dimensional indices (`Shape`), with all block copies in
  bounds (`Blocks`), and theorems that tie two kernels together.
- **Kernel store** (`KernelStore`) and **Base64** (`Base64`): writer and reader that undo each other.
- **Integer guards** (`IntGuards`): overflow tests and the two floor divisions.

Each file holds the module of its name (`Fp16.dfy` holds `Fp16Number`); `Wrappers`, `Powers` and `Blocks` are
shared.

Some properties one would expect do not hold of the code. For these the code is modelled as it is, and what
holds instead is proved for all inputs, as a condition that is met if and only if the property holds:
`HalfFloat.AssignMonotone`, `ThreadPool.FinishedAfterShutdown` (with `ThreadPool.AdmittedTaskCanBeLost`),
`GatherV2.GatherV2Kernel.Compute`, `Pack.CopyOutputData`, `ReduceProd.PrefixesFitExact`,
`ReduceProd.OutputFillsShape`, `IntGuards.FloorModDivExact`, `IntGuards.FloorModExact`,
`IntGuards.DivCalExact`, `KernelStore.ContainedExact`, `KernelStore.BuildableInEveryOrder`,
`KernelStore.KernelStore.Load`, `Base64.CanonicalExact`. `ReduceProd.OrderIrrelevant` gives data on which the
order of multiplications does not matter, and `ReduceProd.OrderMatters` shows that both of its conditions are
needed. `Fp16Number.SmallestInt32IsLost` is the one int32 that assignment gets wrong.

Where comments and code of the source differ, the code is followed: the thread pool's destructor does not
drain the queue, and the comparison of two patterns with exponent 31 is the order of one more binade.

## Model

| member | source | states |
|---|---|---|
| Half.HalfLayout | ge/common/fp16_t.h:139-148 | The bits of a pattern: sign, five exponent bits, ten fraction bits, and the value they denote (section 3.4 of IEEE 754-2008) |
| Half.RoundStep | ge/common/fp16_t.h:585-589 | One rounding of (m + t/q)*2^(e-1) picks the nearest finite half with ties to even, and leaves the finite halves exactly from 65520 on |
| Half.OverflowThreshold | ge/common/fp16_t.cc:67-76 | The rounded code stays finite exactly when the exact value is below 65520 |
| Half.NearestUnique | ge/common/fp16_t.h:585-589 | The specification determines the result: at most one code is nearest |
| Half.NearestMonotone | ge/common/fp16_t.h:585-589 | A larger exact value never rounds to a smaller half |
| Half.NearestExact | ge/common/fp16_t.h:585-589 | A value that is a half rounds to itself |
| Half.CodeMonotone | ge/common/fp16_t.h:585-589 | Patterns without sign are ordered like their values, across subnormals and binades |
| HalfArithmetic.RightShift | ge/common/fp16_t.h:541-549 | The bit-by-bit shift with sign extension is the floor of the quotient for every 32-bit word and every distance |
| HalfArithmetic.GetManSum | ge/common/fp16_t.h:557-576 | The sum of two signed mantissas after shifting down the one with the smaller exponent |
| HalfArithmetic.AlignExact | ge/common/fp16_t.cc:510-559 | Kept sum and dropped bits together are the exact sum |
| HalfArithmetic.SumSignBit | ge/common/fp16_t.cc:510-559 | The sign bit of the floored sum is the sign of the exact sum |
| HalfArithmetic.SumSignExact | ge/common/fp16_t.cc:510-559 | The sign of a sum is that of the exact value; a zero sum is negative only for two negative zeros |
| HalfArithmetic.Fp16AddCalVal | ge/common/fp16_t.cc:470-504 | Normalise loops and the single rounding keep mantissa, dropped bits and exponent equal to the exact magnitude and return its correctly rounded form |
| HalfArithmetic.AlignAndRound | ge/common/fp16_t.cc:540-558 | Alignment, the dropped word and the scaled case of a zero sum lead to the correctly rounded exact sum |
| HalfArithmetic.Fp16Add | ge/common/fp16_t.cc:510-559 | For all 2^32 pairs of patterns the result is the exact sum rounded to nearest even below 65520 and the signed 0x7FFF pattern from there on; the sign of zero sums is exact |
| HalfArithmetic.Fp16Sub | ge/common/fp16_t.cc:565-569 | The difference of any two patterns, correctly rounded |
| HalfArithmetic.Fp16Mul | ge/common/fp16_t.cc:575-628 | The product of any two patterns, subnormals included, correctly rounded: both normalise loops terminate and the trunc word never loses a bit |
| HalfArithmetic.ShiftRegister | ge/common/fp16_t.cc:601-612 | One more bit shifted into the trunc register, up to the 32nd, keeps it equal to the bits dropped so far |
| HalfRounding.RoundEvenIsNearest | ge/common/fp16_t.h:585-589 | Floor plus rounding decision is the nearest integer, ties to even, among all integers |
| HalfRounding.MaskForm | ge/common/fp16_t.cc:44-61 | The three mask tests decide like the exact comparison of the dropped part with one half |
| HalfRounding.WordForm | ge/common/fp16_t.cc:1026-1044 | So does the word of dropped bits shifted to the top |
| HalfRounding.RegisterHolds | ge/common/fp16_t.cc:601-606 | After any number of rounds up to 32 the bit-by-bit register holds exactly the kept mantissa and the dropped bits |
| HalfRounding.RoundingFormsAgree | ge/common/fp16_t.cc:44-61 | Mask test, bit-by-bit trunc register and masked trunc word give the same, nearest integer for every mantissa and every drop count 2..32 |
| HalfInteger.ShiftToUnits | ge/common/fp16_t.cc:164-213 | The shift loop of the integer conversions and exactly when it stops early |
| HalfInteger.UnitsRound | ge/common/fp16_t.cc:164-213 | Rounding what the loop leaves is rounding the value of the half |
| HalfInteger.Fp16ToInt8 | ge/common/fp16_t.cc:145-213 | clamp(round-to-even(value), -128, 127) for every pattern |
| HalfInteger.Fp16ToUInt8 | ge/common/fp16_t.cc:218-265 | clamp(round-to-even(value), 0, 255) for every pattern |
| HalfInteger.Fp16ToInt16 | ge/common/fp16_t.cc:272-338 | clamp(round-to-even(value), -32768, 32767) for every pattern |
| HalfInteger.Fp16ToUInt16 | ge/common/fp16_t.cc:343-381 | clamp(round-to-even(value), 0, 65535) for every pattern |
| HalfInteger.Fp16ToInt32 | ge/common/fp16_t.cc:386-426 | The rounded value of every finite half, the extreme integers for exponent 31 |
| HalfInteger.Fp16ToUInt32 | ge/common/fp16_t.cc:431-469 | The rounded value of every non-negative finite half, 0 below zero, the largest integer for exponent 31 |
| HalfInteger.GetManBitLength | ge/common/fp16_t.h:594-602 | The position of the highest set bit |
| HalfInteger.RoundLongWord | ge/common/fp16_t.cc:1026-1060 | Words of more than eleven bits: drop, round, carry and saturate to the nearest finite half |
| HalfInteger.SetValByWord | ge/common/fp16_t.cc:1018-1060 | Every positive 32-bit word becomes the nearest finite half, saturating at 65504 |
| HalfInteger.NearestAboveMax | ge/common/fp16_t.cc:1075-1122 | From 65520 on 65504 is the nearest finite half, so saturation is rounding |
| HalfFloat.SubnormalBranch | ge/common/fp16_t.cc:1123-1180 | Assignment in the subnormal range, carry into the first binade included, rounds correctly |
| HalfFloat.NormalBranch | ge/common/fp16_t.cc:1123-1180 | Assignment in the normal range, carry into the exponent included, rounds correctly |
| HalfFloat.TinyBranch | ge/common/fp16_t.cc:1123-1180 | Below the subnormals only values above half the smallest subnormal become it |
| HalfFloat.SaturationThreshold | ge/common/fp16_t.cc:1123-1180 | The exponent test for saturation is exactly magnitude 131072 |
| HalfFloat.DropBits | ge/common/fp16_t.cc:1123-1180 | Shifting out bits and adding one on the mask test is rounding to even |
| HalfFloat.DoubleLayout | ge/common/fp16_t.cc:1129-1134 | The bits of a double: sign, eleven exponent bits, 52 fraction bits, and the value they denote (section 3.4 of IEEE 754-2008) |
| HalfFloat.FloatLayout | ge/common/fp16_t.cc:829-834 | The bits of a float: sign, eight exponent bits, 23 fraction bits, and the value they denote |
| HalfFloat.Fp16ToDouble | ge/common/fp16_t.cc:112-138 | The double has exactly the value and sign of the half |
| HalfFloat.Fp16ToFloat | ge/common/fp16_t.cc:82-107 | The float has exactly the value and sign of the half |
| HalfFloat.RoundTrip | ge/common/fp16_t.cc:112-138 | Half to float or double and back is the identity on all finite halves; patterns with exponent 31 come back as 0x7FFF |
| HalfFloat.AssignMonotone | ge/common/fp16_t.cc:1123-1180 | Assignment is monotone on magnitudes if and only if the pair does not straddle the step at 131072 from 0x7FFF down to 65504 |
| Fp16Number.Fp16.AssignDouble | ge/common/fp16_t.cc:1123-1180 | Every double pattern: nearest half below 65520, 0x7FFF up to 131072, 65504 above |
| Fp16Number.Fp16.AssignFloat | ge/common/fp16_t.cc:825-875 | The same for every float pattern |
| Fp16Number.Fp16.AssignUInt32 | ge/common/fp16_t.cc:1075-1122 | Every uint32 becomes the nearest finite half |
| Fp16Number.Fp16.AssignInt32 | ge/common/fp16_t.cc:1061-1074 | Every int32 but the smallest becomes the nearest finite half with its sign; the smallest becomes 0xB800 |
| Fp16Number.Fp16.AddAssign | ge/common/fp16_t.cc:708-711 | The stored value becomes the correctly rounded sum |
| Fp16Number.Fp16.MulAssign | ge/common/fp16_t.cc:716-719 | The stored value becomes the correctly rounded product |
| Fp16Number.SmallestInt32IsLost | ge/common/fp16_t.cc:1061-1074 | What the smallest int32 becomes is -0.5 and not the nearest half |
| Fp16Number.IntegerMonotone | ge/common/fp16_t.cc:1075-1122 | Integer assignment is monotone, saturation included |
| Fp16Number.IntegerRoundTrip | ge/common/fp16_t.cc:386-426 | Integer to half and back is the identity if and only if the integer is representable, so up to 2048 |
| Fp16Number.LargeHalvesAreIntegers | ge/common/fp16_t.cc:1075-1122 | The half nearest to an integer above 2048 is an integer |
| Fp16Number.ComparisonIsValueOrder | ge/common/fp16_t.cc:726-815 | The field-by-field comparisons are the order of the exact values for all pairs, both zeros equal |
| Fp16Number.RoundedUnique | ge/common/fp16_t.cc:470-504 | Exact value and sign determine the resulting pattern |
| Fp16Number.AddMonotone | ge/common/fp16_t.cc:510-559 | Addition is monotone in an argument across signs, subnormals and overflow |
| Fp16Number.SubtractionExact | ge/common/fp16_t.cc:565-569 | Subtracting finite halves within a factor of two of each other is exact |
| ThreadPool.InvStep | ge/common/thread_pool.cc:29-77 | Every step of every process keeps the invariant over queue, mutex, counters, task positions and pending notifications |
| ThreadPool.ReachableInv | ge/common/thread_pool.cc:29-77 | The invariant holds after every run from construction on |
| ThreadPool.SafeCriticalSections | ge/common/thread_pool.cc:61-72 | No worker takes from an empty queue, and the mutex excludes workers and clients from each other |
| ThreadPool.NoLostWakeUp | ge/common/thread_pool.cc:57-77 | While running, if a worker waits then every queued task has its own worker heading for the queue or its own notification to come; so a non-empty queue has a worker that is not waiting or a client that owes a notification; after notify_all nobody waits |
| ThreadPool.IdleCounter | ge/common/thread_pool.cc:29-35 | The pool has the threads asked for, at least one; the idle counter is their number minus the busy ones and never wraps |
| ThreadPool.TasksConserved | ge/common/thread_pool.h:46-69 | Accepted = queued + held + running + finished, no task starts twice, every dequeued task is held or finished |
| ThreadPool.DequeueInCommitOrder | ge/common/thread_pool.cc:70-71 | The next task taken is the next one accepted |
| ThreadPool.PotentialDecreases | ge/common/thread_pool.cc:37-77 | After the stop flag every step but a refused commit lowers a potential |
| ThreadPool.ShutdownTerminates | ge/common/thread_pool.cc:37-54 | After the stop flag every schedule has a bounded number of steps |
| ThreadPool.ShutdownNotStuck | ge/common/thread_pool.cc:37-54 | Until the destructor has returned some step other than a spurious wake-up is possible |
| ThreadPool.WorkNotStuck | ge/common/thread_pool.cc:57-77 | A running pool with a queued task can always move by itself |
| ThreadPool.RunningStepSpends | ge/common/thread_pool.cc:57-77 | While the pool runs, every step of a thread or client lowers a potential, except that a new commit and a spurious wake-up may raise it by a fixed amount |
| ThreadPool.RunningIsBounded | ge/common/thread_pool.cc:57-77 | The length of every run of a running pool is bounded by the work at its beginning, its new commits and its spurious wake-ups |
| ThreadPool.RestMeansFinished | ge/common/thread_pool.cc:57-77 | A running pool in which no thread or client can carry on has an empty queue, and every accepted task has finished |
| ThreadPool.EveryTaskRuns | ge/common/thread_pool.cc:57-77 | Under every schedule a running pool left to itself stops after a bounded number of steps, and then every accepted task has finished |
| ThreadPool.UnfinishedMeansWork | ge/common/thread_pool.cc:57-77 | As long as an accepted task has not finished some thread or client can carry on |
| ThreadPool.JoinedMeansFinished | ge/common/thread_pool.cc:44-54 | When the joins have returned all threads are gone and exactly the dequeued tasks have finished, each once |
| ThreadPool.LateCounts | ge/common/thread_pool.cc:57-77 | Tasks dequeued since the stop flag are what the per-thread late counters add up to |
| ThreadPool.StopAbandonsSurplus | ge/common/thread_pool.cc:37-54 | After the stop flag at most one task per thread is dequeued, and a queue longer than the number of threads still looking for a task is never finished |
| ThreadPool.SeekStep | ge/common/thread_pool.cc:37-77 | After the stop flag no step lowers the number of tasks sure to finish or raises the number that may |
| ThreadPool.FinishedAfterShutdown | ge/common/thread_pool.cc:37-77 | Over every run to the end of the destructor: bounds on the finished tasks; without an admitted client their exact number, and that every accepted task finishes if and only if the tasks landing in the queue do not outnumber the threads still looking for one |
| ThreadPool.AdmittedTaskCanBeLost | ge/common/thread_pool.h:46-69 | From every state with a client between the flag test and the mutex some run ends with its task accepted and no thread left to run it |
| ThreadPool.CleanShutdown | ge/common/thread_pool.cc:37-54 | In particular an empty queue and no commit under way lose no accepted task |
| ThreadPool.AcceptedTaskAbandoned | ge/common/thread_pool.h:46-69 | A reachable run in which a committed task never starts |
| IntGuards.TruncDivExact | ge/common/util.cc:326-349 | Division as the guards use it: the remainder is smaller than the divisor and has the sign of the dividend |
| IntGuards.MulFitsExact | ge/common/util.cc:326-349 | The nested quotient tests accept exactly the products in range, for every width |
| IntGuards.Int64Exact | ge/common/util.cc:326-349 | CheckInt64MulOverflow is true if and only if the product fits int64 |
| IntGuards.Int32Exact | ge/common/math/math_util.h:388-411 | CheckInt32MulOverflow succeeds if and only if the product fits int32 |
| IntGuards.DivCalExact | ge/host_kernels/floordiv_kernel.cc:112-121 | DivCal is the mathematical floor if and only if that floor fits int32 and the element type, for all operands of equal sign and for operands of different sign whose absolute values and sum are in range |
| IntGuards.FloorModDivExact | ge/host_kernels/floormod_kernel.cc:38-48 | The other formula is the floor if and only if it is not zero divided by something below -1; there it gives -1 |
| IntGuards.FloorModExact | ge/host_kernels/floormod_kernel.cc:65-74 | For all int32 operands, the smallest one included, the result is the floor remainder with the sign of the divisor if and only if it is not zero modulo something below -1 |
| IntGuards.WrappedSteps | ge/host_kernels/floormod_kernel.cc:38-48 | Wrapping at every step of the formula is wrapping its exact result, for all int32 operands |
| Shape.CalcStride | ge/host_kernels/gather_v2_kernel.cc:216-233 | Succeeds if and only if sizes match and all products fit int64, and then stride i is the product of the dimensions after i |
| Shape.CalcDims | ge/host_kernels/kernel_utils.h:80-106 | All dimensions and their exact product, or nothing at the first zero, or an error, each exactly characterised |
| Shape.IntProductStep | ge/host_kernels/kernel_utils.h:80-106 | The count is one for no dimension and gains one factor per dimension |
| Shape.Unflatten | ge/host_kernels/gather_v2_kernel.cc:216-233 | Every flat position has a multi-dimensional index |
| Shape.FlatInjective | ge/host_kernels/gather_v2_kernel.cc:216-233 | Only one index has a given flat position |
| Blocks.BoundedCopy | ge/host_kernels/dynamic_stitch_kernel.cc:211-217 | A copy is refused exactly when the count is above the bound or the bound is zero or above the limit |
| GatherV2.GatherV2Kernel.GatherBlock | ge/host_kernels/gather_v2_kernel.cc:58-69 | One copy in bounds of both buffers, refused if and only if the output is above the copy limit |
| GatherV2.GatherV2Kernel.GatherRow | ge/host_kernels/gather_v2_kernel.cc:48-72 | One row of the output is filled block by block and earlier rows stay, or the copy is refused if and only if the output is above the copy limit |
| GatherV2.GatherV2Kernel.ProcessAxis0 | ge/host_kernels/gather_v2_kernel.cc:48-72 | The loop nest for axis 0 copies all blocks in bounds, or fails if and only if the output is above the copy limit |
| GatherV2.GatherV2Kernel.ProcessAxis1 | ge/host_kernels/gather_v2_kernel.cc:74-102 | The loop nest for axis 1 copies all blocks in bounds, or fails if and only if the output is above the copy limit |
| GatherV2.GatherV2Kernel.ProcessAxis2 | ge/host_kernels/gather_v2_kernel.cc:104-136 | The loop nest for axis 2 copies all blocks in bounds, or fails if and only if the output is above the copy limit |
| GatherV2.GatherV2Kernel.ProcessAxis3 | ge/host_kernels/gather_v2_kernel.cc:138-174 | The loop nest for axis 3 copies all blocks in bounds, or fails if and only if the output is above the copy limit |
| GatherV2.GatherV2Kernel.SaveIndices | ge/host_kernels/gather_v2_kernel.cc:275-299 | Indices are stored if and only if all are within the axis |
| GatherV2.GatherV2Kernel.GenData | ge/host_kernels/gather_v2_kernel.cc:177-215 | Which of the four statuses is returned when, the refused copy included, and on success every output element is the chosen input element |
| GatherV2.GatherV2Kernel.Compute | ge/host_kernels/gather_v2_kernel.cc:374-458 | The kernel folds exactly the accepted inputs, whose output is within the copy limit, and each output element is the input element with its axis coordinate replaced by the chosen index |
| GatherV2.BlocksAreGather | ge/host_kernels/gather_v2_kernel.cc:48-174 | Copied blocks cover the output and have the multi-dimensional meaning, for any rank and axis |
| GatherV2.GathersExact | ge/host_kernels/gather_v2_kernel.cc:414-443 | The same spelled out on one index: shape, source index and element |
| Pack.CopyOutputData | ge/host_kernels/pack_kernel.cc:150-224 | For every axis the validation admits: no read leaves an input; succeeds if and only if the output is empty, or within the copy limit with an axis up to the rank or a single input; then every output element is the element of the input named on the new axis |
| Pack.CopyRounds | ge/host_kernels/pack_kernel.cc:202-218 | The copy loops succeed if and only if the output is within the limit and has room for all rounds; one axis beyond the rank the first copy behind the end is refused |
| Pack.BlocksArePack | ge/host_kernels/pack_kernel.cc:170-224 | Interleaved blocks have that meaning |
| Pack.ExpandDimsExact | ge/host_kernels/pack_kernel.cc:150-168 | The output shape has the number of inputs at the axis, at most behind the last dimension, and the old dimensions around it |
| Pack.PacksExact | ge/host_kernels/pack_kernel.cc:170-224 | The meaning spelled out on one index |
| Pack.PackThenGather | ge/host_kernels/pack_kernel.cc:150-224 | Gathering the single index j along the packed axis gives back input j |
| Concat.GetOutputData | ge/host_kernels/concat_v2_kernel.cc:38-55 | The push loops, with piece sizes from the shapes, produce the rows of pieces; inputs without data are skipped |
| Concat.ConcatV2PreCompute | ge/host_kernels/concat_v2_kernel.cc:119-179 | Accepts exactly two or more inputs, one with data, an axis in range, and inputs without data only at rank 1 |
| Concat.ConcatV2 | ge/host_kernels/concat_v2_kernel.cc:64-117 | Folds exactly the accepted inputs, with the rows counted from the shape of the first input with data |
| Concat.Placement | ge/host_kernels/concat_v2_kernel.cc:38-55 | Element j of piece i of input k stands at i*G + S_k + j |
| Concat.LengthConserved | ge/host_kernels/concat_v2_kernel.cc:38-55 | The output has as many elements as all inputs together |
| Concat.ConcatPlaces | ge/host_kernels/concat_v2_kernel.cc:38-55 | On inputs that agree off the axis every element lands at its index moved by the sizes before it |
| Concat.BothSpellings | ge/host_kernels/concat_v2_kernel.cc:164-176 | Axis a - rank means axis a: the same inputs are folded, with the rows of that axis |
| Concat.AxisRange | ge/host_kernels/concat_v2_kernel.cc:164-176 | Only an axis from -rank to rank - 1 is folded |
| Concat.SumToExact | ge/host_kernels/concat_v2_kernel.cc:38-55 | The offset of an input is the sum of the sizes before it |
| Concat.KernelPlaces | ge/host_kernels/concat_v2_kernel.cc:64-117 | The whole kernel on tensors with their shapes, for both spellings of the axis: every element lands at its index with the sizes before its input added on the axis |
| Concat.BeforeIs | ge/host_kernels/concat_v2_kernel.cc:38-55 | S_k is the sum of the earlier axis sizes times the inner size |
| Concat.ConcatOffset | ge/host_kernels/concat_offset_kernel.cc:57-101 | Not changed exactly for an axis at or above the rank, outside the buffer exactly for a negative one; otherwise one vector per input with the running offset, wrapped to int32, on the axis and zeros elsewhere |
| Concat.OffsetsLocate | ge/host_kernels/concat_offset_kernel.cc:65-101 | Adding the k-th offset vector to an index of input k gives its index in the output of ConcatV2 |
| ReduceProd.ReduceProdKernel.AxisCal | ge/host_kernels/reduce_prod_kernel.cc:77-114 | Succeeds if and only if the axis is in rank and all running products fit int64, and then splits the element count |
| ReduceProd.GuardExact | ge/host_kernels/reduce_prod_kernel.cc:100-110 | The division guard fires if and only if the product does not fit int64 |
| ReduceProd.ReduceProdKernel.FibreProduct | ge/host_kernels/reduce_prod_kernel.cc:134-142 | The product of one fibre, or failure if and only if some prefix product leaves int32 |
| ReduceProd.ReduceProdKernel.DataCal | ge/host_kernels/reduce_prod_kernel.cc:116-153 | The triple loop succeeds if and only if every prefix of every fibre fits int32, and then holds the fibre products in order |
| ReduceProd.ComputeNoAxis | ge/host_kernels/reduce_prod_kernel.cc:188-231 | The product of everything, or failure if and only if there is no data or some prefix product leaves int32 |
| ReduceProd.ShapeCal | ge/host_kernels/reduce_prod_kernel.cc:155-186 | With the flag the axis becomes a unit and the rank stays, without it the axis is removed; all other dimensions stay in order |
| ReduceProd.ReduceProdKernel.Compute | ge/host_kernels/reduce_prod_kernel.cc:233-293 | Exactly when each of the three forms of axis input folds, and to which tensor |
| ReduceProd.FibreAt | ge/host_kernels/reduce_prod_kernel.cc:134-136 | The flat position read for (i, j, k) is in bounds and is element k of fibre (i, j) |
| ReduceProd.FibreMeaning | ge/host_kernels/reduce_prod_kernel.cc:116-153 | Element k of a fibre is the input at the index with k on the axis (the output side is `OutputMeaning`) |
| ReduceProd.ReducedTimes | ge/host_kernels/reduce_prod_kernel.cc:116-153 | Multiplying the fibre products multiplies the whole input |
| ReduceProd.AxisThenAll | ge/host_kernels/reduce_prod_kernel.cc:188-231 | Reducing any one axis and then everything gives the product of everything |
| ReduceProd.ReducedAt | ge/host_kernels/reduce_prod_kernel.cc:143-143 | Position i*end+j of the output holds the product of fibre (i, j) |
| ReduceProd.OutputMeaning | ge/host_kernels/reduce_prod_kernel.cc:116-186 | The output at a reduced index, with the axis removed or kept as a unit, is the product over k of the input at that index with k on the axis |
| ReduceProd.ZeroFreeExact | ge/host_kernels/reduce_prod_kernel.cc:188-231 | Without zeros a multiplication succeeds if and only if the product fits int32 and no intermediate product is 2^31 |
| ReduceProd.FirstZeroDecides | ge/host_kernels/reduce_prod_kernel.cc:188-231 | Only what comes before a zero can make it fail |
| ReduceProd.PrefixesFitExact | ge/host_kernels/reduce_prod_kernel.cc:188-231 | Exactly when multiplying any int32 data succeeds, in terms of the product before its first zero |
| ReduceProd.OrderIrrelevant | ge/host_kernels/reduce_prod_kernel.cc:116-231 | Without zeros and unless the product is -2^31, one step and any axis followed by the rest succeed together, namely if and only if the product of everything fits |
| ReduceProd.OrderMatters | ge/host_kernels/reduce_prod_kernel.cc:116-231 | With a zero either way can be the one that fails, and with product -2^31 the one-step form can |
| ReduceProd.OutputFillsShape | ge/host_kernels/reduce_prod_kernel.cc:264-281 | The output has as many elements as its shape if and only if the reduced axis is not empty or another one is |
| DynamicStitch.ComputeMergedFirstDim | ge/host_kernels/dynamic_stitch_kernel.cc:107-119 | One more than the largest index |
| DynamicStitch.AllowanceStep | ge/host_kernels/dynamic_stitch_kernel.cc:196-218 | Allowance is one unit per slot not seen yet, and by counting slots it covers one more unit before every copy |
| DynamicStitch.OffsetsFit | ge/host_kernels/dynamic_stitch_kernel.cc:198-210 | The overflow tests inside the loop never fire once the output size fits |
| DynamicStitch.CopyUnit | ge/host_kernels/dynamic_stitch_kernel.cc:209-218 | One copy keeps every other slot and makes its place the last writer of its slot |
| DynamicStitch.StitchDataFollowIndices | ge/host_kernels/dynamic_stitch_kernel.cc:175-222 | All writes are in bounds; it fails if and only if one unit is above the copy limit; every named slot holds the data of the last place naming it |
| DynamicStitch.GenData | ge/host_kernels/dynamic_stitch_kernel.cc:135-173 | Exactly when the kernel succeeds, the output shape, and byte by byte that every named slot holds the unit of its last writer, index tensors without elements included |
| DynamicStitch.SizeGuards | ge/host_kernels/dynamic_stitch_kernel.cc:141-151 | The two overflow tests together hold if and only if the whole output fits int64 |
| DynamicStitch.LastWriterExists | ge/host_kernels/dynamic_stitch_kernel.cc:175-222 | Every named slot has a last writer |
| DynamicStitch.LastWriterUnique | ge/host_kernels/dynamic_stitch_kernel.cc:175-222 | And only one |
| DynamicStitch.LastWriterExact | ge/host_kernels/dynamic_stitch_kernel.cc:175-222 | The last writer of a slot is the place that no later tensor and no later position repeats |
| KernelStore.KernelStore.AddKernel | ge/common/kernel_store.cc:21-25 | Null is ignored, a kernel replaces its namesake, and kernels stay filed under their names |
| KernelStore.ItemBytes | ge/common/kernel_store.h:43-49 | The bytes of an item: magic number, name length and content length of four bytes each, least significant first, then name and content |
| KernelStore.ItemsBytes | ge/common/kernel_store.cc:84-104 | What is read from any buffer, in terms of its bytes |
| KernelStore.PackItem | ge/common/kernel_store.cc:49-69 | Head, name and content are appended, or some copy is refused exactly when too much or nothing is left |
| KernelStore.PackAll | ge/common/kernel_store.cc:46-70 | The second pass succeeds if and only if the total is within the copy limit and the last item has content |
| KernelStore.KernelStore.Build | ge/common/kernel_store.cc:27-73 | For every iteration order: that same condition, the exact buffer, an emptied map; on failure the map is kept |
| KernelStore.KernelStore.Load | ge/common/kernel_store.cc:79-108 | For every buffer: terminates, merges exactly its items and keeps names already present; refuses only an empty buffer; reads leave the buffer if and only if some head reached fits only through the 32-bit wrap of its lengths |
| KernelStore.KernelStore.FindKernel | ge/common/kernel_store.cc:110-116 | Null exactly for a missing name, otherwise the kernel stored under it, which has that name |
| KernelStore.BuildableInEveryOrder | ge/common/kernel_store.cc:27-73 | Building succeeds in every hash order if and only if the map is empty, or all contents are non-empty and the total is within the limit |
| KernelStore.TotalOfOrders | ge/common/kernel_store.cc:28-35 | The buffer length does not depend on the order |
| KernelStore.MergeLookup | ge/common/kernel_store.cc:100-103 | After loading a name has its old kernel, else the first item of that name, else nothing |
| KernelStore.PrefixLoads | ge/common/kernel_store.cc:79-108 | The first n bytes of a buffer read back as the items contained in them, for every n |
| KernelStore.ContainedExact | ge/common/kernel_store.cc:84-93 | Contained means wholly inside, except for a bare head that ends exactly at n |
| KernelStore.PrefixRestores | ge/common/kernel_store.cc:79-108 | Loading the first n bytes into an empty store restores exactly those kernels |
| KernelStore.RoundTrip | ge/common/kernel_store.cc:27-108 | Building and loading into an empty store restores the same map for every order |
| Base64.FindInverse | ge/common/base64.h:46-98 | Looking up a character is the inverse of the table, and finds exactly the legal characters |
| Base64.EncodeToBase64 | ge/common/base64.h:48-83 | The indexed loops and the tail produce the encoding of every byte string |
| Base64.EncodeLength | ge/common/base64.h:48-55 | The encoding of n bytes has 4*ceil(n/3) characters |
| Base64.AlphabetExact | ge/common/base64.h:28-31 | The table is the alphabet of section 4 of RFC 4648 in its order, and lookup gives the digit value |
| Base64.EncodeWritesNumber | ge/common/base64.h:56-81 | The characters, with the digit values of the standard, are the base-64 digits of the number the bytes write, padded with zero bits (section 4 of RFC 4648) |
| Base64.DecodeReadsNumber | ge/common/base64.h:100-125 | On every accepted string, canonical or not, the bytes write the number of the digits before the padding without the surplus bits |
| Base64.ReadGroup | ge/common/base64.h:101-111 | One group is read if and only if its characters are legal at their positions |
| Base64.DecodeFromBase64 | ge/common/base64.h:87-127 | Accepts exactly the strings of whole groups of legal characters with padding only in the second half of the last group |
| Base64.RoundTrip | ge/common/base64.h:48-127 | Every byte string decodes back from its encoding |
| Base64.CanonicalExact | ge/common/base64.h:48-127 | An accepted string encodes back to itself if and only if it is canonical (section 3.5 of RFC 4648) |
| Base64.ThreeSpellings | ge/common/base64.h:112-120 | Three accepted spellings of one byte, of which one is canonical |

## Left out

- Division of halves goes through hardware float division and is not modelled.
- Assignment of int8, uint8, int16 and uint16 to a half is not modelled; edge values follow no single rule.
- The rounding mode is fixed to the default, round to nearest; the other modes are not modelled.
- Patterns with exponent field 31 are read as one more binade, as the arithmetic treats them; infinities and NaN do not exist in the model.
- Shifts and masks are written as division and remainder; signed overflow, undefined in C++, is taken to wrap where it can occur.
- Fp16Number.Fp16.AssignInt32: the negation of the smallest int32 is taken to wrap around.
- GatherV2.GatherV2Kernel.Compute: covers lists of indices, not a scalar index tensor, and takes data whose length matches the shape; data types are an element type and a size.
- Pack.CopyOutputData: the validation of types, shapes and counts before it is not modelled.
- Concat.ConcatOffset: takes shapes of equal rank with non-negative sizes on the axis; what an access outside the buffer does is not modelled.
- Concat.GetOutputData: takes tensors that have no data or at least as many elements as their shape counts; elements beyond the shape are not read.
- IntGuards.DivCalExact: for operands of different sign the absolute values and their sum must be in range, since their overflow is undefined.
- ReduceProd.ReduceProdKernel.Compute: takes data whose length matches the shape.
- DynamicStitch.GenData: takes non-negative indices below the largest int32; what is read as the first element of an index tensor without elements is a parameter; bytes of slots no index names are whatever the fresh buffer held.
- KernelStore.KernelStore.Load: what follows a read outside the buffer is not modelled; the magic number is written but, as in the source, not compared.
- KernelStore.KernelStore.Build: the hash-map order is a parameter, and words are laid out least significant byte first.
- Threads step between atomic operations and lock regions under sequential consistency; weaker memory orders, exceptions in tasks and the futures returned by commit are not modelled.
- The element loops of FloorDiv and FloorMod, broadcasting kernels, slicing, casting, transposition and format kernels are not modelled; their work is elementwise or lies in libraries outside the repository.
- Kernels that only copy or report (Identity, Reshape, Squeeze, Shape, Rank, Size, Fill, Empty, Unpack) would only add easy members.
- Logging, allocation failure and null pointers other than a null kernel are not modelled; copies are bounded copies.
- Session and graph interfaces, executors, generators, model building, engine and property management, JSON and file handling are not modelled.

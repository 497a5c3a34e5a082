# Verified models of the OpenCL driver's self-contained algorithms

A Dafny model of eight pieces of the driver whose correctness rests on arithmetic, on state kept
over many calls, or on two programs that must undo each other, with proofs of what each promises.
`dafny verify dfyconfig.toml` checks everything.

| files | what they model |
|---|---|
| `Arithmetic`, `Bytes`, `Text` | machine integers, divisibility, powers of two; little-endian numbers; the stream and string operations of the tools |
| `PrimeFactors`, `FactorSearch`, `PowerOfTwoSizes`, `WorkGroupSize` | the chooser of local work sizes: prime growth, exhaustive search, power-of-two and squared sizes, and the tree of branches over them |
| `LocalIds` | local ids in the tiled order for image kernels |
| `Barrier` | the reusable thread barrier of the built-in kernel simulation |
| `TaskLevels` | the levels that order the commands of in-order and out-of-order queues |
| `PatchBinary`, `PatchText`, `BinaryDecoder` | device binaries, the text and heap files the disassembler makes of them |
| `BinaryEncoder`, `LineRoundTrip`, `SizeCorrection`, `ProgramCorrection`, `KernelRoundTrip`, `RoundTrip`, `EncodeDecode` | the assembler, and what it makes of the disassembler's output |
| `ElfWriter`, `ElfReader` | the ELF-64 container (System V ABI, chapter 4) |
| `CopySplit` | the left, middle and right dispatches of buffer copies and fills |
| `AubStream` | the packets of trace files |

Code that changes state is modelled by methods, on arrays or on classes with the source's fields;
each is proved against a specification function or predicate, and the promises are lemmas about
those. Exceptions, aborts and error returns are outcomes. Integer widths are explicit: `Wrap32`,
`Wrap64` and remainders stand where the source's type truncates.

## What was found

Where a promise does not hold of the code, the code was kept as it is and the exact condition proved.

- The chooser multiplies the three item counts in 64 bits. If the product wraps to a value within
  the device limit, the whole range becomes one group. `LocalSizeSoundIff` gives the condition,
  `WrappedRangeIsUnsound` a range of 2^31 x 2^31 x 4 items.
- The one-dimensional size is the largest extension for every item count exactly when the device
  limit is at most 256 (`MaximalIff`); 257 items are the first counterexample.
- Both searches start from a best cost of 0xffffffff, so a candidate that costs that much or more is
  never chosen. `TwoDimIsLeastIff` and `ThreeDimIsLeastIff` say exactly when they still find the
  fewest threads, `TwoDimByItems` and `ThreeDimByItems` what that means for the size of a range;
  2^20 x 2^20 items stay untiled (`LargePlaneUntiled`), and so do 4096 x 4096 x 65536
  (`LargeSpaceUntiled`). From 2^64 items on the counters of the three-dimensional search wrap:
  `ThreeDimOnCountersIff` says when it still succeeds, `BeyondCounters` when it cannot, and
  `WrappedCounterMisleads` is a range where a wrapped counter wins.
- `calculatePatchListSizes` starts to count at the first identified token. An unidentified token
  before it goes missing in the size (`UncountedToken`, `UncountedBinary`); `EncodeInvertsDecode` says
  when the bytes of a binary stay the same.
- A general state heap is dumped with the size of the dynamic one and written back before the kernel
  heap. `AreaWrittenIff` says exactly when that shows in a kernel, `EncodeInvertsDecode` when it shows
  in a binary. Where one such heap is longer than the dynamic one and another shorter, the bytes
  may come back by accident (`HeapsCancel`, `EchoBinary`).
- The assembler finds sizes and tokens by a text anywhere in a line. A kernel name with PATCH_TOKEN
  in it makes all tokens of its list count, which does no harm; one with PatchListSize in it is
  corrected in place of the size, and mostly stops the assembler (`SizeNameFails`).
- With images the power-of-two size is cut to four rows without a look at the SIMD width: 4 x 8 items at
  SIMD32 get 16, half of what one thread runs. `Pow2BranchIs` says that this is the only such case.
- Tokens are looked up by an 8-bit key, so a token of 256 or more is printed under the name of its
  low byte, if that is a key (`DefinitionRightIff`). The round trip holds all the same.
- The offsets of copies and fills are cut to 32 bits, and the middle copy kernel drops the low two bits
  of its offset: `SplitIsMemcpyIff` and `FillTilesIff` give the exact conditions, `CutOffset` and
  `RoundedOffset` examples.
- A barrier with a wait list on an out-of-order queue separates the commands around it only under
  the condition of `BarrierSeparatesIff`; `BarrierStaysLevel` is a queue where it does not.
- The ELF reader measures names from the header of the string table, not from its data.
  `NamesWithinIff` says when that keeps names within the binary, `NameOutside` is a file where it does
  not. A written binary passes the check, and its names are right all the same (`SectionRoundTrip`,
  which resolves them through the table's data, as the ABI says).

## Model

| member | source | states |
|---|---|---|
| `PrimeFactors.TableCovers` | runtime/command_queue/local_work_size.cpp:28-53 | every number from 2 to 256 has a divisor in the table of primes |
| `PrimeFactors.Factor` | runtime/command_queue/local_work_size.cpp:57-90 | the recursion over the table computes the greedy growth, with no 32-bit overflow of a candidate size |
| `PrimeFactors.FactorFromFills` | runtime/command_queue/local_work_size.cpp:57-90 | greedy invariant: the result divides the items, stays within the limit, and no prime of the table can extend it, early stops included |
| `PrimeFactors.LowestSetBitDivides` | runtime/helpers/basic_math.h:65-72 | the starting size, the lowest set bit, is a power of two that divides the count |
| `PrimeFactors.ComputeWorkgroupSize1D` | runtime/command_queue/local_work_size.cpp:208-230 | the array ends as the chosen size in x and 1 in y and z |
| `PrimeFactors.OneDimSound` | runtime/command_queue/local_work_size.cpp:208-230 | the one-dimensional size divides the items and is between 1 and the limit |
| `PrimeFactors.NoSmallExtension` | runtime/command_queue/local_work_size.cpp:57-90 | under any limit, no multiplier with a divisor from 2 to 256 enlarges the size |
| `PrimeFactors.StuckAt257` | runtime/command_queue/local_work_size.cpp:57-90 | on 257 items the growth leaves the size 1 as it is, under any limit |
| `PrimeFactors.MaximalIff` | runtime/command_queue/local_work_size.cpp:208-230 | the size is maximal for every item count if and only if the limit is at most 256 |
| `FactorSearch.ChoosePreferredWorkGroupSizeWithOutRatio` | runtime/command_queue/local_work_size.cpp:171-206 | the stored size is the first candidate in scan order with the fewest EU threads, despite the inner break and the reversed x scan; unchanged if no candidate beats the initial best |
| `FactorSearch.ChoosePreferredWorkGroupSizeWithRatio` | runtime/command_queue/local_work_size.cpp:128-170 | the same for the aspect ratio, strict or with the number of groups first |
| `FactorSearch.CandidateIff` | runtime/command_queue/local_work_size.cpp:128-206 | the candidates are the listed factors whose volume lies within the window, bounds included |
| `FactorSearch.SearchPairs` | runtime/command_queue/local_work_size.cpp:257-290 | the second loop nest stores the first pair of least (EU threads, waste) with product within the limit |
| `FactorSearch.ComputeWorkgroupSize2D` | runtime/command_queue/local_work_size.cpp:232-291 | the stored pair is that choice among all pairs of divisors from 2 up with product within the limit |
| `FactorSearch.ThreadCostExact` | runtime/command_queue/local_work_size.cpp:177-197 | on ranges below 2^64 items the wrapping counters hold the true number of EU threads, at most one per item |
| `FactorSearch.TwoDimIsLeastIff` | runtime/command_queue/local_work_size.cpp:232-291 | the two-dimensional search stores a pair of fewest EU threads and, among those, fewest work-groups, or 1 x 1 if there is no pair, if and only if there is no pair or one that costs less than the start values |
| `FactorSearch.TwoDimByItems` | runtime/command_queue/local_work_size.cpp:232-291 | in items: the search succeeds on every range below 2^32-1 of them, and leaves 1 x 1 on every range from SIMD times 2^32 up to 2^64 |
| `FactorSearch.LargePlaneUntiled` | runtime/command_queue/local_work_size.cpp:232-291 | on 2^20 x 2^20 items it leaves 1 x 1, although 2 x 2 is a pair that takes fewer threads |
| `FactorSearch.WasteExact` | runtime/command_queue/local_work_size.cpp:266-278 | the waste of a pair is the channels its threads leave idle plus the number of its work-groups |
| `FactorSearch.ThreeDimIsLeastIff` | runtime/command_queue/local_work_size.cpp:171-206 | the search over divisor lists stores the size of fewest EU threads in the size window, if and only if there is nothing but 1 x 1 x 1 to choose from or a size of fewer than 2^32-1 threads |
| `FactorSearch.ThreeDimByItems` | runtime/command_queue/local_work_size.cpp:171-206 | in items: the search succeeds on every range below 2^32-1 of them, and changes nothing on every range from SIMD times 2^32 up to 2^64 |
| `FactorSearch.ThreadCostWraps` | runtime/command_queue/local_work_size.cpp:177-197 | on every range the counter holds the number of EU threads modulo 2^64 |
| `FactorSearch.ThreeDimOnCountersIff` | runtime/command_queue/local_work_size.cpp:171-206 | on ranges of any size: the search stores the size of fewest EU threads, if and only if there is nothing but 1 x 1 x 1 to choose from or the first candidate of least counter value, below the start value, takes the fewest |
| `FactorSearch.BeyondCounters` | runtime/command_queue/local_work_size.cpp:171-206 | on ranges of 2^64 items and more it never does, if some candidate takes fewer than 2^64 threads: the size chosen takes more |
| `FactorSearch.ChoiceIsLeast` | runtime/command_queue/local_work_size.cpp:128-291 | any of the searches, its costs as the counters hold them, picks a least candidate if one costs less than the start value, and otherwise changes nothing |
| `PowerOfTwoSizes.LowWordDecides` | runtime/helpers/basic_math.h:156-163 | the mask test on the low 32-bit word decides divisibility of the whole count by a power of two |
| `PowerOfTwoSizes.Pow2DivisorIsLargest` | runtime/command_queue/local_work_size.cpp:338-344 | halving ends at the largest power of two within the start that divides the count |
| `PowerOfTwoSizes.FindPow2Divisors` | runtime/command_queue/local_work_size.cpp:338-344 | the loop computes those divisors, and 1 for unused dimensions |
| `PowerOfTwoSizes.FindTargetThreads` | runtime/command_queue/local_work_size.cpp:93-102 | the walk over the thread table stops at the first count whose group fits, or at the last |
| `PowerOfTwoSizes.TargetIsMost` | runtime/command_queue/local_work_size.cpp:93-102 | the targeted threads are the largest count among 1 to 32, or to 8 with images and on small devices, whose group fits the device |
| `PowerOfTwoSizes.SpreadFits` | runtime/command_queue/local_work_size.cpp:114-121 | three power-of-two sizes spread over three bounds multiply to the total and stay within the bounds |
| `PowerOfTwoSizes.SpreadFillsFirst` | runtime/command_queue/local_work_size.cpp:114-121 | a later size is 1 unless the ones before it are at their bounds |
| `PowerOfTwoSizes.ComputePowerOfTwoLWS` | runtime/command_queue/local_work_size.cpp:92-126 | the stored sizes are those of the specification in all three shapes; the abort on a zero product is never reached |
| `PowerOfTwoSizes.PowerOfTwoLWSFits` | runtime/command_queue/local_work_size.cpp:92-126 | the sizes divide the given divisors; the group is exactly the targeted threads times SIMD, at most that in Nx4 mode, and fits the device |
| `PowerOfTwoSizes.ShrinkFits` | runtime/command_queue/local_work_size.cpp:303-312 | squared sizes: the product ends at exactly the limit, and a size was only cut while it was the larger one |
| `PowerOfTwoSizes.ComputeWorkgroupSizeSquared` | runtime/command_queue/local_work_size.cpp:293-322 | which of the three outcomes is stored, branch by branch |
| `WorkGroupSize.ComputeWorkgroupSizeND` | runtime/command_queue/local_work_size.cpp:324-400 | the stored size is the outcome of the branch the range and the kernel select |
| `WorkGroupSize.LocalSizeSoundIff` | runtime/command_queue/local_work_size.cpp:324-400 | whichever branch is taken, each size is at least 1 and divides its dimension and the group fits the device, if and only if the range test is not reached with a 64-bit product that wraps to a passing value |
| `WorkGroupSize.LocalSizeSound` | runtime/command_queue/local_work_size.cpp:324-400 | every range of fewer than 2^64 items gets such a size |
| `WorkGroupSize.Pow2BranchIs` | runtime/command_queue/local_work_size.cpp:358-363 | where the largest powers of two that divide the counts make up a SIMD group and no more than the device can hold, they are the size, with rows of four for images; the group holds a SIMD width except in one case |
| `WorkGroupSize.RowsOfFourUnderfill` | runtime/command_queue/local_work_size.cpp:346-363 | a SIMD32 kernel with an image over 4 x 8 items gets 4 x 4, half a SIMD width |
| `WorkGroupSize.Pow2GroupIs` | runtime/command_queue/local_work_size.cpp:352-357 | where they make up more, the size has the targeted threads, x filled first, then y, then z, or is the plane of four rows |
| `WorkGroupSize.RangeBranchIs` | runtime/command_queue/local_work_size.cpp:366-369 | a range past that test that fits the device is one group |
| `WorkGroupSize.OneDimBranchIs` | runtime/command_queue/local_work_size.cpp:371-372 | a larger one-dimensional range is cut into groups that no factor enlarges |
| `WorkGroupSize.SquaredBranchIs` | runtime/command_queue/local_work_size.cpp:293-312 | a flat range sized by squares whose powers of two fill the device meets its limit exactly, only cutting the larger size |
| `WorkGroupSize.SquaredRangeIs` | runtime/command_queue/local_work_size.cpp:313-322 | one whose powers of two fall short is one group if it fits the device |
| `WorkGroupSize.SquaredSearchIs` | runtime/command_queue/local_work_size.cpp:313-319 | and is else cut into the pair of divisors with the fewest threads and then the fewest groups |
| `WorkGroupSize.SearchBranchIsLeast` | runtime/command_queue/local_work_size.cpp:380-397 | without a ratio the search stores the size in the window that takes the fewest threads |
| `WorkGroupSize.SharedMemoryIsLeast` | runtime/command_queue/local_work_size.cpp:128-170 | with shared memory it stores one of fewest groups, and among those of the aspect closest to the range |
| `WorkGroupSize.TiledImageIsLeast` | runtime/command_queue/local_work_size.cpp:380-396 | with tiled images it stores the aspect closest to 4 : 1, unless that makes a group of half a SIMD width or less: then fewest groups first |
| `WorkGroupSize.WrappedRangeIsUnsound` | runtime/command_queue/local_work_size.cpp:328-380 | a kernel with barriers over 2^31 x 2^31 x 4 items is given the whole range as one group |
| `WorkGroupSize.LargeSpaceUntiled` | runtime/command_queue/local_work_size.cpp:171-206 | the chooser leaves a kernel with barriers over 4096 x 4096 x 65536 items at 1 x 1 x 1, although 16 x 8 x 1 is among its divisors and takes an eighth of the threads |
| `WorkGroupSize.WrappedCounterMisleads` | runtime/command_queue/local_work_size.cpp:171-206 | over 0x80000f9d x 0x666659e9 x 15 items the chooser takes a size of 2^64 threads or more, of which the counter keeps a few, although 1 x 1 x 15 takes less than half of that |
| `WorkGroupSize.GroupCountIsLeast` | runtime/command_queue/local_work_size.cpp:431-435 | the group count is the least number of groups that covers a dimension |
| `WorkGroupSize.GroupsTileRange` | runtime/command_queue/local_work_size.cpp:431-435 | with a sound size, group count times size is the range exactly |
| `LocalIds.GenerateLocalIDsWithLayoutForImages` | runtime/command_queue/local_id_gen.cpp:70-116 | the traversal with its carried variables stores in every lane of every thread the x, y and z of a closed form, and nothing behind the last thread |
| `LocalIds.Advance` | runtime/command_queue/local_id_gen.cpp:88-108 | one pass of the inner loop moves the tile and the position in it as specified, through all wrap-arounds |
| `LocalIds.LaneInGroup` | runtime/command_queue/local_id_gen.cpp:70-116 | every lane of every thread, padding included, holds an id within the group |
| `LocalIds.LanesAreDistinct` | runtime/command_queue/local_id_gen.cpp:70-116 | the first width times height lanes hold distinct work-items: the lane is recovered from its id |
| `LocalIds.LanesCoverGroup` | runtime/command_queue/local_id_gen.cpp:70-116 | every work-item of the group is held by one of those lanes, also for SIMD32 at heights of 4 modulo 8 |
| `LocalIds.LaneWords` | runtime/command_queue/local_id_gen.cpp:82-116 | the three words of every lane at their offsets in the buffer: x in the first row of its thread, y in the second, 0 in the third, in the tiled order, and within the group for padding lanes too |
| `LocalIds.ItemIsStored` | runtime/command_queue/local_id_gen.cpp:70-116 | the buffer holds every work-item of the group for one of the first width times height lanes |
| `LocalIds.ItemIsStoredOnce` | runtime/command_queue/local_id_gen.cpp:70-116 | two of those lanes whose words in the buffer agree in x and y are the same lane |
| `LocalIds.LayoutFitsBuffer` | runtime/command_queue/local_id_gen.h:23-47 | a group the layout test accepts, of at most 1024 items, writes exactly the bytes set aside: threads times bytes per thread |
| `LocalIds.CompatibleIff` | runtime/command_queue/local_id_gen.cpp:60-68 | the layout test accepts the flat groups, in x-y order, that the traversal can tile |
| `ThreadBarrier.SynchronizationBarrier.constructor` | runtime/builtin_kernels_simulation/opencl_c.h:34-37 | all threads missing, generation 0 |
| `ThreadBarrier.SynchronizationBarrier.Arrive` | runtime/builtin_kernels_simulation/opencl_c.h:42-58 | arriving counts down, or as the last thread restores the count and moves to the next generation |
| `ThreadBarrier.CountersDiffer` | runtime/builtin_kernels_simulation/opencl_c.h:47-55 | neighbouring generations never share a counter value, even across the wrap-around |
| `ThreadBarrier.BarrierIsSafe` | runtime/builtin_kernels_simulation/opencl_c.h:42-58 | in every run of n threads, no thread returns from its k-th enter before every thread has started its k-th enter |
| `ThreadBarrier.WaiterReturnsIff` | runtime/builtin_kernels_simulation/opencl_c.h:50-52 | the equality test releases a waiter if and only if every thread has started the same enter |
| `ThreadBarrier.SleepersAreCurrent` | runtime/builtin_kernels_simulation/opencl_c.h:50-56 | a thread sleeps only in the current generation: whoever is released has been woken by the thread that opened the barrier |
| `ThreadBarrier.NoDeadlock` | runtime/builtin_kernels_simulation/opencl_c.h:42-58 | while a thread has not returned from its k-th enter, some thread can enter, or is awake and can leave, without any spurious wake-up |
| `ThreadBarrier.ProgressShrinksWork` | runtime/builtin_kernels_simulation/opencl_c.h:42-58 | every such step leaves less work, so all enters end |
| `ThreadBarrier.OtherStepsKeepWork` | runtime/builtin_kernels_simulation/opencl_c.h:50-52 | spurious wake-ups and re-tests that fail leave the work as it is |
| `ThreadBarrier.ReleasedStaysFree` | runtime/builtin_kernels_simulation/opencl_c.h:50-56 | a released thread stays awake and free to leave until it does, whatever the others do |
| `ThreadBarrier.CountAccountsForAll` | runtime/builtin_kernels_simulation/opencl_c.h:45-55 | the count is in 1..n, and with the waiters of the current generation it makes up all threads |
| `TaskLevels.CommandQueue.TaskLevelUpdateRequired` | runtime/command_queue/enqueue_common.h:488-516 | the method decides as specified when a command gets a level of its own |
| `TaskLevels.CommandQueue.ObtainTaskLevel` | runtime/command_queue/enqueue_common.h:475-486 | the submit level, which becomes the level of the queue if it was raised |
| `TaskLevels.CommandQueue.UpdateFromCompletionStamp` | runtime/command_queue/command_queue.cpp:263-271 | level, count and flush stamp of the queue after a completion stamp |
| `TaskLevels.CommandQueue.EnqueueHandler` | runtime/command_queue/enqueue_common.h:237-313 | the stamp an unblocked enqueue gives its event and its queue, submitted or inherited, an empty dispatch as a marker |
| `TaskLevels.MaxLevelBounds` | runtime/command_queue/command_queue.cpp:184-193 | the level from a wait list bounds every event in it and is one of them or the start |
| `TaskLevels.SubmitLevelBounds` | runtime/command_queue/enqueue_common.h:475-516 | a command is never below its queue or its wait list; a kernel is above its wait list, and above its queue if that is in order |
| `TaskLevels.SubmitLevelIs` | runtime/command_queue/enqueue_common.h:475-516 | the exact level of every kind of command, on in-order and out-of-order queues, with and without a wait list |
| `TaskLevels.RaisedIff` | runtime/command_queue/enqueue_common.h:482-485 | the level of the queue is raised at once if and only if the command gets a level of its own |
| `TaskLevels.EnqueueLeaves` | runtime/command_queue/enqueue_common.h:237-313 | what an enqueue leaves in stamp and queue: the answer of a submission, or the inherited level and flush stamp, an empty kernel like a marker |
| `TaskLevels.InheritedCount` | runtime/command_queue/enqueue_common.h:284-295 | a command that submits nothing inherits the latest task count of its queue and of the device events in its list |
| `TaskLevels.BarrierSeparatesIff` | runtime/command_queue/enqueue_common.h:488-516 | a barrier rises above its queue if and only if the queue is in order, there is no wait list, or the list reaches the level of the queue |
| `TaskLevels.BarrierStaysLevel` | runtime/command_queue/enqueue_common.h:488-516 | on an out-of-order queue at level 1, a barrier that waits for an event of level 0 stays at level 1 |
| `TaskLevels.KernelsRunAfterDependencies` | runtime/command_queue/enqueue_common.h:237-313 | in every unblocked run over any queues, a kernel's level is strictly above that of everything it depends on, through any chain of wait lists, queue order, barriers with and without a wait list, and markers that stand for all before them |
| `TaskLevels.BarrierSeparates` | runtime/command_queue/enqueue_common.h:489-516 | commands on the two sides of a barrier without a wait list have strictly ascending levels, whatever lies between |
| `TaskLevels.InOrderKernelsAscend` | runtime/command_queue/enqueue_common.h:475-516 | the kernels of an in-order queue have strictly ascending levels |
| `TaskLevels.IndependentKernelsShareLevel` | runtime/command_queue/enqueue_common.h:489-516 | over any run, kernels without a wait list on an out-of-order queue all get the level of the queue, which stays, as long as submissions answer the level asked for |
| `TaskLevels.QueueLevelNeverFalls` | runtime/command_queue/command_queue.cpp:263-271 | neither the level nor the task count of a queue falls in any run |
| `TaskLevels.QueueLevelBounds` | runtime/command_queue/command_queue.cpp:263-271 | the level of a queue bounds every level it has issued |
| `PatchBinary.ReadTokensExact` | offline_compiler/decoder/binary_decoder.cpp:291-336 | a patch list that was read accounts for every byte once: token, size, fields and rest |
| `PatchBinary.ReadTokenFields` | offline_compiler/decoder/binary_decoder.cpp:303-316 | a token of known key has the longest list of first fields of its definition that lies within its size; others have none |
| `PatchBinary.PlainTokenEnds` | offline_compiler/decoder/binary_decoder.cpp:298-322 | a token without a field for inline data is as long as its size says |
| `PatchBinary.InlineTokenEnds` | offline_compiler/decoder/binary_decoder.cpp:309-322 | a token with one such field is longer by the value of that field, and its other bytes end with the inline data |
| `PatchBinary.InlineListRead` | offline_compiler/decoder/binary_decoder.cpp:291-336 | a list of two tokens, the first with four bytes of inline data, is framed as the source does |
| `PatchBinary.ReadValuesIff` | offline_compiler/decoder/binary_decoder.cpp:34-71 | header fields are read if and only if their sizes are 1, 2, 4 or 8 and the bytes suffice |
| `PatchBinary.ReadProgramExact` | offline_compiler/decoder/binary_decoder.cpp:207-289 | the bytes of the program that was read, and those after it, are the input; all parts have the sizes their headers announce |
| `PatchBinary.ReadProgramBack` | offline_compiler/decoder/binary_decoder.cpp:207-336 | every well-formed program is read back from its bytes, whatever follows them |
| `PatchBinary.ReadKernelSizes` | offline_compiler/decoder/binary_decoder.cpp:235-289 | the name, the heaps and the patch list of a kernel are as long as its header says |
| `PatchBinary.ReadKernelParts` | offline_compiler/decoder/binary_decoder.cpp:235-289 | they follow its header in the order name, kernel heap, general, dynamic and surface state heap, patch list |
| `PatchBinary.DefinitionRightIff` | offline_compiler/decoder/binary_decoder.cpp:291-310 | a token is printed under its own definition if and only if it is below 256 or its low byte is no key |
| `BinaryDecoder.BinaryDecoder.DumpField` | offline_compiler/decoder/binary_decoder.cpp:41-69 | prints the line of a field and steps over it, or ends the run on an unknown size |
| `BinaryDecoder.BinaryDecoder.CountFittingFields` | offline_compiler/decoder/binary_decoder.cpp:312-316 | the break of the field loop: the fields of a token that lie within its size |
| `BinaryDecoder.BinaryDecoder.DumpToken` | offline_compiler/decoder/binary_decoder.cpp:293-334 | one pass of the token loop reads the next token and prints its lines |
| `BinaryDecoder.BinaryDecoder.ReadPatchTokens` | offline_compiler/decoder/binary_decoder.cpp:291-336 | the loop reads and prints a list that its tokens use up exactly |
| `BinaryDecoder.BinaryDecoder.DumpAreas` | offline_compiler/decoder/binary_decoder.cpp:261-283 | the name line and the heap files, the general state heap with the size of the dynamic one |
| `BinaryDecoder.BinaryDecoder.ProcessKernel` | offline_compiler/decoder/binary_decoder.cpp:235-289 | reads a kernel, prints its lines and dumps its heaps |
| `BinaryDecoder.BinaryDecoder.ProcessBinary` | offline_compiler/decoder/binary_decoder.cpp:207-233 | reads a program, prints all its lines and dumps all heaps |
| `PatchText.TokenShown` | offline_compiler/decoder/binary_decoder.cpp:302-334 | the exact text of a token with a field and four other bytes |
| `PatchText.KernelShown` | offline_compiler/decoder/binary_decoder.cpp:235-262 | the exact text of a kernel with a padded name |
| `PatchText.NameOfIs` | offline_compiler/decoder/binary_decoder.cpp:258-260 | the printed name is the name area up to its first NUL |
| `Text.SplitJoin` | offline_compiler/decoder/helper.cpp:38-52 | lines written with newlines are read back as the same lines |
| `Text.ReadShown` | offline_compiler/decoder/binary_encoder.cpp:251-265 | a printed number is read back, whatever follows that is no digit |
| `BinaryEncoder.BinaryEncoder.SumList` | offline_compiler/decoder/binary_encoder.cpp:26-37 | the inner loop sums the sizes of the lines up to the next kernel, modulo 2^32 |
| `BinaryEncoder.BinaryEncoder.CalculatePatchListSizes` | offline_compiler/decoder/binary_encoder.cpp:20-46 | the size lines in place become those of the specification; a size that is no number fails |
| `BinaryEncoder.BinaryEncoder.WriteHexNumbers` | offline_compiler/decoder/binary_encoder.cpp:273-281 | the loop to the end of the stream writes one byte per hexadecimal number |
| `BinaryEncoder.BinaryEncoder.WriteDeviceBinary` | offline_compiler/decoder/binary_encoder.cpp:269-307 | a line adds nothing, its hexadecimals, or its value in its size; other lines fail |
| `BinaryEncoder.BinaryEncoder.ProcessKernel` | offline_compiler/decoder/binary_encoder.cpp:168-219 | the lines up to the name, the padded name and the heaps are written; a missing name line or file fails |
| `BinaryEncoder.BinaryEncoder.ProcessBinary` | offline_compiler/decoder/binary_encoder.cpp:152-166 | the whole text is written, kernels by their own rule |
| `BinaryEncoder.BinaryEncoder.EncodeDump` | offline_compiler/decoder/binary_encoder.cpp:133-150 | the assembler up to its device binary, from the text file |
| `LineRoundTrip.FieldLineBytes` | offline_compiler/decoder/binary_encoder.cpp:282-304 | the printed line of a field is written back as its bytes |
| `LineRoundTrip.HexLineBytes` | offline_compiler/decoder/binary_encoder.cpp:272-281 | the printed line of hexadecimals is written back as its bytes |
| `LineRoundTrip.CorrectedField` | offline_compiler/decoder/binary_encoder.cpp:38-43 | correcting the line of a 4-byte field gives the line of that field with the new value |
| `SizeCorrection.TokensListSize` | offline_compiler/decoder/binary_encoder.cpp:28-37 | the lines of a patch list count for exactly the bytes of the list |
| `SizeCorrection.FixCounted` | offline_compiler/decoder/binary_encoder.cpp:25-43 | the correction counts a list from its first identified token on |
| `ProgramCorrection.FixProgram` | offline_compiler/decoder/binary_encoder.cpp:20-46 | correcting a printed program gives the print of the program with corrected sizes, for any number of kernels |
| `ProgramCorrection.FixTwice` | offline_compiler/decoder/binary_encoder.cpp:20-46 | the correction of a printed program is idempotent |
| `ProgramCorrection.SizeNameFails` | offline_compiler/decoder/binary_encoder.cpp:23-43 | a program whose first kernel has PatchListSize in its name, a counted list and no number at the end of the name is printed as a text the correction refuses |
| `ProgramCorrection.CorrectedSizeIs` | offline_compiler/decoder/binary_encoder.cpp:20-46 | a corrected size is the number of bytes written from the first identified token to the next kernel, and that of the whole list if and only if no token comes before |
| `KernelRoundTrip.TokensWritten` | offline_compiler/decoder/binary_encoder.cpp:269-307 | a printed patch list is written back byte for byte |
| `KernelRoundTrip.EncodeBody` | offline_compiler/decoder/binary_encoder.cpp:168-219 | what is written for the lines of a kernel down to its heaps: header, name padded to the announced size, heap files |
| `RoundTrip.NameWrittenIff` | offline_compiler/decoder/binary_encoder.cpp:189-196 | a name area comes back if and only if only NULs follow its first NUL |
| `RoundTrip.FilesDiffer` | offline_compiler/decoder/binary_decoder.cpp:266-283 | heap files of different kinds never share a name, whatever the kernels are called |
| `RoundTrip.KernelFilesAre` | offline_compiler/decoder/binary_decoder.cpp:261-283 | the four files of a kernel by name and content, and all other files as before |
| `RoundTrip.HeapBytesIs` | offline_compiler/decoder/binary_encoder.cpp:189-219 | the assembler needs three files of a kernel, and puts the general heap in front if there is a file for it |
| `RoundTrip.DumpHolds` | offline_compiler/decoder/binary_decoder.cpp:261-283 | in the end the dump holds the heaps of every kernel |
| `RoundTrip.AreaWrittenIff` | offline_compiler/decoder/binary_encoder.cpp:189-217 | the name and heaps of a kernel come back if and only if the name is padded and its general state heap is empty, or as long as the dynamic one and interchangeable with the kernel heap |
| `RoundTrip.SwappedHeaps` | offline_compiler/decoder/binary_encoder.cpp:198-217 | a kernel heap of byte 1 and a general one of byte 2 come back as 2 and 1 |
| `RoundTrip.HeapsCancel` | offline_compiler/decoder/binary_encoder.cpp:198-217 | general heaps that are dumped too long and too short can cancel: then the bytes come back although no heap is in its place |
| `RoundTrip.EncodeProgram` | offline_compiler/decoder/binary_encoder.cpp:152-219 | a printed program is written as its headers and lists, with what comes back of each kernel's name and heaps |
| `EncodeDecode.PrintedLines` | offline_compiler/decoder/helper.cpp:38-52 | the printed file is read back as the printed lines |
| `EncodeDecode.EncodePrinted` | offline_compiler/decoder/binary_encoder.cpp:133-219 | assembling a printed program writes the program with corrected sizes |
| `EncodeDecode.ProgramOutIff` | offline_compiler/decoder/binary_encoder.cpp:133-219 | what is written for a printed program, whose general heaps are not dumped both too long and too short, is its bytes if and only if every list is counted whole, every name is padded and every kernel's heaps come back in their place |
| `EncodeDecode.UncountedToken` | offline_compiler/decoder/binary_encoder.cpp:25-43 | an unidentified token before an identified one is missing in the corrected size |
| `EncodeDecode.UncountedBinary` | offline_compiler/decoder/binary_encoder.cpp:25-43 | a binary of a size 16 and two tokens, the first one unknown, comes back with the size 8 |
| `EncodeDecode.EncodeInvertsDecode` | offline_compiler/decoder/binary_encoder.cpp:133-307 | assembling what the disassembler made of a binary it reads, with names the text can carry, succeeds, and gives the same bytes if and only if no list has an unidentified token before an identified one, all names are padded, and all heaps come back in their place |
| `EncodeDecode.EchoBinary` | offline_compiler/decoder/binary_encoder.cpp:133-307 | a binary of two kernels comes back byte for byte although neither has its heaps in place: their headers announce heaps whose lengths and contents cancel |
| `ElfWriter.CElfWriter.constructor` | elf/writer.h:42-47 | an empty section comes first |
| `ElfWriter.CElfWriter.AddSection` | elf/writer.h:51-67 | the section is queued, and the running sizes stay those of the queue |
| `ElfWriter.CElfWriter.ResolveBinary` | elf/writer.cpp:16-84 | the queue is drained into a binary of the needed size, or the larger one given, that holds every header, data and name at its place, with the headers of the string table and the file |
| `ElfWriter.PatchElfHeader` | elf/writer.cpp:86-104 | identity and header fields are set, and nothing else changes |
| `ElfWriter.EarlierStill` | elf/writer.cpp:42-65 | writing a section leaves all sections before it as written |
| `ElfReader.CElfReader.ValidateElfBinary` | elf/reader.cpp:17-90 | the method accepts or rejects as specified and collects the headers |
| `ElfReader.WrittenIsReadIff` | elf/reader.cpp:17-90 | a resolved binary is accepted if and only if it has exactly the needed size, and then gives the headers of all sections in order |
| `ElfReader.WrittenFileHeader` | elf/writer.cpp:86-104 | the file header of a resolved binary, field by field at its offsets |
| `ElfReader.WrittenSectionHeader` | elf/writer.cpp:43-50 | the header of each section, its name and data starting where those before it end |
| `ElfReader.WrittenTableHeader` | elf/writer.cpp:67-77 | the header of the string table behind them |
| `ElfReader.WrittenData` | elf/writer.cpp:52-54 | the data of each section byte by byte, with a NUL for what is asked for beyond it |
| `ElfReader.WrittenName` | elf/writer.cpp:56-61 | the name of each section byte by byte, closed by a NUL |
| `ElfReader.SectionRoundTrip` | elf/reader.cpp:62-80 | each section comes back: type, flags, size, data and NUL-terminated name |
| `ElfReader.SectionsTile` | elf/writer.cpp:29-65 | headers, data and names tile the binary without gap or overlap |
| `ElfReader.AcceptedIff` | elf/reader.cpp:17-90 | a binary is accepted if and only if it starts like a 64-bit ELF file, every section header, its data and its checked name lie within it, and file header, entries and data add up to its size |
| `ElfReader.AcceptedHeaders` | elf/reader.cpp:53-80 | it then gives the headers of all sections in order, field by field |
| `ElfReader.AcceptedDataWithin` | elf/reader.cpp:53-90 | the data of every section of an accepted binary lies within it |
| `ElfReader.NamesWithinIff` | elf/reader.cpp:66-71 | the check keeps every 32-bit name within the binary if and only if the data of the name table does not come after its header, or lies too far from the end |
| `ElfReader.AcceptedNamesWithin` | elf/reader.cpp:66-71 | under that condition the names of all sections of an accepted binary lie within it |
| `ElfReader.NameOutside` | elf/reader.cpp:17-90 | a binary of 136 bytes is accepted although the name of its section lies at byte 200 |
| `ElfReader.WrittenTableComesLast` | elf/writer.cpp:67-81 | in the files of the writer the data of the name table always comes after its header |
| `CopySplit.CopyMiddleAligned` | runtime/built_ins/built_ins.cpp:215-235 | a middle is whole 16-byte items, cache-line aligned in the destination and dword aligned in the source |
| `CopySplit.CopyPartsIs` | runtime/built_ins/built_ins.cpp:215-235 | the three parts in terms of the range alone; the middle takes all whole cache lines, and is given up exactly if the source is not dword aligned where it starts |
| `CopySplit.AlignedPartsIs` | runtime/built_ins/built_ins.cpp:383-393 | the parts of a fill: bytes up to the first cache line, all whole lines, and the rest |
| `CopySplit.CoversIff` | runtime/built_ins/kernels/copy_buffer_to_buffer.igdrcl_built_in:36-57 | in one buffer, the byte items and the middle items touch every byte of the range if and only if their 32-bit arithmetic reaches the end of each part and the middle starts where it should; they then touch each byte once |
| `CopySplit.StoresStraightIff` | runtime/built_ins/built_ins.cpp:212-276 | the three dispatches store the range byte by byte from its source if and only if offsets fit 32 bits and buffers with a middle are dword aligned |
| `CopySplit.SplitIsMemcpyIff` | runtime/built_ins/built_ins.cpp:212-276 | the split has the effect of one memcpy and changes nothing else, whatever the memories hold and in whatever order the work items run, if and only if it fits in that sense |
| `CopySplit.CutOffset` | runtime/built_ins/built_ins.cpp:263-266 | a copy of one byte to offset 2^32 stores to byte 0 and is no memcpy |
| `CopySplit.RoundedOffset` | runtime/built_ins/kernels/copy_buffer_to_buffer.igdrcl_built_in:46-57 | a copy of a cache line between buffers off a dword boundary stores to byte 60 what belongs to byte 63 |
| `CopySplit.FillTilesIff` | runtime/built_ins/built_ins.cpp:380-435 | a fill writes every byte of its range if and only if its offsets fit 32 bits, and then each once and no other |
| `CopySplit.CutFill` | runtime/built_ins/built_ins.cpp:380-435 | a fill of one byte at offset 2^32 writes byte 0 |
| `AubStream.AubFileStream.WriteMemoryBlock` | runtime/command_stream/aub_command_stream_receiver.cpp:115-145 | one memory packet, header first, padded with zeros to a dword |
| `AubStream.AubFileStream.ExpectMemoryRange` | runtime/command_stream/aub_command_stream_receiver.cpp:204-250 | the loop writes the range as chunks at ascending addresses |
| `AubStream.AubFileStream.WriteMMIOImpl` | runtime/command_stream/aub_command_stream_receiver.cpp:155-168 | one register write packet |
| `AubStream.AubFileStream.PollRegister` | runtime/command_stream/aub_command_stream_receiver.cpp:170-184 | one register poll packet |
| `AubStream.AubFileStream.ExpectRegister` | runtime/command_stream/aub_command_stream_receiver.cpp:186-202 | one register compare packet |
| `AubStream.AubFileStream.WriteComment` | runtime/command_stream/aub_command_stream_receiver.cpp:256-276 | one comment packet with its closing NUL and padding |
| `AubStream.RegisterWriteIs` | runtime/command_stream/aub_command_stream_receiver.cpp:155-168 | the six dwords of a register write, field by field |
| `AubStream.RegisterPollIs` | runtime/command_stream/aub_command_stream_receiver.cpp:170-184 | the six dwords of a register poll |
| `AubStream.RegisterCompareIs` | runtime/command_stream/aub_command_stream_receiver.cpp:186-202 | the six dwords of an expected register |
| `AubStream.MemoryWriteIs` | runtime/command_stream/aub_command_stream_receiver.cpp:115-145 | the header fields, the data and the zero padding of a memory write |
| `AubStream.MemoryCompareIs` | runtime/command_stream/aub_command_stream_receiver.cpp:204-250 | those of an expected range of one chunk |
| `AubStream.CommentIs` | runtime/command_stream/aub_command_stream_receiver.cpp:256-276 | the dwords, the message, its NUL and the padding of a comment |
| `AubStream.WalkFindsIff` | runtime/aub_mem_dump/aub_services.h:399-401 | stepping by packet sizes finds exactly the packets written if and only if each fits a 16-bit dword count |
| `AubStream.SessionIsFramedIff` | runtime/command_stream/aub_command_stream_receiver.cpp:115-276 | a file written by any calls is self-delimiting if and only if every memory write and comment keeps within its limit |
| `AubStream.ChunksReassemble` | runtime/command_stream/aub_command_stream_receiver.cpp:204-250 | the data read from the packets of one expected range, put together, is the range |
| `AubStream.ChunksAreContiguous` | runtime/command_stream/aub_command_stream_receiver.cpp:221-249 | chunk i holds block i at the address where the ones before it end; all but the last are full and unpadded |

## Left out

- ReadValues: the six header fields the tools look up by name are read with their own width, where the source always reads four bytes of them; the headers declare all six as 32-bit.
- ReadToken: a token size below 8, a token or inline data past the end of the list, and a binary that ends early are one malformed outcome; the source reads on without a check.
- EncodeInvertsDecode: field and token names need to be single words without `:`, `#`, `Hex` and the texts that select lines (`PlainFormats`); kernel names need to be on one line and without `PatchListSize`; kernels of one name need equal heaps, since they share their files; and binaries where some general state heap is longer than its dynamic one and some other shorter are left out, for which the equivalence is false (`EchoBinary`).
- ProgramOutIff: the same heaps are left out.
- ReadNumber: numbers with a sign or a 0x prefix, which only hand-edited text can hold.
- HexNumbers: a character that is no digit makes the source write without end; a value read from an exhausted stream is not set. Both are the outcome None.
- Atoi: signs, and values beyond a signed 32-bit integer.
- CElfReader.ValidateElfBinary: pointer sums that overflow are not modelled; with no name table the source adds the 32-bit name to a null pointer, which is taken to stay below the end of the binary; a header read past the end of the binary is an outcome of its own.
- CElfWriter.ResolveBinary: demands counts and sizes that fit their 16- and 32-bit fields, and no more bytes per section than its data with the closing NUL; a second resolve after the queue is drained is not modelled.
- ChoosePreferredWorkGroupSizeWithRatio: aspect ratios and logarithms are arbitrary reals, not single-precision numbers; soundness is proved, and the choice is the first least candidate.
- ComputeWorkgroupSizeND: the null check of the SIMD size is a precondition.
- GenerateLocalIDsWithLayoutForImages: needs the 16-bit offset not to wrap, which holds for groups of up to 1024 items (`LayoutFitsBuffer`).
- CommandQueue.EnqueueHandler: only the unblocked path. Blocked queues, virtual events and the map and unmap handlers rest on classes that are not part of this model; the answer of a submission is a parameter.
- SynchronizationBarrier: the mutex appears as the atomicity of steps, the condition variable as a flag of each waiting thread.
- SplitIsMemcpyIff: source and destination are separate memories.
- FillTilesIff: which bytes are written, not the phase of the pattern in them.
- AubStream: the version packet, page table entries and contexts, which are fixed or raw payloads.
- Parsing of patch header files into field lists and token definitions; field lists and token tables are inputs.
- The SIMD variants of local id generation that rest on processor intrinsics.
- The sections of the ELF file the assembler wraps around the device binary, and all file system effects: the dump directory is a map from names to bytes.

# CV32E40P: verified models of the divider, the fetch stage and their neighbours

This project models the stateful and arithmetic hardware of the CV32E40P core and proves what it is for. Registers are
class fields (or records of registers), combinational logic is functions, and one clock edge is a `Step` method or a
next-state function. Widths, lane counts, depths and tree sizes are parameters wherever the hardware does not fix them.

**Integer division** (`Words`, `FindFirstOne`, `Lanes`, `Shifter`, `PopCount`, `Normaliser`, `Divider`,
`DivisionResult`, `DividerRegisters`, `AluDiv`, `DividerRuns`). The serial divider works on two's complement numbers
with an unsigned comparator, collects the quotient in mirror image and relies on the ALU to pre-shift the divisor by a
count from the find-first-one tree. The registers are proved to refine schoolbook long division on magnitudes, and long
division to give what section 7.2 of the RISC-V Unprivileged ISA (20191213) prescribes (`DivisionSpec`), for every
operand pair of every width of at least two bits, with division by zero and signed overflow. `DivisionSpec` states the
manual's text; `TruncationIsTheDivision` shows that rounding towards zero determines its quotient and remainder. Whole
runs: results come in the order of the requests, after exactly `div_shift + 2` cycles, and wait unchanged. The only
demand on the environment is that the divisor operand does not become or cease to be zero while the divider is busy.

**Instruction fetch** (`InstructionStream`, `Aligner`, `CompressedDecoder`, `FetchDecode`, `Prefetch`, `Obi`,
`PrefetchController`, `FrontEnd`, `FetchStage`). The aligner refines sequential execution of a mixed 16/32-bit stream:
a cursor walks over the halfwords in memory, and a log of deliveries, branches and hardware-loop redirects must agree
with it. The decompressor is proved against a reference decode written from section 16.8 of the same manual. The
prefetch controller, FIFO and OBI adapter are then proved to give the aligner what it relies on, so that the whole
fetch stage, from reset and against any memory image, bus schedule, pipeline stalls, branches and loop jumps, hands the
decoder exactly the program. Reset may be followed by any number of idle cycles before the boot jump. On a fast bus the
stage streams after a bounded number of cycles from every state it can be in, and then serves one instruction per
cycle: a pipeline that accepts in every cycle misses at most 2 * DEPTH + 3 of them. With no more than one request
outstanding, a loop jump costs no cycle, and a branch costs its own and one more for a 32-bit target in the middle of a
word.

**FIFO** (`Fifo`), **APU dispatcher** (`ApuDispatcher`) and **trace reorder queue** (`ReorderQueue`) refine sequences:
a bounded queue, a queue of at most two outstanding destinations with exact hazard signals, and an output that is the
program order 1, 2, 3, ... The **partitioned adder, comparator, minimum/maximum, absolute value and clip** of the ALU
(`SimdAdder`, `Comparator`, `Clip`) are proved lane by lane.

`dafny verify dfyconfig.toml` checks the whole project.

## Where properties fail, and exactly when they hold

- `flush_but_first_i` leaves the FIFO's write pointer outside the ring for some depths that are not powers of two
  (`FifoLogic.PartialFlushCanFail`), because the pointer only wraps by truncation there. `FifoLogic.StepRefines` gives
  the exact condition `FlushSafe`: empty, or the kept word is not in the last cell, or the depth is a power of two
  above one. The prefetch buffer's own comment demands a power of two.
- One pass over the reorder queue need not drain it (`ReorderLogic.OnePassNeedNotDrain`).
  `ReorderLogic.PassReleasesIff` says when it releases `n` traces: the next `n` orders lie one behind the other. Since
  the queue keeps the order of arrival, that is so when they arrived in ascending order
  (`ReorderLogic.LateArrivalsDrain`, with an input in `ReorderLogic.LateArrivalsExample`).
- CLIP and CLIPU are the documented formula for every pair of operands. That formula is a clamp to [-(b+1), b] and
  [0, b] exactly when the bound is not negative or the value lies above the lower end (`Clip.ClipIsClampIff`). The ALU
  does not mask the bound; the decode stage does, so the documented instructions clamp for every register value
  (`Clip.RegisterClip`).
- A hardware-loop redirect takes effect only in the aligned state with a 32-bit instruction and is dropped elsewhere
  (`AlignerLogic.LoopTargetTakenIff`).
- Given the assertion `p_hwlp_end_already_gnt_when_hwlp_branch`, a loop jump keeps the stream exactly when
  `flush_cnt_q` is zero (`PrefetchLogic.JumpKeepsIff`). While responses of an earlier redirect are being dropped, the
  last instruction of the body is lost if it has been requested, whether a response arrives in the cycle of the jump or
  only later (`PrefetchLogic.EarlyJumpDropsBodyEnd`, `PrefetchLogic.EarlyJumpLosesBodyEnd`). If it has not, the loop's
  target takes its place, or, while an earlier redirect waits for its own request, is itself forgotten
  (`PrefetchLogic.EarlyJumpBeforeRequest`). The fetch stage meets both the guard and the assertion by itself once a word
  has been taken since the last redirect (`FrontEndLogic.TakenStep`, `FrontEndLogic.BodyEndAlreadyGranted`), and the
  controller raises the jump while the instruction before the last one of the body is in the decode stage
  (rtl/cv32e40p_controller.sv:823-838, 1270-1280).
- Given the assertion of the APU dispatcher, write-backs match acceptances exactly when no request is answered without
  a grant (`ApuLogic.WriteBacksInOrderIff`, with an input in `ApuLogic.UngrantedAnswerExample`).
- The division times in docs/source/pipeline.rst:102-107 count leading zeros of the divisor. That is right exactly for
  divisors that are not negative and for negative ones below -2^(w-2) in a signed operation
  (`DividerTrace.StepsCountZerosIff`); other negative divisors cost time for their leading ones. A division by -1 takes
  `w + 2` cycles although -1 has no leading zeros (`DividerTrace.MinusOneTakesLong`). `DividerTrace.StepsRange` gives
  both ends of the range; a positive divisor of a signed operation never reaches the minimum.

## Model

| member | source | states |
|---|---|---|
| FindFirstOne.NodeSummarises | rtl/cv32e40p_ff_one.sv:59-89 | every tree node tells, for its own aligned block of the input, whether a bit is set and which is the first |
| FindFirstOne.TreeIsLinearScan | rtl/cv32e40p_ff_one.sv:45-97 | for every length of at least two: no_ones_o iff the input is zero, otherwise first_one_o is the least set index |
| PopCount.ZeroOnlyOfZero | rtl/cv32e40p_popcnt.sv:34-60 | the adder tree returns zero exactly for the zero word, which is the divider's zero test |
| Words.RevBit | rtl/cv32e40p_alu.sv:62-75 | the reversal moves bit i to position w-1-i |
| Words.LeftShiftByReversal | rtl/cv32e40p_alu.sv:61-67 | reversing, shifting right and reversing back is a left shift modulo 2^w, for every width and amount |
| Lanes.RevJoin | rtl/cv32e40p_alu.sv:215-235 | reversing a vector word reverses every lane and the order of the lanes |
| Shifter.LeftShiftModWidth | rtl/cv32e40p_alu.sv:216-314 | lanes of 2^k bits are shifted by their amount modulo their width |
| Shifter.LeftShiftPerLane | rtl/cv32e40p_alu.sv:216-314 | with the exchanged shift amounts every lane of every vector mode is shifted left by its own amount |
| Normaliser.LeadingZeros | rtl/cv32e40p_alu.sv:749-773 | find-first-one on the mirror image counts leading zeros |
| Normaliser.ShiftCount | rtl/cv32e40p_alu.sv:887-892 | div_shift is the full width for a zero divisor, and otherwise scales the divisor's size into the top half of what its sign leaves room for |
| Normaliser.DivisorIsNormalised | rtl/cv32e40p_alu.sv:892-903 | the divider receives the divisor times 2^div_shift exactly: no bit is lost |
| Divider.LongDivisionKeepsInvariant | rtl/cv32e40p_alu_div.sv:87-117 | dividend = quotient bits by weight times divisor plus rest; the rest is below twice the scaled divisor before a step and below it afterwards |
| Divider.LongDivisionResult | rtl/cv32e40p_alu_div.sv:149-160 | the last step leaves quotient and remainder |
| Divider.ComparatorDecides | rtl/cv32e40p_alu_div.sv:104-105 | the unsigned comparison, inverted by the sign and gated by a nonzero rest, decides the order of the magnitudes even when both registers are negative |
| Divider.SubtractorSubtracts | rtl/cv32e40p_alu_div.sv:107-109 | the modular subtraction subtracts magnitudes under a common sign |
| Divider.DivisorHalves | rtl/cv32e40p_alu_div.sv:89-90 | the shift with the inverted sign coming in halves the divisor exactly |
| Divider.QuotientBitEnters | rtl/cv32e40p_alu_div.sv:189-191 | a bit entering at the top of the mirrored register is appended at the bottom of the quotient |
| DivisionResult.DividendIsLoaded | rtl/cv32e40p_alu_div.sv:84-109 | at load the dividend's size enters the rest register under the divisor's sign |
| DivisionResult.OutputIsExpected | rtl/cv32e40p_alu_div.sv:99-102 | quotient and remainder with the recorded inversion are the prescribed result, division by zero and overflow included |
| DividerRegisters.DivideRefines | rtl/cv32e40p_alu_div.sv:104-109 | comparator, subtractor and quotient register carry out one step of long division |
| DividerRegisters.StepRefines | rtl/cv32e40p_alu_div.sv:84-213 | every clock edge takes the registers of a long-division state to those of the next |
| DividerRegisters.OutputsRefine | rtl/cv32e40p_alu_div.sv:123-173 | OutVld_SO is low from the load cycle until FINISH, and the quotient and remainder registers then give the prescribed result on Res_DO |
| DividerRegisters.LastStep | rtl/cv32e40p_alu_div.sv:149-160 | the registers enter FINISH with quotient and remainder of the magnitudes |
| AluDiv.AluDiv.Step | rtl/cv32e40p_alu_div.sv:123-213 | one clock cycle of the divider: outputs, all registers, and the invariant |
| DividerTrace.RequestsComplete | rtl/cv32e40p_alu_div.sv:135-172 | over any run no request is lost, repeated or reordered, and at most one is in progress |
| DividerTrace.Latency | rtl/cv32e40p_alu_div.sv:115-160 | FINISH is reached exactly div_shift + 2 cycles after the load cycle |
| DividerTrace.ResultWaits | rtl/cv32e40p_alu_div.sv:162-168 | the result does not change however long it waits |
| DividerTrace.StepsRange | docs/source/pipeline.rst:102-107 | div_shift lies between 0 and w, so load, steps and finish take 3 to w + 3 cycles; the maximum exactly for a zero divisor, the minimum exactly for a divisor without a redundant leading bit |
| DividerTrace.StepsCountZerosIff | docs/source/pipeline.rst:102-107 | the number of steps is the documented count of leading zeros exactly for divisors that are not negative or are negative without a redundant sign bit |
| DividerTrace.MinusOneTakesLong | docs/source/pipeline.rst:102-107 | a signed division by -1 takes w - 1 steps after the first, although its divisor has no leading zeros |
| DividerRuns.Run | rtl/cv32e40p_alu_div.sv:123-213 | from reset, under arbitrary stalls, the k-th accepted result is the specification applied to the k-th loaded request |
| InstructionStream.FollowsIsParse | rtl/cv32e40p_aligner.sv:91-226 | a log that follows sequential execution delivers instruction n of the parse from the target, at its own address |
| AlignerLogic.StepRefines | rtl/cv32e40p_aligner.sv:61-226 | state, program counter, held halfword and next word's address keep their relation, and what is delivered is the instruction at the cursor |
| AlignerLogic.BranchRefines | rtl/cv32e40p_aligner.sv:219-224 | a branch establishes that relation from any state |
| AlignerLogic.RunFollows | rtl/cv32e40p_aligner.sv:66-226 | for every memory image, stall schedule, branches and loop redirects the deliveries are those of sequential execution |
| AlignerLogic.DeliversEveryCycle | rtl/cv32e40p_aligner.sv:102-216 | with a word on offer and a ready pipeline an instruction leaves in every cycle, but for one after a branch into the middle of a word that holds half an instruction |
| AlignerLogic.LoopTargetIsApplied | rtl/cv32e40p_aligner.sv:66-115 | a target raised anywhere in a stall of any length becomes the program counter right after the held instruction and is then forgotten |
| AlignerLogic.LoopTargetTakenIff | rtl/cv32e40p_aligner.sv:75-115 | a redirect takes effect exactly in the aligned state with a 32-bit instruction, and is dropped otherwise |
| Aligner.Aligner.Step | rtl/cv32e40p_aligner.sv:66-226 | one clock cycle: events, all registers, and the invariant |
| Aligner.Run | rtl/cv32e40p_aligner.sv:66-226 | from reset, the log of the machine follows sequential execution |
| CompressedDecoder.ExpansionReads | rtl/cv32e40p_compressed_decoder.sv:48-599 | every 16-bit encoding expands to a word that a 32-bit decoder reads as the operation of the manual, and is illegal exactly when there is none |
| CompressedDecoder.FullWordPasses | rtl/cv32e40p_compressed_decoder.sv:592-595 | a 32-bit instruction passes unchanged: legal, with its first halfword in the lower half and its second in the upper half |
| FetchDecode.DeliveryReads | rtl/cv32e40p_compressed_decoder.sv:596-599 | a delivered instruction reads as the operation at its address, a 32-bit one is passed on as the two halfwords in memory, and the next address is 2 or 4 further by is_compressed_o |
| FetchDecode.ExecutesAt | rtl/cv32e40p_if_stage.sv:240-281 | delivery by delivery: each is received as memory has it, and the next one stands 2 or 4 further |
| FetchDecode.FollowingExecutes | rtl/cv32e40p_if_stage.sv:240-249 | a log that follows sequential execution is the reference decode of the memory image, with addresses advanced by is_compressed_o alone |
| FetchDecode.RunExecutes | rtl/cv32e40p_if_stage.sv:257-281 | aligner and decompressor together yield the reference decode of the stream |
| PrefetchLogic.OfferIsNext | rtl/cv32e40p_prefetch_controller.sv:119-123 | the word on offer is the next one of the stream |
| PrefetchLogic.OfferStays | rtl/cv32e40p_prefetch_controller.sv:210-212 | it stays on offer until it is taken or a redirect comes |
| PrefetchLogic.BranchKeeps | rtl/cv32e40p_prefetch_controller.sv:325-334 | after a branch, in any state, exactly the older responses are dropped and the stream restarts at the target |
| PrefetchLogic.JumpHolds | rtl/cv32e40p_prefetch_controller.sv:248-261 | a loop jump keeps the last instruction of the body in the FIFO and drops what was requested behind it |
| PrefetchLogic.JumpDelays | rtl/cv32e40p_prefetch_controller.sv:263-300 | a loop jump before that instruction has arrived postpones the dropping until after it |
| PrefetchLogic.WaitingAnswered | rtl/cv32e40p_prefetch_controller.sv:272-300 | when it arrives, taken or stored, exactly the recorded number of responses is dropped next |
| PrefetchLogic.StepKeeps | rtl/cv32e40p_prefetch_controller.sv:116-360 | every cycle keeps the relation between registers, FIFO, outstanding requests and the stream to come |
| PrefetchLogic.FifoNeverOverflows | rtl/cv32e40p_prefetch_controller.sv:125-161 | a response that must be stored finds room, loop jumps included |
| PrefetchLogic.AtMostDepthAhead | rtl/cv32e40p_prefetch_controller.sv:149-161 | no more than DEPTH requests are outstanding, with PULP_OBI no more than one, and no more than DEPTH words that will be used are stored or requested |
| PrefetchLogic.RequestsIff | rtl/cv32e40p_prefetch_controller.sv:139-161 | a word is requested exactly when asked for and there is room besides what is stored and outstanding, with PULP_OBI only while nothing else is outstanding |
| PrefetchLogic.RequestsAreAligned | rtl/cv32e40p_prefetch_controller.sv:134-138 | every request address is word aligned |
| PrefetchLogic.JumpKeepsIff | rtl/cv32e40p_prefetch_controller.sv:261-334 | in every state, given the assertion, a loop jump keeps the relation to the stream if and only if flush_cnt_q is zero |
| PrefetchLogic.EarlyJumpDropsBodyEnd | rtl/cv32e40p_prefetch_controller.sv:261-334 | with responses to drop, a jump adds the body's last instruction to them, with or without a response in the same cycle |
| PrefetchLogic.EarlyJumpLosesBodyEnd | sva/cv32e40p_prefetch_controller_sva.sv:104-115 | after such a jump, with the last instruction requested, whatever the timing, no word is on offer until the response that brings the last instruction has been dropped |
| PrefetchLogic.EarlyJumpBeforeRequest | rtl/cv32e40p_prefetch_controller.sv:164-199 | if the last instruction has not been requested, the loop's target takes its place, or the target is forgotten while an earlier redirect waits for its request |
| PrefetchLogic.EarlyJumpExample | rtl/cv32e40p_prefetch_controller.sv:261-334 | a state and a cycle in which this happens |
| PrefetchController.PrefetchController.Step | rtl/cv32e40p_prefetch_controller.sv:164-360 | one clock edge: all registers |
| ObiLogic.RequestIsStable | rtl/cv32e40p_obi_interface.sv:129-198 | a request stays on the bus with its address until it is granted |
| ObiLogic.StepTracks | rtl/cv32e40p_obi_interface.sv:129-201 | accepted requests reach the bus once each and in order |
| ObiInterface.ObiInterface.Step | rtl/cv32e40p_obi_interface.sv:177-196 | one clock edge: all registers |
| FrontEndLogic.AlignerAssumptions | rtl/cv32e40p_if_stage.sv:179-271 | prefetcher, FIFO and bus give the aligner what it relies on |
| FrontEndLogic.FeedsAgree | rtl/cv32e40p_if_stage.sv:211-224 | fetch_ready is asserted exactly when the aligner consumes the word |
| FrontEndLogic.TakenStep | rtl/cv32e40p_prefetch_buffer.sv:56-60 | once a word has been taken, nothing is being dropped and the next word is stored or requested, in every cycle until a redirect |
| FrontEndLogic.BodyEndAlreadyGranted | sva/cv32e40p_prefetch_controller_sva.sv:104-115 | the controller's assertion: once a word has been taken, the next one, which is the last instruction of the body when a loop jump comes, has been requested |
| FrontEndLogic.StepInv | rtl/cv32e40p_prefetch_buffer.sv:86-200 | one cycle of controller, FIFO and bus adapter keeps the joint invariant |
| FrontEndLogic.StepRefines | rtl/cv32e40p_if_stage.sv:179-271 | one cycle of the whole stage delivers what sequential execution has reached |
| FrontEndLogic.StageFollows | rtl/cv32e40p_if_stage.sv:179-271 | whole runs of the stage follow sequential execution |
| FrontEndLogic.DeliversIff | rtl/cv32e40p_if_stage.sv:211-271 | an instruction leaves exactly when a word is on offer, the pipeline takes it and no branch comes, but not with half a branch target |
| FrontEndLogic.RunObeys | rtl/cv32e40p_if_stage.sv:179-271 | over every run the redirects in the log are the branches and loop jumps the ports ask for, one for one and in order, a branch to the given address without its lowest bit |
| FrontEndLogic.IdleStays | rtl/cv32e40p_controller.sv:332-340 | a cycle between reset and the boot jump leaves the stage in reset and shows nothing |
| FrontEndLogic.ProgramIsExecuted | rtl/cv32e40p_if_stage.sv:179-281 | from reset, after any number of idle cycles and the boot jump, the decoder receives exactly the operations of the program in memory, and the redirects are those asked for |
| FrontEndLogic.PatienceDecreases | rtl/cv32e40p_prefetch_controller.sv:119-161 | a cycle without an offer on a fast bus brings the next offer closer |
| FrontEndLogic.OfferArrives | rtl/cv32e40p_prefetch_controller.sv:119-161 | on a fast bus a word is on offer after at most 2 * flush_cnt_q + 1 cycles, from every reachable state |
| FrontEndLogic.StreamingStays | rtl/cv32e40p_prefetch_controller.sv:119-161 | a streaming stage (nothing to drop, no request held up, a word stored or arriving) offers a word and still streams a cycle later |
| FrontEndLogic.OffersEveryCycle | rtl/cv32e40p_prefetch_controller.sv:119-161 | from a streaming state, with two FIFO entries or more, on a fast bus and without redirects, a word is on offer in every cycle |
| FrontEndLogic.OneInstructionPerCycle | docs/source/instruction_fetch.rst:24-26 | from a streaming state one instruction leaves per cycle, whatever the mix of lengths, but for one cycle after a target in the middle of a word |
| FrontEndLogic.Settles | rtl/cv32e40p_prefetch_controller.sv:248-334 | a cycle that does not stream brings streaming closer, with responses to drop, a loop redirect pending or a request held up |
| FrontEndLogic.StreamingIsReached | rtl/cv32e40p_prefetch_controller.sv:119-334 | on a fast bus the stage streams after a bounded number of cycles from every state; with a loop redirect pending, given an accepting pipeline |
| FrontEndLogic.AllButAFewCycles | docs/source/instruction_fetch.rst:24-26 | from every state of sequential execution, on a fast bus, an accepting pipeline gets an instruction in every cycle but a bounded number |
| FrontEndLogic.Throughput | docs/source/instruction_fetch.rst:24-26 | that number is at most 2 * DEPTH + 3 |
| FrontEndLogic.StreamDelivers | docs/source/instruction_fetch.rst:24-26 | the exact number of instructions from a streaming state |
| FrontEndLogic.BranchStreamsIff | rtl/cv32e40p_prefetch_controller.sv:157-186 | a branch leaves the stage streaming from its target exactly when no request is held up and no more than one is outstanding |
| FrontEndLogic.BranchPenalty | docs/source/pipeline.rst:118-131 | a branch costs its own cycle, and one more for a 32-bit target that is not word aligned; then one instruction per cycle |
| FrontEndLogic.LoopJumpStreamsIff | docs/source/corev_hw_loop.rst:27-28 | the last instruction of the body is delivered in the cycle of the jump, and the stage streams from the target exactly when no more than one request is outstanding |
| FrontEndLogic.LoopJumpIsFree | docs/source/corev_hw_loop.rst:27-28 | zero stall cycles: an instruction in the cycle of the jump and in every cycle after it |
| FetchStage.FetchStage.Signals | rtl/cv32e40p_if_stage.sv:211-271 | the combinational signals between the instances; aligner and prefetcher get the same branch address, the given one without its lowest bit |
| FetchStage.FetchStage.Edge | rtl/cv32e40p_if_stage.sv:179-271 | the clock edge of all instances: all registers |
| FetchStage.FetchStage.Step | rtl/cv32e40p_if_stage.sv:179-271 | one clock cycle of the stage: events, redirects as asked for, all registers, and the invariant |
| FetchRuns.Run | rtl/cv32e40p_if_stage.sv:179-281 | from reset, after any number of idle cycles and the boot jump, the machine's log executes the program in memory, and its redirects are those the ports ask for |
| FifoLogic.IncrementIsCyclic | rtl/cv32e40p_fifo.sv:80-91 | the pointers are cyclic for every depth, by comparison or by truncation |
| FifoLogic.PushPopRefine | rtl/cv32e40p_fifo.sv:65-108 | push and pop in any combination, with and without fall-through, are those of the queue |
| FifoLogic.PartialFlushRefines | rtl/cv32e40p_fifo.sv:124-129 | the flush that keeps the first word leaves that word, and keeps the pointers consistent exactly when it is safe |
| FifoLogic.PartialFlushCanFail | rtl/cv32e40p_fifo.sv:127 | with depth 3 it can leave the write pointer outside the memory |
| FifoLogic.AlwaysSafeIff | rtl/cv32e40p_fifo.sv:124-129 | a partial flush keeps the pointers consistent from every state exactly for powers of two above one |
| FifoLogic.StepRefines | rtl/cv32e40p_fifo.sv:65-146 | every clock edge takes the ring for a queue to the ring for the next queue |
| FifoLogic.OutputsRefine | rtl/cv32e40p_fifo.sv:51-107 | flags are those of the queue, and data_o is its head whenever it is not empty |
| FifoLogic.FirstInFirstOut | rtl/cv32e40p_fifo.sv:64-138 | without flushes, what was stored and accepted is what was handed out and is still stored, in order |
| Fifo.Fifo.Step | rtl/cv32e40p_fifo.sv:64-146 | one clock cycle: outputs, next queue, and when the pointers stay consistent |
| Fifo.Run | rtl/cv32e40p_fifo.sv:64-146 | from reset, with any flushes, and partial ones at the depths where they are always safe, the words handed out by the machine are those of the queue |
| ApuLogic.RegistersAreQueue | rtl/cv32e40p_apu_disp.sv:97-143 | waiting implies in flight, and the two registers are a first-in, first-out queue |
| ApuLogic.RefillIsUnreachable | rtl/cv32e40p_apu_disp.sv:129-132 | the refill branch is never taken |
| ApuLogic.ResponseGoesToOldest | rtl/cv32e40p_apu_disp.sv:215-221 | a response is written to the oldest outstanding destination, or to the request of the same cycle |
| ApuLogic.DependencyIsExact | rtl/cv32e40p_apu_disp.sv:163-191 | a dependency is raised exactly when a valid port names a destination that is still pending |
| ApuLogic.RequestIff | rtl/cv32e40p_apu_disp.sv:92-207 | which operations are requested beside none, one or two outstanding ones |
| ApuLogic.StallIff | rtl/cv32e40p_apu_disp.sv:199-209 | an enabled operation is held exactly while it is not accepted, and without one the pipeline is held exactly by two outstanding operations |
| ApuLogic.NoHazard | rtl/cv32e40p_apu_disp.sv:97-191 | without a dependency no register of the decoding instruction is outstanding in the next state |
| ApuLogic.JalrIsExact | rtl/cv32e40p_apu_disp.sv:193-195 | raised exactly when a valid read port names an outstanding destination or that of the enabled operation, answered or not |
| ApuLogic.JalrIsConservative | rtl/cv32e40p_apu_disp.sv:193-195 | the jalr dependency is raised at least whenever the read dependency is |
| ApuLogic.WriteBacksInOrder | rtl/cv32e40p_apu_disp.sv:97-221 | over any run in which answered requests are granted, every accepted destination is written back once, in the order of acceptance |
| ApuLogic.WriteBacksInOrderIff | rtl/cv32e40p_apu_disp.sv:237-240 | given the module's assertion, write-backs match acceptances in order exactly when no request is answered without a grant |
| ApuLogic.UngrantedAnswerExample | rtl/cv32e40p_apu_disp.sv:97-99 | one cycle in which a request without a grant is answered: nothing is accepted, and its register is written back |
| ApuLogic.CycleKeepsOrder | rtl/cv32e40p_apu_disp.sv:151-207 | with fixed latency classes at most one operation is due per cycle and it is the oldest |
| ApuLogic.NoOvertaking | rtl/cv32e40p_apu_disp.sv:201-207 | in every such run the waiting slot is never used and nothing is overtaken |
| ApuDispatcher.ApuDispatcher.Step | rtl/cv32e40p_apu_disp.sv:88-221 | one clock cycle: which operations are requested and held, all dependency signals, all registers, queue, write address and hazard freedom |
| ReorderLogic.PassIsConsecutive | bhv/cv32e40p_rvfi.sv:667-689 | a pass releases consecutive orders |
| ReorderLogic.PassConserves | bhv/cv32e40p_rvfi.sv:667-689 | a pass loses nothing and repeats nothing |
| ReorderLogic.PassMakesProgress | bhv/cv32e40p_rvfi.sv:678-685 | a pass that starts with the next order present releases at least it |
| ReorderLogic.PassReleasesIff | bhv/cv32e40p_rvfi.sv:674-686 | a pass releases n traces exactly when the next n orders lie in the queue one behind the other |
| ReorderLogic.AscendingQueueDrains | bhv/cv32e40p_rvfi.sv:674-686 | a queue in which the next n orders come one behind the other, whatever else it holds, releases them in one pass |
| ReorderLogic.PassKeepsOrder | bhv/cv32e40p_rvfi.sv:674-686 | a pass leaves the bypass queue in order of arrival |
| ReorderLogic.LateArrivalsDrain | bhv/cv32e40p_rvfi.sv:694-706 | orders that came too early, in ascending order, all leave in the pass after the one they waited for |
| ReorderLogic.OnePassNeedNotDrain | bhv/cv32e40p_rvfi.sv:667-706 | after order 1 arrives before a bypass of 3 and 2, order 3 stays although 2 has gone |
| ReorderQueue.ReorderQueue.EmptyFifo | bhv/cv32e40p_rvfi.sv:667-689 | the loop over the bypass queue: output, bypass and next_send |
| ReorderQueue.ReorderQueue.SendRvfi | bhv/cv32e40p_rvfi.sv:694-706 | an arrival: output and bypass after it, progress when the next order is there, and with it all that arrived early in ascending order |
| ReorderQueue.Run | bhv/cv32e40p_rvfi.sv:664-706 | after any sequence of arrivals the output is orders 1 to next_send - 1, output and bypass are a permutation of the arrivals, the bypass is in order of arrival, and a last arrival of order 1 releases all that came before it in ascending order |
| SimdAdder.ByteOfSum | rtl/cv32e40p_alu.sv:116-166 | the guard position of a byte blocks, passes or injects the carry as its place in the lane requires |
| SimdAdder.GuardsSteerCarry | rtl/cv32e40p_alu.sv:116-174 | the fields of the wide sum are a byte-wise sum whose carries stop at lane boundaries |
| SimdAdder.LaneIsModularSum | rtl/cv32e40p_alu.sv:168-174 | inside a lane the bytes add up to the sum modulo the lane |
| SimdAdder.AdderIsLaneWise | rtl/cv32e40p_alu.sv:102-174 | for any number of lanes of any number of bytes, one wide addition is a modular addition in every lane |
| SimdAdder.SubtractionIsLaneWise | rtl/cv32e40p_alu.sv:102-174 | with operand b complemented it is a modular subtraction in every lane |
| Comparator.GreaterIsOrder | rtl/cv32e40p_alu.sv:371-392 | the nested byte formula decides the signed or unsigned order of lanes of any length |
| Comparator.ComparatorIsLaneWise | rtl/cv32e40p_alu.sv:345-411 | in 32-, 16- and 8-bit mode every output bit states the order or equality of the lanes its byte belongs to |
| Comparator.ComparisonIsLaneWise | rtl/cv32e40p_alu.sv:413-427 | every comparison operator computes its relation in each lane, on signed or on unsigned integers as its name says |
| Comparator.MinMaxIsLaneWise | rtl/cv32e40p_alu.sv:430-446 | MIN and MAX of the signed, MINU and MAXU of the unsigned integers in every lane |
| Comparator.NegatedLane | rtl/cv32e40p_alu.sv:107-174 | the adder set up for the absolute value negates every lane |
| Comparator.AbsIsLaneWise | rtl/cv32e40p_alu.sv:430-446 | adder, comparator and selection give the absolute value in every lane; the most negative lane wraps to itself |
| Clip.SumSignIsSign | rtl/cv32e40p_alu.sv:141-168 | bit 36 of the sign-extended sum tells whether a + b + 1 is negative, without overflow |
| Clip.ClipIsDocumented | rtl/cv32e40p_alu.sv:451-470 | CLIP is the documented formula for every pair of operands |
| Clip.ClipUnsignedIsDocumented | rtl/cv32e40p_alu.sv:453-460 | CLIPU is the documented formula for every pair of operands |
| Clip.ClipIsClampIff | rtl/cv32e40p_alu.sv:451-470 | both are the clamp exactly when the bound is not negative or the value lies above the lower end; the value returned for negative bounds |
| Clip.RegisterClip | rtl/cv32e40p_id_stage.sv:1519-1520 | with the masked register bound of the decode stage the instructions clamp as documented for every register value |
| Clip.ImmediateClip | rtl/cv32e40p_id_stage.sv:512-649 | with the immediate bound of the decode stage they clamp to the documented powers of two, an immediate of zero included |

## Left out

- DividerRegisters.StepRefines: the divider is modelled with the vector mode fixed to 32-bit lanes, as its instructions use it; other modes would shift the divisor per lane.
- Shifter.LeftShiftPerLane: covers left shifts; arithmetic right shifts, rotates and the rounding shifter input are plain right shifts and muxes.
- SimdAdder.AdderIsLaneWise: does not model rounding, normalisation, or the operand exchange of the complex-number subtractions.
- Comparator.AbsIsLaneWise: operand b is the zero register or a zero immediate, as the decoder supplies it.
- AlignerLogic.StepRefines: relies on loop redirects for bodies of aligned 32-bit instructions with one redirect pending at a time (example_tb/core/hwlp_test/hwlp.h:22-24, the aligner's own assertion).
- FrontEndLogic.StepRefines: takes from the controller that the pipeline accepts nothing while it does not request instructions, that it requests nothing before the boot jump, and that a loop jump comes for an aligned 32-bit instruction after a word has been taken since the last redirect; the controller and the loop counters are not part of this model. Instruction memory does not change while it is fetched from.
- FifoLogic.StepRefines: depth zero, which is a wire, is not modelled.
- CompressedDecoder.ExpansionReads: floating-point loads and stores (FPU = 1, ZFINX = 0) are not expanded.
- ReorderQueue.ReorderQueue.EmptyFifo: the fatal limit of 50 entries and the simulation events are not modelled; a trace is its order, its floating-point state field and an opaque rest.
- ApuLogic.WriteBacksInOrder: asks for a grant with every answered request where the module's assertion (rtl/cv32e40p_apu_disp.sv:238) does not; `ApuLogic.WriteBacksInOrderIff` shows that the property needs it.
- ApuDispatcher.ApuDispatcher.Step: `perf_type_o`, `perf_cont_o`, `apu_multicycle_o` and `apu_singlecycle_o` are not modelled.
- ApuLogic.NoOvertaking: assumes the latency classes of the unit; the dispatcher itself does not check them.
- Asynchronous reset, clock gating and unknown values: registers start in their reset state.
- Shuffle and pack muxes, bit insert and extract, radix-4 and radix-8 bit reversal, bit counting results other than those the divider uses: selections without state.
- Multiplier, load-store unit, register file, CSRs, debug, interrupts and the performance counters.
- The rest of bhv/ and the Python tools: tracing, sampling and checks of file hashes.

# A Dafny model of the algorithms and protocols of ChipScoPy

ChipScoPy is a Python client for debug cores in programmable devices. This project models the
parts of it that compute or coordinate something hard to get right, and proves what they are for.

- **Trigger compiler** (`Trigger*.dfy`, `Decimal.dfy`). Conditions over probe compares are split over
  ports and turned into match-unit and trigger-condition registers. A compare means a predicate over the previous
  and the current sample of a port; the passes, the allocation of shared match units and the
  registers keep that meaning, on every sample. Relational operators are an arbitrary predicate
  over the constrained bits of the value, since their meaning lies in the hardware.
- **Waveform unrolling** (`Wave{Samples,Unroll,Data,Process}.dfy`). Raw bytes are compacted, every
  window is rotated to its trigger mark, and the trigger byte is dropped, all in place. The
  result is specified sample by sample.
- **Sliding-window transfers** (`TransferWindow.dfy`, `ReadTransfer.dfy`, `WriteTransfer.dfy`).
  Chunks are requested eight at a time, replies come in any order and may be errors.
- **Requests, events and timers** (`Request{Model,History,Dispatch}.dfy`,
  `EventQueue.dfy`, `Timers.dfy`). Queues as state machines over atomic steps, with theorems over all runs, and the
  methods on objects that refine the steps.
- **Node tree** (`Node{Model,Forest,Update,Emptying,Tree}.dfy`). Recursive removal from a graph
  that changes while it is walked.
- **Codecs** (`InstructionCodec.dfy`, `BracketMatching.dfy`, `PortMap.dfy`, `WaveRuns.dfy`,
  `BitReversal.dfy`, `LittleEndian.dfy`, `MemoryWords.dfy`, over `BitArithmetic.dfy` and
  `Hexadecimal.dfy`).

Code that changes state step by step is a class or a method with loops, proved against a
specification function; the theorems are lemmas about these functions and about runs of steps.
`dafny verify dfyconfig.toml` checks everything.

Where the code and its documentation, or its evident purpose, disagree, the model follows the code:

- `process_raw_data` says that the trigger bit is removed. Only a byte that holds nothing else is;
  otherwise the bit stays in the output (`WaveProcess.TriggerBitStays`,
  `WaveProcess.TriggerBitInOutput`). It also says that invalid data of a partial
  window is removed; all samples of that window are in the output (`WaveProcess.PartialWindowStays`,
  `WaveProcess.PartialWindowInOutput`).
- A transfer of no bytes never calls back (`TransferWindow.CallsBackExactly`), and a read requests
  whole words, so the last one to three bytes of an odd size are never read although success is
  reported (`ReadTransfer.ReadIsCompleteExactly`, `ReadTransfer.OneByteIsNotRead`).
- A compare of a probe that lies on several port segments is split into one compare for each, which
  changes the meaning of `!=` and `||` under `and`, and of `==` under `or`
  (`TriggerProbes.SplitKeepsExactly`). A compare with the number first gets the negated operator in
  place of the mirrored one, which is right for `==` and `!=` only (`TriggerProbes.OperatorReversible`).
- `remove_all` goes on for ever when the root lists a node that is missing or names another parent,
  as after a node was added again, or when the root itself goes before a node that it lists
  (`NodeEmptying.RemoveAllEndsExactly`, `NodeEmptying.RemoveAllCanGoOn`).
- A node that is added again under another parent stays in its old parent's list
  (`NodeForest.AddKeepsForestExactly`), also when a service lists it as that parent's child
  (`NodeUpdate.UpdateKeepsTreeExactly`).
- Word addresses are computed with a division of doubles, so far up in memory a word access goes to
  another word, first for the byte address 2^53 + 3 (`MemoryWords.WordAddressExactly`,
  `MemoryWords.FirstAddressMissed`, `MemoryWords.WordAddressMisses`).
- A string of 103 digits holds 412 bits, and the highest is dropped without an error: the number
  is kept exactly when the first digit is below eight (`InstructionCodec.StringKeptExactly`), so not
  for an eight and 102 zeros (`InstructionCodec.TopBitIsLost`).
- The padding in `memory_write` is called leading; it is trailing.

## Model

| member | source | states |
|---|---|---|
| TriggerTsm.MapTsmMuTcToProps | chipscopy/api/ila/tsm/ila_tsm_mapper.py:164-263 | From the probe compares of all branches, as they are written in either case, to the core's registers: on every pair of samples the register of a branch, "tc" and the number that has its state for its remainder by 16 and its place for its quotient, fires exactly when its split compares mean so, and, when each of its compares can be split, exactly when the condition over whole probes, with the operators that the branch's compares give, holds; an internal error exactly for a participating compare outside its port, overflow exactly when some port wants more distinct strings than it has match units, less the reserved one; no register for the first match unit of any port when these are reserved; and in every condition register a character for each match unit of the core |
| TriggerProbes.SplitKeepsExactly | chipscopy/api/ila/tsm/ila_tsm_mapper.py:208-225 | Splitting an equality, inequality or reduction-or compare over port segments keeps its meaning on every sample if and only if one segment at most has bits that matter, or it is an equality under `and` or `nand`, or one of the other two under `or` or `nor` |
| TriggerProbes.SplitKeepsMeaning | chipscopy/api/ila/tsm/ila_tsm_mapper.py:241-249 | A whole condition keeps its meaning when each of its compares can be split |
| TriggerProbes.SplitLosesExample | chipscopy/api/ila/tsm/ila_tsm_mapper.py:208-225 | A two-bit `!=` over two ports under `and`: a sample on which the probe differs from the value, but the split compares do not hold |
| TriggerProbes.ReverseKeepsExactly | chipscopy/api/ila/tsm/ila_tsm_data.py:302-309 | A compare with swapped operands says what was written exactly for `==` and `!=`, or when the two numbers differ: relational operators are negated instead of mirrored |
| TriggerProbes.OperatorReversible | chipscopy/api/ila/tsm/ila_tsm_data.py:302-309 | For a number and the values that a probe can have: swapping the operands of an operator is right on all of them if and only if the operator is `==` or `!=`, or the probe cannot have that number |
| TriggerTsm.AddProbeValueToPorts | chipscopy/api/ila/tsm/ila_tsm_mapper.py:208-225 | The two loops give the mapper the specified compares, one for each segment |
| TriggerTsm.PreparedParts | chipscopy/shared/ila_mapper.py:268-280 | What the mapper makes of the parts of a probe compare is the parts in upper case |
| TriggerTsm.TsmUnitsNumbered | chipscopy/api/ila/tsm/ila_tsm_mapper.py:178-206 | With or without a reserved unit on each port, the numbering of match units is in range and injective, as emission needs it |
| TriggerTsm.UnitCountIs | chipscopy/api/ila/tsm/ila_tsm_mapper.py:178-206 | The match units of all ports are counted |
| TriggerTsm.NoUnit | chipscopy/api/ila/tsm/ila_tsm_mapper.py:178-206 | A unit that a port does not have has the number -1 |
| TriggerTsm.TcNamesDistinct | chipscopy/api/ila/tsm/ila_tsm_mapper.py:266-268 | Branches in different places have registers of their own, which are no match unit's |
| TriggerTsm.ReservedUnclaimed | chipscopy/api/ila/tsm/ila_tsm_mapper.py:178-206 | With the first match unit of every port reserved, neither a branch nor a usable unit has its register |
| TriggerMapper.CompileTrigger | chipscopy/api/ila/tsm/ila_tsm_mapper.py:251-263 | Mapping and, if all is mapped, emission of registers: on every pair of samples, and for any meaning of the relational operators, each emitted condition register fires exactly when the condition as the mapper was given it holds; an internal error exactly when a participating compare lies outside its port; otherwise overflow exactly when some port wants more distinct strings than it has units |
| TriggerAllocation.CompilerIsCorrectAlways | chipscopy/shared/ila_mapper.py:397-460 | The same for the whole pipeline of passes, allocation and registers, quantified over all samples and conditions |
| TriggerAllocation.CompilerIsCorrect | chipscopy/shared/ila_mapper.py:397-460 | One condition and one pair of samples: the registers built from allocated units fire exactly when the source condition holds, shared units and the rewritten `nor` included |
| TriggerRegisters.RegistersMeanSource | chipscopy/shared/ila_mapper.py:362-438 | Given sound allocation, condition registers over programmed units mean the source conditions |
| TriggerRegisters.RegistersMeanConditions | chipscopy/shared/ila_mapper.py:397-438 | Given sound allocation, condition registers mean the compiled conditions |
| TriggerRegisters.FiresIsCombine | chipscopy/shared/ila_mapper.py:362-430 | The register of an and, or, nand or nor condition, read over the outputs of the used units, combines exactly the compares of the condition; nor by De Morgan |
| TriggerRegisters.ConditionValueActive | chipscopy/shared/ila_mapper.py:418-430 | The characters of a condition register select exactly the used units, although the register lists them in reverse order |
| TriggerRegisters.UsedUnitsExact | chipscopy/shared/ila_mapper.py:413-416 | A unit is marked as used exactly when some compare of the condition has it |
| TriggerRegisters.MarkIs | chipscopy/shared/ila_mapper.py:413-416 | Marking a unit is assignment to a list, from the end for a negative index, with an error exactly outside of it |
| TriggerRegisters.ConditionRegistersHold | chipscopy/shared/ila_mapper.py:412-430 | A condition keeps its register unless a later condition has the same name |
| TriggerRegisters.ConditionNameIs | chipscopy/shared/ila_mapper.py:424-427 | A condition without a name is "sqc", or "tc" and its number |
| TriggerRegisters.UnitRegistersHold | chipscopy/shared/ila_mapper.py:433-436 | When the unit numbering is injective, every unit register holds its own string |
| TriggerRegisters.NoOtherRegister | chipscopy/shared/ila_mapper.py:412-436 | There are no other registers than those of conditions and of match units that the ports have |
| TriggerRegisters.RegistersAreFullWidth | chipscopy/shared/ila_mapper.py:412-430 | Every condition has a register with a character for each match unit of the core |
| TriggerRegisters.UnitOutputIsCompare | chipscopy/shared/ila_mapper.py:178-182 | A unit programmed with the port-wide string of a compare outputs whether the compare holds |
| TriggerRegisters.ParseRegisterInverse | chipscopy/shared/ila_mapper.py:178-182 | Operator and value can be told apart again in a register string |
| TriggerCompiler.CompileKeepsMeaning | chipscopy/shared/ila_mapper.py:440-455 | No pass changes what a condition means as it is written, in either case, on any sample: upper case, sorting, dropping don't-cares, flipping, merging |
| TriggerCompiler.SimplifyKeepsMeaning | chipscopy/shared/ila_mapper.py:282-302 | The passes before merging keep the meaning for all four operators |
| TriggerCompiler.UpperCharMeans | chipscopy/shared/ila_mapper.py:66-71 | Turning a character to upper case does not change on which edges it holds |
| TriggerCompiler.UpperCharIsLetter | chipscopy/shared/ila_mapper.py:66-71 | Nor whether it is don't-care, and each documented letter in lower case becomes that letter |
| TriggerCompiler.UpperMeaning | chipscopy/shared/ila_mapper.py:299-302 | A condition in upper case means what it means as it is written |
| TriggerCompiler.FlipKeepsMeaning | chipscopy/shared/ila_mapper.py:90-97 | Turning a one-bit `!=` into `==` with the negated character keeps the meaning of every compare that says something |
| TriggerCompiler.NegateBitIsComplement | chipscopy/shared/ila_mapper.py:595-608 | The negated character holds on exactly the edges on which the character does not |
| TriggerCompiler.GreedyMergeIsConjunction | chipscopy/shared/ila_mapper.py:194-218 | The merged list holds exactly when the original list does, on every sample |
| TriggerCompiler.GreedyMergeIsMaximal | chipscopy/shared/ila_mapper.py:194-218 | No two surviving compares can still be merged |
| TriggerCompiler.CompileIsMaximal | chipscopy/shared/ila_mapper.py:440-455 | For and/nand, the compiled compares cannot be merged further and are no more than before merging |
| TriggerCompiler.MergeIsUnion | chipscopy/shared/ila_mapper.py:127-150 | Two compares merge if and only if they are `==` on one port and agree wherever both constrain a bit; the result constrains the union of the bits, over the joint extent |
| TriggerCompiler.MergeIsConjunction | chipscopy/shared/ila_mapper.py:99-125 | A merged compare holds exactly when both parts hold |
| TriggerCompiler.ResizeKeepsActive | chipscopy/shared/ila_mapper.py:153-176 | Padding gives the asked width and changes neither which port bits are constrained nor how |
| TriggerCompiler.SortPermutes | chipscopy/shared/ila_mapper.py:295-297 | Sorting keeps the compares |
| TriggerCompiler.SortIsStable | chipscopy/shared/ila_mapper.py:295-297 | Sorting orders by key and keeps the order of compares with one key |
| TriggerCompiler.SortKeyOrders | chipscopy/shared/ila_mapper.py:62-64 | For bits below 2^16, keys order by port and then by bit |
| TriggerCompiler.RemoveDontCareMembers | chipscopy/shared/ila_mapper.py:291-293 | Exactly the compares that are all don't-care go |
| TriggerCompiler.CompileFits | chipscopy/shared/ila_mapper.py:169-172 | The compiled compares lie on existing ports and within their widths exactly when all participating source compares do |
| TriggerCompiler.FitsIs | chipscopy/shared/ila_mapper.py:169-172 | A compare fits when its port exists and the highest bit that it spans is one of the port's |
| TriggerCompiler.CompileKeepsWellFormed | chipscopy/shared/ila_mapper.py:440-455 | Documented operators and characters stay so through all passes |
| TriggerAllocation.AllocateAllExact | chipscopy/shared/ila_mapper.py:326-332 | A port's strings only grow at the end, stay distinct, and become exactly the wanted ones |
| TriggerAllocation.FirstIndexStable | chipscopy/shared/ila_mapper.py:327-329 | The unit of a compare is not affected by later compares |
| TriggerAllocation.AllocateNext | chipscopy/shared/ila_mapper.py:319-334 | Mapping one more compare gives it the unit of its own string and leaves the units of earlier ones |
| TriggerAllocation.AllocationSucceedsExactly | chipscopy/shared/ila_mapper.py:312-334 | Starting from empty ports, all is mapped if and only if each port's number of distinct strings is at most its number of units |
| TriggerAllocation.AllocationIsSound | chipscopy/shared/ila_mapper.py:319-334 | Every compare's unit exists and holds the compare's own string |
| TriggerMapper.Match.EnsureProperTypes | chipscopy/shared/ila_mapper.py:66-71 | The value object is rewritten to upper case |
| TriggerMapper.Match.FlipOneBitNeqToEq | chipscopy/shared/ila_mapper.py:90-97 | The object becomes the flipped compare |
| TriggerMapper.Match.MergeSharedPorts | chipscopy/shared/ila_mapper.py:99-125 | A fresh object with the merged compare, or nothing when merging is not possible |
| TriggerMapper.AbsorbMatches | chipscopy/shared/ila_mapper.py:203-211 | The inner loop: one compare absorbs all it can, the others remain in order |
| TriggerMapper.Condition.MergeSharedPorts | chipscopy/shared/ila_mapper.py:194-218 | The work-list loop leaves the greedy merge for and/nand and nothing changed otherwise |
| TriggerMapper.IlaMapper.AddPorts | chipscopy/shared/ila_mapper.py:248-252 | Fresh ports of the given widths and unit counts, with nothing allocated |
| TriggerMapper.IlaMapper.AddCondition | chipscopy/shared/ila_mapper.py:254-266 | A fresh condition without compares is appended; its index is returned |
| TriggerMapper.IlaMapper.AddProbeValue | chipscopy/shared/ila_mapper.py:268-280 | One compare is appended, in upper case and without underscores |
| TriggerMapper.UnderscoresGo | chipscopy/shared/ila_mapper.py:268-280 | Exactly the underscores of a value go |
| TriggerMapper.IlaMapper.FlipOneBitNeqToEq | chipscopy/shared/ila_mapper.py:286-289 | Every compare of every condition is flipped, also when conditions share objects |
| TriggerMapper.IlaMapper.RemoveDontCareMatches | chipscopy/shared/ila_mapper.py:291-293 | Every condition keeps its other compares |
| TriggerMapper.IlaMapper.SortMatches | chipscopy/shared/ila_mapper.py:295-297 | Every condition's list is sorted |
| TriggerMapper.IlaMapper.MergeSharedPorts | chipscopy/shared/ila_mapper.py:282-284 | Every condition's list is merged |
| TriggerMapper.IlaMapper.EnsureProperTypes | chipscopy/shared/ila_mapper.py:299-302 | Every compare is rewritten to upper case |
| TriggerMapper.IlaMapper.MapMatchUnit | chipscopy/shared/ila_mapper.py:319-334 | The compare gets the index of its string on its port, which is appended when it is new; an error exactly when it does not lie on a port |
| TriggerMapper.IlaMapper.MapMatchUnits | chipscopy/shared/ila_mapper.py:312-317 | All compares are allocated in order; the result says whether every unit is in range |
| TriggerMapper.IlaMapper.Map | chipscopy/shared/ila_mapper.py:440-460 | The compares become the compiled ones, every one has its unit, and the status tells error, overflow and success apart exactly |
| TriggerMapper.IlaMapper.GetRegMuMapping | chipscopy/shared/ila_mapper.py:397-438 | The loops emit exactly the specified registers |
| WaveProcess.OutputIsData | chipscopy/shared/ila_data.py:74-197 | End to end: window w begins at w times the window size and ends a window size later or with the data; its mark is the first sample in it whose number has the bit that the data width counts to; output sample k of the window is raw sample (k + mark - trigger position) modulo the window, cut to ceil(width / 8) bytes, so that the mark comes to the trigger position |
| WaveProcess.ProcessRawData | chipscopy/shared/ila_data.py:74-95 | From the raw bytes to the output bytes, in place: the bytes of the specified samples; an error exactly for empty data, and otherwise exactly when some window of the raw samples has no mark |
| WaveProcess.RawSampleIs | chipscopy/shared/ila_data.py:98-117 | Raw sample i is the i-th piece of the raw bytes, of which no more are used than the windows have samples |
| WaveSamples.FlatAt | chipscopy/shared/ila_data.py:110-117 | Byte j of sample k lies j bytes after the k samples before it |
| WaveData.AlignedIsLeast | chipscopy/shared/ila_data.py:120-134 | A raw sample takes the least whole number of alignment units that holds its bits |
| WaveProcess.TriggerBitStays | chipscopy/shared/ila_data.py:174-185 | Contrary to the documentation the trigger bit of the trigger sample is still set in the output exactly when it shares a byte with data bits |
| WaveProcess.TriggerBitInOutput | chipscopy/shared/ila_data.py:174-185 | One sample of one data bit: the second bit of the output is the trigger bit |
| WaveProcess.SucceedsExactly | chipscopy/shared/ila_data.py:139-140 | There is an output if and only if every window of the raw samples has a mark |
| WaveProcess.CapturedKeepsTrigger | chipscopy/shared/ila_data.py:32-55 | A full capture stays as it is; otherwise a partial window is kept exactly with its trigger, and lacks a sample, the samples counted are those of the full windows and of that one, and width, trigger position and window size stay |
| WaveProcess.PartialWindowStays | chipscopy/shared/ila_data.py:74-95 | Contrary to the documentation, processing an upload of whole windows gives all their samples, so just the captured ones if and only if no window is partial |
| WaveProcess.PartialWindowInOutput | chipscopy/shared/ila_data.py:32-95 | One window of two samples, one of which was captured: the output has both |
| WaveProcess.UploadHoldsTrigger | chipscopy/shared/ila_data.py:58-71 | An upload of the computed number of bytes consists of whole samples of the computed size, in whole windows, each of which holds the trigger position |
| WaveProcess.UnrolledSample | chipscopy/shared/ila_data.py:145-172 | Every sample of every unrolled window comes from where it should |
| WaveProcess.SampleIsData | chipscopy/shared/ila_data.py:174-185 | Cutting samples to their data bytes keeps the data bits and the source |
| WaveProcess.SameMarks | chipscopy/shared/ila_data.py:98-117 | Dropping alignment bytes keeps all trigger marks |
| WaveProcess.AlignSamplesTo1Byte | chipscopy/shared/ila_data.py:98-117 | The overlapping in-place moves leave the low bytes of every whole sample |
| WaveProcess.UnrollData | chipscopy/shared/ila_data.py:137-197 | All windows are rotated in place and the trigger byte is dropped; fails exactly when the specification does |
| WaveData.KeepLowBytes | chipscopy/shared/ila_data.py:110-117 | The in-place compaction never overwrites a byte before it is read: the prefix becomes the kept bytes of all samples |
| WaveData.FindMark | chipscopy/shared/ila_data.py:146-154 | The first sample with the trigger bit, or -1 |
| BitArithmetic.AndTestsBit | chipscopy/shared/ila_data.py:147-154 | Masking with a power of two gives zero exactly when the quotient by it is even |
| WaveData.UnrollOneWindow | chipscopy/shared/ila_data.py:145-172 | The window's bytes are rotated and all other bytes stay |
| WaveData.RotatedWindow | chipscopy/shared/ila_data.py:159-172 | Rotating bytes at the computed address, with its roll-around, rotates whole samples |
| WaveData.UnrollEveryWindow | chipscopy/shared/ila_data.py:188-194 | Every window, the shorter last one included, is unrolled in place |
| WaveUnroll.UnrollWindowIsRotation | chipscopy/shared/ila_data.py:145-172 | A window is rotated so that the first marked sample comes to the trigger position |
| WaveUnroll.WrapIsModulo | chipscopy/shared/ila_data.py:159-167 | The roll-around of negative addresses is the modulo operation |
| WaveUnroll.UnrollPermutes | chipscopy/shared/ila_data.py:137-197 | Unrolling loses and invents no sample |
| WaveUnroll.UnrollSucceedsExactly | chipscopy/shared/ila_data.py:156-157 | Unrolling succeeds if and only if every window has a marked sample |
| WaveUnroll.UnrollWindowsAt | chipscopy/shared/ila_data.py:188-194 | Each window of the result is the unrolled window of the input at the same place |
| WaveUnroll.BaseIsProduct | chipscopy/shared/ila_data.py:188-190 | Window w begins at w times the window size |
| TransferWindow.RunKeepsInv | chipscopy/client/debug_core_client.py:80-139 | In every run with replies in any order: at most eight requests are outstanding; all is sent or the window is full; the callback is called at most once, with the recorded error |
| TransferWindow.AtMostEight | chipscopy/client/debug_core_client.py:84-103 | In every run at most eight requests are outstanding; exactly eight while there is more to ask for and the transfer is not over |
| TransferWindow.ReplyKeepsInv | chipscopy/client/debug_core_client.py:102-139 | One reply keeps all of that |
| TransferWindow.RefillKeeps | chipscopy/client/debug_core_client.py:88-98 | Refilling ends with all sent or a full window and counts its requests |
| TransferWindow.RunCounts | chipscopy/client/debug_core_client.py:80-139 | Replies so far and replies to come add up to the requests sent, which are never more than the chunks: every run ends |
| TransferWindow.CompletedExactly | chipscopy/client/debug_core_client.py:129-139 | When every reply is in, the callback was called exactly once, with the first error if there was one |
| TransferWindow.CallsBackExactly | chipscopy/client/debug_core_client.py:129-144 | The callback is called in the end if and only if the transfer is not empty |
| TransferWindow.RunErrorIsFirst | chipscopy/client/debug_core_client.py:106-109 | The recorded error is the first one that any reply carried |
| TransferWindow.NothingAfterError | chipscopy/client/debug_core_client.py:105-139 | A reply with an error, or after one, sends no request; the first error is called back at once; after the callback nothing is sent and it is not called again |
| TransferWindow.ReplyPending | chipscopy/client/debug_core_client.py:102-132 | Which chunks are asked for and unanswered after a reply |
| TransferWindow.RefillSends | chipscopy/client/debug_core_client.py:88-98 | Refilling adds requests for new chunks only |
| TransferWindow.ChunksTile | chipscopy/client/debug_core_client.py:70-78 | The chunks have no gap and no overlap: every byte of the range lies in exactly one |
| ReadTransfer.ReadIsExact | chipscopy/client/debug_core_client.py:56-144 | When success is reported, and the device answers each request with what its memory holds at the requested words, every whole word of the range is in the buffer, for any order of replies; the rest of the buffer is unchanged |
| ReadTransfer.RequestsAre | chipscopy/client/debug_core_client.py:70-78 | The requests are chunks of 0x8000 bytes from the address on, of which the last may be shorter, each for its whole words and its own place in the buffer |
| ReadTransfer.OutsideStays | chipscopy/client/debug_core_client.py:110-127 | Whatever the replies carry, no byte outside the slice is written |
| ReadTransfer.ReadIsCompleteExactly | chipscopy/client/debug_core_client.py:76-77 | Success means that the whole slice is the device's memory, for every device that could have given the replies, if and only if the size is a multiple of four |
| ReadTransfer.TailCanDiffer | chipscopy/client/debug_core_client.py:76-77 | For any other size and any successful run, a device memory that fits all replies and differs from the slice |
| ReadTransfer.OneByteIsNotRead | chipscopy/client/debug_core_client.py:76-77 | A read of one byte asks for no word, succeeds, and leaves the buffer as it was |
| ReadTransfer.ReadCompletes | chipscopy/client/debug_core_client.py:102-144 | Once all replies are in, the callback was called once (never for an empty read), with the first error |
| ReadTransfer.ReadRunByte | chipscopy/client/debug_core_client.py:102-132 | At every moment each byte is either still as it was or the device's, by whether its chunk was answered |
| ReadTransfer.ReadRunIsWindowRun | chipscopy/client/debug_core_client.py:80-139 | Every read is a run of the sliding window |
| ReadTransfer.Reader.constructor | chipscopy/client/debug_core_client.py:56-68 | A new transfer has sent nothing |
| ReadTransfer.Reader.ReadDone | chipscopy/client/debug_core_client.py:134-139 | The callback gets the token once |
| ReadTransfer.Reader.RequestData | chipscopy/client/debug_core_client.py:80-100 | The refill loop does what the window does and returns the first token it sent |
| ReadTransfer.Reader.TakeReply | chipscopy/client/debug_core_client.py:109-125 | A reply stores its data, or leaves the error, the one for too much data included |
| ReadTransfer.Reader.ReceiveData | chipscopy/client/debug_core_client.py:102-132 | The callback refines one reply of the specification, buffer included, and keeps the invariant |
| ReadTransfer.ReadBytes | chipscopy/client/debug_core_client.py:33-144 | Fails exactly when the buffer is too small; otherwise the first window is sent and the token is that of the first request |
| WriteTransfer.WriteIsExact | chipscopy/client/debug_core_client.py:169-245 | On success device memory equals the source slice over the whole range; outside it never changes |
| WriteTransfer.RequestsAre | chipscopy/client/debug_core_client.py:181-190 | The requests are chunks of 0x8000 bytes from the address on, of which the last may be shorter, each with its own slice of the source |
| WriteTransfer.WriteCompletes | chipscopy/client/debug_core_client.py:216-245 | Once all replies are in, the callback was called once (never for an empty write), with the first error |
| WriteTransfer.WriteRunMemory | chipscopy/client/debug_core_client.py:183-233 | At every moment performed chunks hold the source, and chunks answered without error are performed |
| WriteTransfer.WriteRunIsWindowRun | chipscopy/client/debug_core_client.py:194-240 | Every write is a run of the sliding window |
| WriteTransfer.Writer.constructor | chipscopy/client/debug_core_client.py:169-181 | A new transfer has sent nothing |
| WriteTransfer.Writer.WriteDone | chipscopy/client/debug_core_client.py:235-240 | The callback gets the token once |
| WriteTransfer.Writer.SendData | chipscopy/client/debug_core_client.py:194-214 | The send loop does what the window does and returns the first token it sent |
| WriteTransfer.Writer.SendConfirmation | chipscopy/client/debug_core_client.py:216-233 | The callback refines one reply and keeps the invariant |
| WriteTransfer.WriteBytes | chipscopy/client/debug_core_client.py:146-245 | Fails exactly when the buffer is too small; otherwise the first window is sent |
| RequestModel.MutualExclusion | chipscopy/dm/request.py:145-202 | In every run, only the head of a queue runs, and no two requests of a group run at once |
| RequestHistory.StateIsHistory | chipscopy/dm/request.py:127-234 | In every run, read off its steps alone: the operations that run are those that were started when it was their turn and have not called back; the queues hold who joined and did not leave, in that order; and exactly those requests are scheduled, once each, that did not join a queue yet, unless their node was not found, or whose turn it is and whose operation is not under way |
| RequestHistory.OneUnderWay | chipscopy/dm/request.py:145-202 | No two operations of a group are under way at once, and one that is under way is the first of its group that has not left |
| RequestModel.NoLostWakeUp | chipscopy/dm/request.py:80-84 | In every run, the head of a queue is running or has exactly one invocation scheduled; the others have none, and a next step is always possible |
| RequestModel.FirstComeFirstServed | chipscopy/dm/request.py:227-234 | Requests leave a queue once each, in the order in which they joined it |
| RequestModel.QuiescentMeansServed | chipscopy/dm/request.py:70-84 | When nothing is scheduled and nothing runs, everyone who joined has left |
| RequestModel.RunKeepsInv | chipscopy/dm/request.py:127-234 | The invariant behind these holds in every run |
| RequestModel.NextKeepsInv | chipscopy/dm/request.py:127-234 | Every step keeps it |
| RequestModel.DoneRunKeepsInv | chipscopy/dm/request.py:227-234 | So does the end of a request, which schedules the next |
| RequestModel.JoinKeepsFiring | chipscopy/dm/request.py:116-121 | So does joining a queue |
| RequestDispatch.RequestQueue.Add | chipscopy/dm/request.py:74-75 | Appends |
| RequestDispatch.RequestQueue.DoneRequest | chipscopy/dm/request.py:80-84 | Takes the request out and names the next one to invoke; an error, which changes nothing, exactly for a request that is not in the queue |
| RequestDispatch.Manager.JoinQueue | chipscopy/dm/request.py:26-32 | Creates the group's queue when it is missing, and joins it once |
| RequestDispatch.Manager.IsFirstOfQueue | chipscopy/dm/request.py:77-78 | Says whether the request is the head of its queue |
| RequestDispatch.Manager.DoneRun | chipscopy/dm/request.py:227-234 | On queue objects: what the specification does at the end of a request |
| RequestDispatch.Manager.InvokeQueuedRequest | chipscopy/dm/request.py:157-202 | The part of an invocation after the queue was joined |
| RequestDispatch.Manager.Invoke | chipscopy/dm/request.py:145-202 | A scheduled invocation, with all of its branches, is a step of the specification |
| RequestDispatch.Manager.Issue | chipscopy/dm/request.py:127-143 | Issuing a request is a step of the specification; on the dispatch thread, where the first invocation is immediate, it is that step and then the invocation |
| RequestDispatch.Manager.OperationDone | chipscopy/dm/request.py:227-234 | The callback of a running operation is a step of the specification |
| EventQueue.WaitingMeansIdle | chipscopy/tcf/EventQueue.py:57-82 | Under any interleaving, a dispatcher that waits unnotified has an empty queue and a set waiting flag, and the next post or shutdown wakes it |
| EventQueue.ExactlyOnceInOrder | chipscopy/tcf/EventQueue.py:57-82 | In every run, read off its steps: the events that were called are the first ones of those posted before shutdown, as many as calls were finished; the one in hand is the next; when the thread exits, all have been called |
| EventQueue.RunIsHistory | chipscopy/tcf/EventQueue.py:74-82 | Exactly the events posted before the first shutdown are accepted, in that order |
| EventQueue.ShutdownDrains | chipscopy/tcf/EventQueue.py:34-46 | After shutdown the thread can always go on, each of its steps brings it nearer to its exit, and nobody takes it away |
| EventQueue.ExitsAfterShutdown | chipscopy/tcf/EventQueue.py:57-66 | The thread exits, with nothing left behind, exactly after a number of its own steps that is known at shutdown |
| EventQueue.RunKeepsInv | chipscopy/tcf/EventQueue.py:57-82 | Accepted events are the dispatched, the one in hand, and the queued, in every run |
| EventQueue.NextKeepsInv | chipscopy/tcf/EventQueue.py:57-82 | Every step keeps that |
| EventQueue.EventDispatcher.Post | chipscopy/tcf/EventQueue.py:74-82 | Posting under the lock queues the event behind the others, except after shutdown, when it is refused and nothing changes; it is a step of the specification |
| EventQueue.EventDispatcher.ShutDown | chipscopy/tcf/EventQueue.py:38-42 | Shutdown under the lock is a step |
| EventQueue.EventDispatcher.TakeEvent | chipscopy/tcf/EventQueue.py:60-66 | Taking an event, waiting or leaving is a step |
| EventQueue.EventDispatcher.CallEvent | chipscopy/tcf/EventQueue.py:67-70 | Calling the event is a step |
| Timers.PostedOnTimeAndInOrder | chipscopy/tcf/protocol.py:450-467 | In every run, whatever the clock does, a delayed event is posted once at most, no earlier than its deadline by the clock at that moment, and after everything added before it with an earlier or equal deadline |
| Timers.PostedAfterDelay | chipscopy/tcf/protocol.py:126-130 | In every run, when an event is posted, its delay in milliseconds has passed by the clock since it was added |
| Timers.DueIsPosted | chipscopy/tcf/protocol.py:457-467 | In every run, when the thread looks after a deadline, it posts an event with the earliest deadline of all that are pending, unless it is told to end or the event queue is shut down |
| Timers.PostedByLook | chipscopy/tcf/protocol.py:461-467 | One step posts one event at most, and only when the thread looks; the time that is noted is the clock of that moment |
| Timers.RunIsHistory | chipscopy/tcf/protocol.py:111-130 | The timers that were added, their deadlines, the clock and the two flags are what the steps say |
| Timers.SleepsUntilEarliest | chipscopy/tcf/protocol.py:457-464 | A sleeping thread has asked to be woken by the earliest of all pending deadlines; it never sleeps without limit while a timer is pending |
| Timers.LookPostsLeast | chipscopy/tcf/protocol.py:461-467 | What is posted is the least pending timer by time and number |
| Timers.SortOfAppended | chipscopy/tcf/protocol.py:126-130 | Appending to the sorted queue and sorting it is insertion |
| Timers.InsertKeepsSorted | chipscopy/tcf/protocol.py:428-443 | Insertion keeps the order by time and number strict |
| Timers.RunKeepsInv | chipscopy/tcf/protocol.py:450-467 | In every run the queue stays sorted, and each timer that was added is pending, posted or refused, and just one of these |
| Timers.RunKeepsOrder | chipscopy/tcf/protocol.py:450-467 | The order of posting holds in every run |
| Timers.TimerQueue.constructor | chipscopy/tcf/protocol.py:445-447 | The empty queue is the start of a run |
| Timers.TimerQueue.InvokeLaterWithDelay | chipscopy/tcf/protocol.py:111-130 | Adding a timer is a step; without a delay the event goes to the event queue at once |
| Timers.TimerQueue.DispatchTimers | chipscopy/tcf/protocol.py:457-470 | One turn of the loop, or the exit from it when the thread is to end or the event queue refuses the event, is a step |
| Timers.TimerQueue.Stop | chipscopy/tcf/protocol.py:69-72 | Telling the thread to end, and waking it, is a step |
| Timers.ExitsWhenStopped | chipscopy/tcf/protocol.py:57-74 | In every run, a thread that is told to end waits no more: it has left its loop or leaves it when it looks next, and nothing is posted from then on |
| Timers.RefusedWhenShut | chipscopy/tcf/protocol.py:465-470 | In every run, at most one timer is refused, only when the event queue is shut down, and the thread ends with it |
| NodeModel.RemovesExactlyReachable | chipscopy/dm/__init__.py:348-373 | On any graph, cyclic ones included, removal ends and removes exactly the nodes that can be reached through children lists |
| NodeModel.RemovedIsReachable | chipscopy/dm/__init__.py:348-373 | Nothing else is removed |
| NodeModel.RemoveNodeTakesChildren | chipscopy/dm/__init__.py:371-373 | The children of a removed node are removed |
| NodeModel.RemoveNodePart | chipscopy/dm/__init__.py:359-367 | Survivors keep their parents and exactly their surviving children |
| NodeModel.WithoutFirst | chipscopy/dm/__init__.py:362-365 | Only the first mention of a child is dropped |
| NodeModel.RemoveKeepsPaths | chipscopy/dm/__init__.py:348-373 | A survivor can be reached from wherever it could be reached |
| NodeForest.RemoveKeepsTree | chipscopy/dm/__init__.py:348-373 | Removing a node other than the root from a tree leaves a tree |
| NodeForest.RemoveKeepsForest | chipscopy/dm/__init__.py:348-373 | Removing any node from nodes whose parents and children lists agree leaves them so |
| NodeForest.RemoveTouchesParentOnly | chipscopy/dm/__init__.py:359-367 | The removed node's parent no longer lists it, once; every other survivor is untouched |
| NodeForest.ParentStays | chipscopy/dm/__init__.py:348-373 | In a tree no node goes with one of its children |
| NodeForest.SetChildrenKeepsExactly | chipscopy/dm/__init__.py:463-477 | Replacing the children of a node of a tree leaves parents and lists in agreement exactly when the new list names, once each, only children it has |
| NodeForest.AddKeepsForestExactly | chipscopy/dm/__init__.py:308-346 | Adding keeps parents and lists in agreement exactly when the node is there under that parent, or is new and the parent exists: a node that moves leaves its old parent's list stale |
| NodeForest.AddChanges | chipscopy/dm/__init__.py:318-340 | A node that is added or moved becomes a leaf, the last child of the parent if that is there and does not list it yet; all else stays |
| NodeForest.RemoveUndoesAdd | chipscopy/dm/__init__.py:325-373 | Removing a node just added under an existing parent gives back the graph |
| NodeUpdate.UpdateKeepsTreeExactly | chipscopy/dm/chipscope.py:129-132 | Setting the children of a node of a tree and then adding each of them leaves parents and lists in agreement if and only if the list names, once each and without the root, nodes that are new, or the parent's own, or go with an own child that is not listed; and then it leaves a tree. It makes no difference whether those that are there are added again |
| NodeUpdate.AddedForestExactly | chipscopy/dm/memory.py:151-155 | The same for the additions alone, once the children that are not listed are gone |
| NodeUpdate.AddEachExtends | chipscopy/dm/__init__.py:318-346 | Where each listed child is new or the parent's own, adding them leaves all nodes as they are and makes each new one a leaf below the parent |
| NodeUpdate.RemoveAllReached | chipscopy/dm/__init__.py:473-475 | Removing a list of nodes removes exactly what can be reached from one of them |
| NodeEmptying.RemoveAllEndsExactly | chipscopy/dm/__init__.py:375-380 | On every graph, the loop ends if and only if the manager lists, once each, only nodes that name it as their parent, and each of them goes before the manager's own place in the map does when they are removed in turn |
| NodeEmptying.ApartEndsExactly | chipscopy/dm/__init__.py:375-380 | Where no listed node takes the root with it, the first half of that condition decides |
| NodeEmptying.TurnKeeps | chipscopy/dm/__init__.py:379-380 | No turn of the loop makes or breaks the condition, and where it holds, a node goes |
| NodeEmptying.LeavesList | chipscopy/dm/__init__.py:348-373 | Exactly the nodes that go before the root leave its own list, which outlives its place in the map |
| NodeEmptying.OtherListStays | chipscopy/dm/__init__.py:348-373 | A list that names others than the root's own nodes, or one twice, is never emptied |
| NodeEmptying.RemoveKeepsWhole | chipscopy/dm/__init__.py:348-373 | As long as the root stays, the manager's own list is what the map has for it |
| NodeEmptying.RemoveAllCanGoOn | chipscopy/dm/__init__.py:318-380 | Three calls of `add_node` after which it never ends: from the second turn on it removes a node that is gone |
| NodeEmptying.RemoveKeepsOwn | chipscopy/dm/__init__.py:348-373 | As long as the root stays, removal neither mends nor breaks its list |
| NodeEmptying.EmptiesExactlyReachable | chipscopy/dm/__init__.py:375-380 | Where the loop ends, exactly the nodes that can be reached from the root are gone, apart from the root |
| NodeEmptying.RootStaysExactly | chipscopy/dm/__init__.py:375-380 | Where the loop ends, the root is still there exactly when none of the nodes that it listed could reach it |
| NodeEmptying.TreeEmpties | chipscopy/dm/__init__.py:375-380 | On a tree the loop ends, and only the root is left |
| NodeTree.CsManager.constructor | chipscopy/dm/__init__.py:296-302 | The manager is stored as the parent of top-level nodes, and lists nothing |
| NodeTree.CsManager.Detach | chipscopy/dm/__init__.py:359-365 | The parent object, if it exists, drops the first mention of the child |
| NodeTree.CsManager.NotifyNodeRemoved | chipscopy/dm/__init__.py:517-523 | With a listener, a node is reported unless it is reported already, and a callback is posted exactly when nothing else is reported |
| NodeTree.CsManager.NodeRemoved | chipscopy/dm/__init__.py:525-529 | A posted callback always finds something to hand over, hands over all of it, and leaves nothing and no other callback |
| NodeTree.CsManager.RemoveNode | chipscopy/dm/__init__.py:348-373 | On shared node objects: links as specified, survivors are the same objects with the same marks, and with a listener exactly the removed ones are reported, once each, and marked; the manager's own list as specified |
| NodeTree.CsManager.RemoveEach | chipscopy/dm/__init__.py:371-373 | The loop over the removed node's children does that for the list |
| NodeTree.CsManager.SetChildren | chipscopy/dm/__init__.py:463-477 | Links as specified; the list is set on the parent object |
| NodeTree.CsManager.RemoveAll | chipscopy/dm/__init__.py:375-380 | Where the loop ends, which `NodeEmptying.RemoveAllEndsExactly` decides: what it leaves, on shared objects, as specified, an empty list, and what it reports |
| InstructionCodec.LayoutTiles | chipscopy/api/patg.py:133-169 | The 35 fields cover bits 0 to 410 with no gap and no overlap |
| InstructionCodec.UnpackAfterPack | chipscopy/api/patg.py:313-343 | Unpacking the packed word gives back all validated fields; the word has 411 bits |
| InstructionCodec.FieldNamed | chipscopy/api/patg.py:321-329 | In a packed word, the bits of a named field are the value of the field of that name |
| InstructionCodec.Addresses | chipscopy/api/patg.py:133-169 | The bits of the fields of addresses, by name |
| InstructionCodec.Loops | chipscopy/api/patg.py:133-169 | The bits of the fields of loops, repetition and delay, by name |
| InstructionCodec.AxiSignals | chipscopy/api/patg.py:133-169 | The bits of the fields of the AXI port, by name |
| InstructionCodec.Others | chipscopy/api/patg.py:133-169 | The bits of the other fields, by name |
| InstructionCodec.PackAfterUnpack | chipscopy/api/patg.py:331-343 | Packing what was unpacked from any word gives its low 411 bits, and validation cannot fail |
| InstructionCodec.PackAfterUnpackExactly | chipscopy/api/patg.py:321-343 | Packing what was unpacked from a number gives that number if and only if it is not negative and has 411 bits at most |
| InstructionCodec.StringKeptExactly | chipscopy/api/patg.py:331-343 | Of 103 digits, all of which are accepted: the number packed again is the one written if and only if the first digit is below eight |
| InstructionCodec.TopBitIsLost | chipscopy/api/patg.py:331-343 | An eight and 102 zeros are accepted, and packed to zero |
| Hexadecimal.ParseIntOfDigits | chipscopy/api/patg.py:338-338 | On digits alone, `int` with its signs, prefixes, underscores and blanks gives the number that they write |
| Hexadecimal.ParseIntSigns | chipscopy/api/patg.py:338-338 | A sign before digits, or before a prefix |
| Hexadecimal.ParseIntPrefixes | chipscopy/api/patg.py:338-338 | A prefix before digits changes nothing |
| Hexadecimal.ParseIntBlanks | chipscopy/api/patg.py:338-338 | Blanks around digits change nothing |
| Hexadecimal.UnderscoreBetween | chipscopy/api/patg.py:338-338 | A single underscore between digits changes nothing |
| Hexadecimal.HexDigitIs | chipscopy/api/patg.py:338-338 | The digits, in either case, are those of their numbers |
| Hexadecimal.NumeralIs | chipscopy/client/mila_core_client.py:256-256 | The last digit of a printed number is that of the ones, and those before it are the sixteens |
| InstructionCodec.FieldOfPacked | chipscopy/api/patg.py:321-329 | For any tiling layout and any values, each field reads back as its value cut to the field |
| InstructionCodec.DigitsUnique | chipscopy/api/patg.py:352-360 | Base-2^32 digits without a leading zero are unique and shortest |
| InstructionCodec.InstructionFits | chipscopy/api/patg.py:352-360 | A packed instruction takes at most 13 words |
| InstructionCodec.PATGInstruction.Validate | chipscopy/api/patg.py:313-319 | Accepts exactly the values that fit their fields |
| InstructionCodec.PATGInstruction.PackStruct | chipscopy/api/patg.py:321-329 | The mask, shift and or loop computes the sum of the fields, below 2^411 |
| InstructionCodec.PATGInstruction.UnpackFromString | chipscopy/api/patg.py:331-343 | Accepts exactly the 103 characters that `int` takes as a number of base 16, with signs, prefix, underscores and blanks, and sets every field from the number, a negative one included |
| InstructionCodec.PATGInstruction.ChopInstruction | chipscopy/api/patg.py:352-360 | The words are digits, recombine to the packed word, and are as few as possible |
| BracketMatching.FindsTheMatching | chipscopy/api/pcie.py:208-224 | The result is a matching (one-to-one, opening before closing, no crossing pairs) and the only one; finding succeeds exactly on strings that have one |
| BracketMatching.FailsExactly | chipscopy/api/pcie.py:208-224 | It succeeds exactly on balanced strings; it reports a closing bracket exactly when it is at the first place where more were closed than opened, and an opening one exactly when there is no such place and it is the last bracket below which the depth does not fall again |
| BracketMatching.RunStackIs | chipscopy/api/pcie.py:212-219 | The stack holds exactly the brackets that are not closed, each at its depth |
| BracketMatching.RunKeepsInv | chipscopy/api/pcie.py:212-219 | What was paired so far is a matching of what was read |
| BracketMatching.RunAgrees | chipscopy/api/pcie.py:212-219 | Every matching of the string agrees with what was paired so far |
| BracketMatching.RunCountsDepth | chipscopy/api/pcie.py:212-219 | The stack is as high as the nesting depth |
| BracketMatching.FindBrace | chipscopy/api/pcie.py:208-224 | The loop returns a pairing if and only if it is a matching of the string; otherwise the specified error |
| PortMap.ParseAfterPrint | chipscopy/shared/ila_mapper.py:494-592 | Parsing the printed segments gives them back exactly when the ports have them all |
| PortMap.PrintAfterParse | chipscopy/shared/ila_mapper.py:515-592 | Accepted text names segments of the ports only, and printing them gives text with the same meaning |
| PortMap.ParseItemOfPrinted | chipscopy/shared/ila_mapper.py:501-505 | One segment, in the short form for a single bit, reads back exactly when the ports have it |
| PortMap.ParseBits | chipscopy/shared/ila_mapper.py:515-592 | For any numerals, a port with both ends of a range: the high one first; an error exactly for a port or a bit that is not there, or a range the wrong way round |
| PortMap.ParseBit | chipscopy/shared/ila_mapper.py:554-556 | A port with one bit |
| PortMap.ParsePort | chipscopy/shared/ila_mapper.py:560-571 | A port without a range: bit 0 of a port of one bit; a TypeError when the ports are not known |
| PortMap.ParseProbe | chipscopy/shared/ila_mapper.py:530-536 | The prefix "probe" means the same as "port" |
| PortMap.CaseAndBlanks | chipscopy/shared/ila_mapper.py:590-592 | Capitals are read as small letters, and white space before a text is skipped |
| PortMap.SplitOfPrinted | chipscopy/shared/ila_mapper.py:507-509 | Splitting the joined text gives back the items |
| Decimal.ParsePrint | chipscopy/shared/ila_mapper.py:526-527 | Reading a printed number gives it back |
| Decimal.NumeralIs | chipscopy/shared/ila_mapper.py:435-436 | The last digit of a numeral is that of the ones, and those before it are the tens |
| Decimal.PrintIntInjective | chipscopy/shared/ila_mapper.py:435-436 | Different unit numbers have different register names |
| WaveRuns.SliceOfSample | chipscopy/client/mila_core_client.py:221-231 | A probe value is the little-endian number of the sample, divided by 2^lsb, modulo 2^(msb - lsb + 1) |
| WaveRuns.SliceFails | chipscopy/client/mila_core_client.py:225-230 | Cutting out a value fails exactly when a bit of the probe lies past the data; a probe without bits is zero |
| WaveRuns.ProbeValueAt | chipscopy/client/mila_core_client.py:225-230 | The k-th value is that of the k-th sample |
| WaveRuns.WaveOneProbeToInt | chipscopy/client/mila_core_client.py:221-231 | The bit loops compute exactly these values; an IndexError exactly when a bit lies past the data |
| WaveRuns.ReadAfterDraw | chipscopy/client/mila_core_client.py:245-281 | Reading the drawn text of a section, with its names joined by blanks, gives back exactly its samples, for one-bit levels, named boxes and colours |
| WaveRuns.SymbolAt | chipscopy/client/mila_core_client.py:264-281 | Each sample of a section has its symbol: a dot when the one before it there has the same value, else its level or the box |
| WaveRuns.OneBitValue | chipscopy/client/mila_core_client.py:265-273 | The values of a one-bit probe are 0 and 1, as drawing levels assumes |
| WaveRuns.ToWavedromWaveData | chipscopy/client/mila_core_client.py:264-281 | The loop draws the specified text; an IndexError exactly when the section ends past the values |
| WaveRuns.SectionInside | chipscopy/client/mila_core_client.py:363-371 | The clamped section lies inside the capture, with as many samples as there are and are wanted; the wanted sample is in its middle, or else the section is at an end of the capture, and shows the wanted sample when there is one |
| BitReversal.RevHexValue | chipscopy/shared/ila_util.py:155-167 | The digits are the whole little-endian number with its bits reversed |
| BitReversal.WordsReversedValue | chipscopy/shared/ila_util.py:177-189 | The digits are the sum of the reversed 32-bit words, each at its place |
| BitReversal.WordsReversedSeparately | chipscopy/shared/ila_util.py:177-189 | They are also the digits of the words, each reversed as a buffer of its own, the last word first |
| BitReversal.IntReversedValue | chipscopy/shared/ila_util.py:117-121 | A number is reversed in the given number of bits, or in all its bits when they are more, with a digit for every four; an error exactly for a negative number |
| BitReversal.BinReversedValue | chipscopy/shared/ila_util.py:109-114 | Binary text, and no other, is accepted, and read with its lowest bit first |
| BitReversal.BitOfRev | chipscopy/shared/ila_util.py:155-167 | Bit i of the reversed number is bit n - 1 - i of the number |
| BitReversal.TableReversesBits | chipscopy/shared/ila_util.py:86-106 | The table of digits reverses four bits |
| BitReversal.BytearrayBitReversedToHex | chipscopy/shared/ila_util.py:155-167 | Swapping digits in place and mapping them gives the specified digits |
| BitReversal.BytearrayEach32BitWordReversedToHex | chipscopy/shared/ila_util.py:177-189 | The byte loop gives the specified digits; an error exactly for an incomplete word |
| LittleEndian.UlebRoundTrip | chipscopy/xvc/__init__.py:47-70 | Reading a written number gives it back and takes exactly its bytes, whatever follows |
| LittleEndian.UlebIsMinimal | chipscopy/xvc/__init__.py:59-70 | No shorter sequence is read as the number, and no other of the same length |
| LittleEndian.UlebByte | chipscopy/xvc/__init__.py:59-70 | Byte i holds the seven bits from bit 7i on; all but the last have 128 added, and the number has no bits beyond the last |
| LittleEndian.WriteUleb128 | chipscopy/xvc/__init__.py:59-70 | The loop ends and writes the specified bytes |
| LittleEndian.GetUleb128 | chipscopy/xvc/__init__.py:47-56 | The loop reads the specified number; it fails only when the stream ends first |
| LittleEndian.NumOfBytes | chipscopy/xvc/__init__.py:31-44 | A number stored in n bytes reads back cut to 8n bits |
| LittleEndian.ByteIs | chipscopy/xvc/__init__.py:39-44 | Byte i of a stored number counts the powers of 256^i below the next, negative numbers included |
| LittleEndian.BytesOfNum | chipscopy/xvc/__init__.py:31-44 | Bytes read as a number are stored back the same |
| LittleEndian.ByteOfNum | chipscopy/xvc/__init__.py:31-36 | Byte i of the bytes read is that of their number |
| LittleEndian.SetUintLe | chipscopy/xvc/__init__.py:39-44 | The loop stores those bytes |
| LittleEndian.GetUintLe | chipscopy/xvc/__init__.py:31-36 | The loop reads that number from the bytes that came, also when they are fewer than asked for; an error exactly for none |
| MemoryWords.ReadAfterWrite | chipscopy/api/memory.py:85-160 | Reading back gives every value cut to its width, for any values, width and address; outside the padded extent nothing changes |
| MemoryWords.WrittenByte | chipscopy/api/memory.py:101-107 | After a write, byte k of value j, for 1, 2, 4 or 8 bytes for each value by the code b, h, w or d, lies k bytes after the values before it |
| MemoryWords.WrittenExtent | chipscopy/api/memory.py:108-118 | Behind them are zeros up to a whole word, and nothing else changes |
| MemoryWords.WordsOfBytes | chipscopy/utils/__init__.py:26-51 | Words come back from their bytes |
| MemoryWords.BytesOfWords | chipscopy/utils/__init__.py:26-51 | Bytes come back from their words |
| MemoryWords.WordAddressBelow53Bits | chipscopy/client/mem.py:74-74 | Below 2^53 the word address is the address rounded down to a word |
| MemoryWords.WordAddressExactly | chipscopy/client/mem.py:74-74 | Because the division is one of doubles, an access goes to the word that holds its byte address exactly when the bits below the 53 leading ones are those of the byte within the word and rounding is not upwards |
| MemoryWords.FirstAddressMissed | chipscopy/client/mem.py:74-74 | 2^53 + 3 is the first address whose word is missed: it goes to the next word |
| MemoryWords.AlignedBelowMiss | chipscopy/client/mem.py:110-110 | Addresses of whole words are used as they are below 2^55 + 4 |
| MemoryWords.WordAddressMisses | chipscopy/client/mem.py:110-110 | The address 2^55 + 4 reads and writes the word at 2^55 |
| MemoryWords.WordsFromBytes | chipscopy/utils/__init__.py:26-31 | The words of the bytes; an error exactly for an incomplete word |
| MemoryWords.BytesFromWords | chipscopy/utils/__init__.py:34-51 | The bytes of the words, the last one repeated up to the count; an error exactly for a number that is no word, or for no word to repeat |
| MemoryWords.StoredWords | chipscopy/utils/__init__.py:34-51 | As many words as asked for, or all for none, the last one repeated beyond the list, with four bytes each, the lowest first; an error exactly for one that does not fit 32 bits |
| MemoryWords.NothingToRepeat | chipscopy/utils/__init__.py:34-51 | Without words, an error exactly when some are asked for |
| MemoryWords.ByteValueList | chipscopy/api/memory.py:104-107 | The mask and shift loops give the little-endian bytes of all values, negative ones included |
| MemoryWords.Assemble | chipscopy/api/memory.py:153-159 | Or-ing bytes into place gives the little-endian numbers |
| MemoryWords.MemoryNode.Mwr | chipscopy/client/mem.py:87-119 | The list of words, or the one word, is written at the word address; fails exactly for a number that is no word, or for no word to repeat |
| MemoryWords.MemoryNode.Mrd | chipscopy/client/mem.py:60-85 | The words at the word address are read |
| MemoryWords.MemoryNode.MemoryWrite | chipscopy/api/memory.py:85-118 | The padded bytes of the values are written; fails exactly for an unknown size and for no values |
| MemoryWords.MemoryNode.MemoryRead | chipscopy/api/memory.py:120-160 | The numbers at the word address are read; fails exactly for an unknown size and for no values |

## Left out

- Sockets, channels, services, proxies, the command line, logging, plotting and JSON: input and output.
- Names, sources and overflow messages of compares (`_source_names`, `source`, `report_overflow`), which are for display only; `to_json` and `from_json`.
- TriggerMapper.Match.EnsureProperTypes: does not model the conversion of strings to numbers in old compares: ports and bits are numbers from the start.
- TriggerMapper.IlaMapper.EnsureProperTypes: the same.
- A port index equal to the number of ports passes the code's own check and fails at the next line; the model has one internal error for both.
- TriggerMapper.CompileTrigger: condition names are distinct and the unit numbering is injective and in range, as `TriggerTsm` proves of its caller; documented operators and characters are assumed. Negative unit numbers do count from the end of the list, as in Python.
- TriggerTsm.MapTsmMuTcToProps: values are those that the checker of trigger state machines lets through, with one character for every bit of the probe, and the core numbers its match units; counters, states without probe compares and the action table are not modelled.
- TriggerProbes.SplitKeepsExactly: says nothing of relational operators on several segments, whose meaning is the hardware's; on one segment they are handed on as they are. No port bit belongs to a probe twice.
- `str.upper`, `str.lower`, `str.split` and the digits of regular expressions are those of ASCII text.
- WaveProcess.ProcessRawData: the raw bytes hold whole samples, the alignment is a multiple of eight bits, and the trigger position lies in every window, the last one included; `calculate_trace_info_captured` keeps only such partial windows.
- WaveProcess.AlignSamplesTo1Byte: whole samples only, as above.
- WaveProcess.UnrollData: whole samples, and the trigger position in every window, as above.
- WaveData.KeepLowBytes: whole samples only, as above.
- WaveData.UnrollOneWindow: the trigger position lies in the window, as above.
- WaveData.UnrollEveryWindow: the trigger position lies in every window, as above.
- The progress callbacks of transfers and requests, and replies that come before the request call returns.
- ReadTransfer.ReadIsExact: a device that answers without error is assumed to send what it holds at the requested words; of other replies only `ReadTransfer.OutsideStays` and the protocol theorems speak.
- A request object that is issued again while it is under way, and operations that call back, or issue other requests, before they return.
- `CsFutureRequest` and `CsRequestSync`, which follow another discipline than `CsRequest`.
- Threads are steps in any interleaving, each under its lock; the joining of threads is not modelled. Times are real numbers.
- Node properties and their listeners, upgrading and downgrading of nodes.
- NodeForest.AddKeepsForestExactly: models the links that `add_node` sets; the marks that `invalidate` leaves on a replaced node and on its subtree are not modelled, nor is adding to shared objects.
- NodeTree.CsManager.RemoveAll: only where the loop ends, since a method must end; `NodeEmptying.RemoveAllEndsExactly` has all graphs.
- The constructor of `PATGInstruction`, the derived number of bytes per transaction, and CSV input.
- InstructionCodec.PATGInstruction.UnpackFromString: digits and blanks outside ASCII, which `int` accepts, are refused.
- BracketMatching: printing of the trace, which only uses the pairs.
- Splitting a waveform into several sections, and HTML output.
- LittleEndian.WriteUleb128: the loop would not end for a negative number; numbers are natural.
- Errors of the memory service and its access modes: memory takes and gives what it is asked for. Addresses past the largest double.
- `XVCHandler.read_mem` and `write_mem`, and register handling of the virtual cable.

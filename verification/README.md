# WAMR runtime core: a verified model

This project models the parts of the WebAssembly Micro Runtime that carry its hardest invariants, and proves them.
Each module stands for one component:

- `ProfileRecorder`, `ProfileData`, `ProfileLayout`, `ProfileDump`, `ProfileSession`: the PGO value profiler. A bounded frequency list
  per site is updated over an unbounded stream of events; two passes size and write the raw profile file; a reader
  gets every list back.
- `BlockingOp`: the handshake between a thread in a blocking operation and the threads that interrupt it, as atomic
  steps over the flag word.
- `CallFrames`: shadow frames in both formats, unwinding after success and failure, the jmpbuf stack.
- `MultiValue`: packing of arguments and results for functions with several results.
- `HeapPlacement`: the page arithmetic that places the host-managed heap in linear memory and relocates `__heap_base`.
- `GlobalLayout`, `ExternRefs`: global variables from the loader through instantiation to the C API.
- `DataSections`, `SymbolTable`, `GotTable`, `SectionOrder`: the AOT loader's merging, validation, two-pass relocation
  scan and section order.
- `ModuleOwnership`, `StoreEnv`: reference counts of modules and per-thread environments of the C API.
- `AlignedSection`: the tool that appends an AOT file to a Wasm file as an aligned custom section.
- `Lookups`: duplicate detection and fast lookups over exports and names.
- `BitLoops`: clz, ctz and popcnt loops and the memop ranges built on them.
- `Bits`, `Bytes`, `WasmTypes`, `Wrappers`: shared vocabulary.

Code that works in place is modelled by methods on classes and arrays, each proved against a function of its inputs
or of the old state; what the source promises is then proved about those functions. Allocation, mapping, native
calls and loading are outcomes given as parameters. Pointers into a buffer are positions in it.

Verify with `dafny verify dfyconfig.toml`.

## Where the code differs from what it says

- The dumper asserts fewer than 255 nodes at a site (aot_runtime.c:4835) while the recorder allows 255. The assertion
  holds if and only if fewer than 255 different values could get a node at the site
  (`ProfileRecorder.DumperAssertIff`, and for the heap `ProfileData.RecordStream`). The count byte holds the number
  either way.
- When the counter sections do not match the records the sizing pass returns 0 (aot_runtime.c:4593), which every
  buffer length satisfies, and the dump goes on to write at least a header. The two passes agree if and only if the
  sections match and the file is below 4 GB, the sums being 32-bit words (`ProfileDump.PassesAgreeIff`). The closing assertion (aot_runtime.c:4872) compares value data only and
  holds if and only if the sections match or that size is 0, which below 4 GB means that no record has a value site
  (`ProfileDump.ClosingAssertIff`).
- Interrupting a blocking operation keeps the target out only while TERMINATE stays set. The thread manager clears
  it when an exception of the cluster is cleared (thread_manager.c:1113-1120), and then a begin may answer true again
  (`BlockingOp.EntryIff`, `BlockingOp.EntryAfterInterrupt`).
- The first pass over relocations copies symbol names into 128 bytes, and a longer copy leaves the buffer zeroed
  (aot_loader.c:3640-3643). A function named only by longer symbols gets no slot and the relocation points
  behind the table (`GotTable.DemandedIff`, `GotTable.LongNameMissed`, `GotTable.ResolveLongName`). The limit on the index
  differs by one between the passes (aot_loader.c:3652 and 3133); the slot theorem covers both.
- The padding search succeeds for all inputs exactly for powers of two up to 128 (`AlignedSection.PaddingIff`). The tool
  uses 4.
- The uint32 page formula is right if and only if heap and used part of the page fit 32 bits together
  (`HeapPlacement.PageCountIff`). The page size is read from the file unchecked. The memory made has 1 KB above the relocated
  base for all inputs if and only if pages have from 2 KB to 3 GB and one byte (`HeapPlacement.MarginIff`), holds the whole
  heap if and only if they have from 1 KB to 3 GB (`HeapPlacement.InsideIff`), and meets the assertion on its largest size if
  and only if they have at most 64 KB (`HeapPlacement.LimitIff`).
- The length of the symbol strings is not held against the section (aot_loader.c:3465-3467), so strings behind the section
  may be validated (`SymbolTable.ValidatedBeyond`). Loading then stops at the group count
  (`SymbolTable.LoadSymbolTable`).
- Between 4 and 8 memop sizes have no common representative (`BitLoops.RangeRepConstant`).
- An externref set to the host's "null" pointer value reads back as a null pointer (`GlobalLayout.AotModule.GlobalSet`).
- The loader's end-of-list check accepts missing sections when a custom section comes last
  (`SectionOrder.GapAccepted`).

## Model

| member | source | states |
|---|---|---|
| ProfileRecorder.StepAccount | components/wamr/core/iwasm/aot/aot_runtime.c:4457-4489 | one event keeps a site's list valid (distinct values, at most the limit, counts at least 1) and its weight is accounted for to the unit: what the list holds, plus twice the decrements, plus what was evicted or lost |
| ProfileRecorder.StepEstimate | components/wamr/core/iwasm/aot/aot_runtime.c:4457-4489 | one event keeps every count between the value's true weight minus what the list gave up and the true weight itself |
| ProfileRecorder.RunAccount | components/wamr/core/iwasm/aot/aot_runtime.c:4436-4502 | over any stream the list stays valid and the stream's total weight equals the sum of counts plus 2 x decremented plus evicted plus dropped |
| ProfileRecorder.RunEstimate | components/wamr/core/iwasm/aot/aot_runtime.c:4436-4502 | over any stream no count exceeds its value's true weight, and the shortfall is bounded by the weight given up |
| ProfileRecorder.UnitRun | components/wamr/core/iwasm/aot/aot_runtime.c:4504-4509 | for weight-one events the stream length is the sum of counts plus twice the decrements plus the replacements plus the events lost for want of memory |
| ProfileRecorder.NothingLost | components/wamr/core/iwasm/aot/aot_runtime.c:4457-4489 | while no more distinct values than the limit are seen and allocation succeeds, nothing is ever lost and the list holds exactly the values seen |
| ProfileRecorder.ExactIffFewValues | components/wamr/core/iwasm/aot/aot_runtime.c:4473-4489 | if every allocation succeeds, all counts equal the true weights if and only if the stream has at most as many distinct values as a site may hold |
| ProfileRecorder.SiteLength | components/wamr/core/iwasm/aot/aot_runtime.c:4459-4489 | over any stream a site's list is as long as there are values that could get a node, up to the limit, holds just those while it is shorter, and never shrinks |
| ProfileRecorder.DumperAssertIff | components/wamr/core/iwasm/aot/aot_runtime.c:4835-4836 | the dumper's assertion of fewer than 255 nodes at a site holds if and only if fewer than 255 different values could get a node there; without allocation failures these are the values seen |
| ProfileRecorder.FullSiteReachable | components/wamr/core/iwasm/aot/aot_runtime.c:4835-4836 | one event for each of as many values as the limit fills a site, so 255 nodes do occur |
| ProfileRecorder.KnownValue | components/wamr/core/iwasm/aot/aot_runtime.c:4461-4478 | an event for a value with a node adds its weight to the first such node, in 64 bits |
| ProfileRecorder.NewValue | components/wamr/core/iwasm/aot/aot_runtime.c:4485-4501 | a new value on a list short of its limit becomes its last node if memory can be had; an event without weight changes nothing |
| ProfileRecorder.FullList | components/wamr/core/iwasm/aot/aot_runtime.c:4473-4484 | a new value on a full list takes over the first of the nodes with the smallest count, or takes its weight off that count if it is larger |
| ProfileData.LLVMProfileData.AllocateCounters | components/wamr/core/iwasm/aot/aot_runtime.c:4393-4423 | the first event creates a table of empty lists; the limit is raised even when the table cannot be allocated |
| ProfileData.LLVMProfileData.Search | components/wamr/core/iwasm/aot/aot_runtime.c:4459-4471 | the walk over a chain stops at the value's node, or reports the first node with the smallest count and the last node |
| ProfileData.LLVMProfileData.Instrument | components/wamr/core/iwasm/aot/aot_runtime.c:4436-4502 | the heap lists after a call are the old ones with the one site changed as the recording theory says; all other sites and records stay |
| ProfileData.LLVMProfileData.Insert | components/wamr/core/iwasm/aot/aot_runtime.c:4456-4502 | the same for the part after the table is known to exist |
| ProfileData.LLVMProfileData.Link | components/wamr/core/iwasm/aot/aot_runtime.c:4491-4497 | hanging a node behind the last one of a chain changes one pointer and nothing else |
| ProfileData.EventOfCall | components/wamr/core/iwasm/aot/aot_runtime.c:4447-4455 | each call for a site has its event there in its turn, which may add a node exactly if the call finds memory for one and the record has its table, made by this call or by an earlier one with a weight, for whichever site |
| ProfileData.ExactAtIff | components/wamr/core/iwasm/aot/aot_runtime.c:4436-4509 | in a history that always finds memory, a site counts the full weight of every value if and only if it saw at most 255 values |
| ProfileData.RecordStream | components/wamr/core/iwasm/aot/aot_runtime.c:4436-4509 | any interleaved history over all sites of all records leaves at every site the list of the run over its own events, valid and with fewer than 255 nodes exactly when fewer than 255 values could get one, and a table at exactly the records that a call could make it for |
| ProfileLayout.ReadKindBack | components/wamr/core/iwasm/aot/aot_runtime.c:4812-4859 | a reader recovers the list of every site of a value kind from its bytes, whatever the skipped padding holds, and the bytes are as many as were sized |
| ProfileLayout.ReadValueBack | components/wamr/core/iwasm/aot/aot_runtime.c:4799-4868 | a reader that insists on TotalSize being the record's own length recovers both kinds of a value record |
| ProfileLayout.ValueData.SizeIsLength | components/wamr/core/iwasm/aot/aot_runtime.c:4862-4867 | a value record is as long as its TotalSize |
| ProfileLayout.ValueData.SizeMultipleOf8 | components/wamr/core/iwasm/aot/aot_runtime.c:4606-4645 | every value record is a whole number of eight-byte units |
| ProfileLayout.ReadProfileBack | components/wamr/core/iwasm/aot/aot_runtime.c:4715-4870 | header, records, counters, names and all value lists are read back from the file's bytes |
| ProfileDump.CountNodes | components/wamr/core/iwasm/aot/aot_runtime.c:4628-4633 | the length of a site's chain is the length of its list |
| ProfileDump.KindDataSize | components/wamr/core/iwasm/aot/aot_runtime.c:4619-4641 | the sizing pass counts exactly the bytes of a kind |
| ProfileDump.ValueDataSize | components/wamr/core/iwasm/aot/aot_runtime.c:4606-4645 | the sizing pass counts exactly the bytes of a record's value data |
| ProfileDump.SumSections | components/wamr/core/iwasm/aot/aot_runtime.c:4575-4591 | the 32-bit sums of records, counters and counter bytes, and the last names section, over all data sections |
| ProfileDump.GetProfDataSize | components/wamr/core/iwasm/aot/aot_runtime.c:4562-4663 | the returned size, names and counts as 32-bit sums; all zero when the counter sections do not match the records |
| ProfileDump.SectionInPlace | components/wamr/core/iwasm/aot/aot_runtime.c:4575-4591 | records and counters are those of the data sections in the order of the sections, each behind those of all sections before; the names are those of the last names section |
| ProfileDump.MatchedIff | components/wamr/core/iwasm/aot/aot_runtime.c:4593-4594 | counter sections that match the records are taken to do so if and only if the wrapped number of counters has at most 29 bits |
| ProfileDump.PassesAgreeIff | components/wamr/core/iwasm/aot/aot_runtime.c:4593-4662 | the writing pass advances by exactly what the sizing pass returned if and only if the counter sections match the records and the file is below 4 GB; with sections that do not match the length check accepts any buffer while a header and more is written |
| ProfileDump.ClosingAssertIff | components/wamr/core/iwasm/aot/aot_runtime.c:4872-4873 | the 32-bit sizes of the value data written and reported agree if and only if the counter sections match or the size is zero, which below 4 GB means that no record has a value site |
| ProfileDump.StrayCounterByte | components/wamr/core/iwasm/aot/aot_runtime.c:4593-4594 | one counter byte without records: 89 bytes are written although no length is asked for, and the closing assertion holds |
| ProfileDump.MissingCounters | components/wamr/core/iwasm/aot/aot_runtime.c:4872-4873 | a record with a counter and a value site but no counter section: the closing assertion fails |
| ProfileDump.WriteCounts | components/wamr/core/iwasm/aot/aot_runtime.c:4825-4840 | one byte for every site with the length of its list |
| ProfileDump.WriteAllNodes | components/wamr/core/iwasm/aot/aot_runtime.c:4842-4858 | all pairs of all sites in order |
| ProfileDump.WriteKind | components/wamr/core/iwasm/aot/aot_runtime.c:4812-4860 | a kind's header, counts, skipped padding and pairs; nothing else in the buffer changes |
| ProfileDump.WriteValueData | components/wamr/core/iwasm/aot/aot_runtime.c:4799-4868 | a record's value data with TotalSize stored afterwards into the four bytes that were skipped |
| ProfileDump.ComputeOffsets | components/wamr/core/iwasm/aot/aot_runtime.c:4703-4713 | every record gets the distance from its own place in the file to its first counter, as a 64-bit word |
| ProfileDump.OffsetFindsCounters | components/wamr/core/iwasm/aot/aot_runtime.c:4703-4713 | following the stored offset from a record leads to exactly that record's own counters |
| ProfileDump.DeltaFindsCounters | components/wamr/core/iwasm/aot/aot_runtime.c:4703-4713 | for what a reader gets back from the buffer: the stored offset of record i less the header's delta reduced by 48 for each earlier record is, as a 64-bit word, the distance from the first counter to the record's own counters, which lie within the counters read |
| ProfileDump.HeaderPlaced | components/wamr/core/iwasm/aot/aot_runtime.c:4715-4739 | the 88 bytes of the header: magic number and version byte by byte, the three counts and the delta of 48 bytes a record at their places, 1 as the last kind, and zeros else |
| ProfileDump.RecordPlaced | components/wamr/core/iwasm/aot/aot_runtime.c:4741-4769 | the 48 bytes of each record: hash names, offset, pointers, counter and site counts of the function's own data at their places |
| ProfileDump.WriteRecords | components/wamr/core/iwasm/aot/aot_runtime.c:4741-4769 | the records, in the order of their sections |
| ProfileDump.WriteCounters | components/wamr/core/iwasm/aot/aot_runtime.c:4771-4777 | all counter sections one behind the other |
| ProfileDump.WriteNames | components/wamr/core/iwasm/aot/aot_runtime.c:4779-4789 | the names filled up with zeros to eight bytes |
| ProfileDump.WriteValues | components/wamr/core/iwasm/aot/aot_runtime.c:4791-4870 | the value data of all records one behind the other, with the 32-bit sum of their sizes |
| ProfileDump.Dump | components/wamr/core/iwasm/aot/aot_runtime.c:4679-4876 | a buffer too short is refused untouched; otherwise the buffer holds the whole file, the cursor has advanced by its length, and the two sizes that are compared at the end are those stated |
| ProfileDump.DumpReadsBack | components/wamr/core/iwasm/aot/aot_runtime.c:4562-4876 | for every set of sections whose counters match and whose fields fit their widths, reading the dump gives back every site's list |
| ProfileDump.BufferReadsBack | components/wamr/core/iwasm/aot/aot_runtime.c:4679-4876 | a reader of the dumped buffer that takes a record's first sites from kind 0 and the others from kind 1 gets every site's list as the heap holds it, and goes on where the dump ended |
| ProfileSession.HistoryRecorded | components/wamr/core/iwasm/aot/aot_runtime.c:4436-4502 | the lists that any history leaves are such as the dumper can write without loss |
| ProfileSession.SizesFit | components/wamr/core/iwasm/aot/aot_runtime.c:4562-4663 | where the most that sites with 255 nodes can come to is below 4 GB, both passes agree on the size |
| ProfileSession.RecordAndDump | components/wamr/core/iwasm/aot/aot_runtime.c:4436-4876 | for any interleaved history over all sites: the dump is written exactly if the buffer is as long as the sizing pass asks, and reading it gives at every site the list of the run over its own events; if the calls always found memory, what is read counts every value's full weight at exactly the sites that saw at most 255 values |
| BitLoops.Clz | components/wamr/core/iwasm/aot/aot_intrinsic.c:184-208 | the number of zero bits above the highest one, for every word of every width (32 and 64 in the source) |
| BitLoops.Ctz | components/wamr/core/iwasm/aot/aot_intrinsic.c:210-234 | the number of zero bits below the lowest one |
| BitLoops.Popcnt | components/wamr/core/iwasm/aot/aot_intrinsic.c:236-256 | the number of positions that hold a one |
| BitLoops.GetRangeRepValue | components/wamr/core/iwasm/aot/aot_runtime.c:4537-4552 | the representative of a value's range: itself up to 8 and for powers of two, 513 from there on, else one more than the power of two below |
| BitLoops.RangeRepUnique | components/wamr/core/iwasm/aot/aot_runtime.c:4537-4552 | that description determines the representative |
| BitLoops.RangeRepOrder | components/wamr/core/iwasm/aot/aot_runtime.c:4535-4552 | the mapping is monotone, never exceeds its input and leaves representatives alone |
| BitLoops.RangeRepConstant | components/wamr/core/iwasm/aot/aot_runtime.c:4540-4551 | all values strictly between two consecutive powers of two have one representative, for every pair but 4 and 8 |
| Bits.AlignByMask | components/wamr/core/iwasm/interpreter/wasm.h:1139-1144 | the alignment macro gives the least multiple that is not below its argument, as long as it does not wrap |
| BlockingOp.StepKeepsBits | components/wamr/core/iwasm/common/wasm_blocking_op.c:17-23 | TERMINATE is set after a step exactly when the step sets it, or it was set and the step does not clear it; no step of the protocol changes any other bit than the two |
| BlockingOp.TerminatedIff | components/wamr/core/iwasm/libraries/thread-mgr/thread_manager.c:1095-1120 | TERMINATE is set at a state exactly when it was set by some step or from the start and no step cleared it since |
| BlockingOp.EntryIff | components/wamr/core/iwasm/common/wasm_blocking_op.c:25-39 | from outside the region the target can get in without TERMINATE being cleared if and only if TERMINATE is not set |
| BlockingOp.EntryAfterInterrupt | components/wamr/core/iwasm/libraries/thread-mgr/thread_manager.c:1113-1120 | a run in which a begin answers true after an interrupt returned, the thread manager having cleared TERMINATE in between |
| BlockingOp.StepInvariant | components/wamr/core/iwasm/common/wasm_blocking_op.c:25-78 | every atomic step keeps the invariant, and both assertions hold wherever they are reached |
| BlockingOp.RunInvariant | components/wamr/core/iwasm/common/wasm_blocking_op.c:25-78 | the same along every run of one target and any number of interrupters |
| BlockingOp.ReturnsIff | components/wamr/core/iwasm/common/wasm_blocking_op.c:53-78 | an interrupt call that is under way ends with exactly that step that finds BLOCKING clear; before, its steps are the store, then loads with a wake-up after each that finds the bit set |
| BlockingOp.InterruptedForGood | components/wamr/core/iwasm/common/wasm_blocking_op.c:53-78 | when an interrupter goes from inside a call to outside, it has stored TERMINATE exactly once in that call; the target is then outside the blocking region, and stays outside with every begin answering false as long as nothing has cleared TERMINATE since that store |
| BlockingOp.NoEntryAfterTerminate | components/wamr/core/iwasm/common/wasm_blocking_op.c:25-39 | from the moment TERMINATE is set a target outside stays outside |
| BlockingOp.BeginAlone | components/wamr/core/iwasm/common/wasm_blocking_op.c:25-39 | a begin answers true exactly when TERMINATE is clear, and leaves the word as it was when it answers false |
| BlockingOp.EndAlone | components/wamr/core/iwasm/common/wasm_blocking_op.c:41-51 | an end takes the target out and clears BLOCKING and nothing else |
| CallFrames.ExecEnv.GetTopFrame | components/wamr/core/iwasm/aot/aot_runtime.c:151-162 | the topmost live frame in both formats |
| CallFrames.ExecEnv.GetPrevFrame | components/wamr/core/iwasm/aot/aot_runtime.c:164-178 | the frame below in both formats, none below the outermost |
| CallFrames.ExecEnv.AllocTinyFrame | components/wamr/core/iwasm/aot/aot_runtime.c:3983-3997 | pushes a frame of eight bytes at the top exactly when the top does not lie beyond the boundary |
| CallFrames.ExecEnv.AllocStandardFrame | components/wamr/core/iwasm/aot/aot_runtime.c:3877-3922 | pushes a frame behind the current one, linked to it, exactly when it ends within the boundary |
| CallFrames.ExecEnv.AllocFrame | components/wamr/core/iwasm/aot/aot_runtime.c:3999-4018 | no frame for module functions where functions make their own |
| CallFrames.ExecEnv.FreeFrame | components/wamr/core/iwasm/aot/aot_runtime.c:4020-4060 | takes the topmost frame off |
| CallFrames.ExecEnv.Unwind | components/wamr/core/iwasm/aot/aot_runtime.c:2573-2579 | the loop ends and leaves exactly the frames that were there at the recorded depth |
| CallFrames.ExecEnv.CreateCallStack | components/wamr/core/iwasm/aot/aot_runtime.c:4107-4213 | lists exactly the live frames, innermost first, or nothing when an allocation fails |
| CallFrames.ExecEnv.PushJmpbuf | components/wamr/core/iwasm/common/wasm_exec_env.c:312-318 | links a node on top |
| CallFrames.ExecEnv.PopJmpbuf | components/wamr/core/iwasm/common/wasm_exec_env.c:320-331 | takes the top node off, if there is one |
| CallFrames.ExecEnv.InvokeNative | components/wamr/core/iwasm/aot/aot_runtime.c:2302-2390 | the node popped is the one pushed, whatever the callee does; the stack of nodes is as before |
| CallFrames.ExecEnv.RunBody | components/wamr/core/iwasm/aot/aot_runtime.c:2556-2579 | a callee may leave frames behind and nested calls may fail; older frames and nodes stay |
| CallFrames.ExecEnv.CallFunction | components/wamr/core/iwasm/aot/aot_runtime.c:2517-2655 | for every tree of nested calls, frames, top of stack and jmpbuf stack are exactly restored; a true answer means that arguments, native stack and code were in order and no nested call failed whose failure is passed on, and with room for the tree's peak that is also enough |
| CallFrames.ResultIff | components/wamr/core/iwasm/aot/aot_runtime.c:2517-2655 | a call answers true exactly if it gets arguments, its own frame and native stack, its code returns, every frame that it pushes fits where it is pushed, and every nested call answers true whose failure it passes on |
| CallFrames.TrueIsComplete | components/wamr/core/iwasm/aot/aot_runtime.c:2373-2377 | a call in which anything goes wrong, at any depth of failures passed on, never answers true; a trap does not |
| CallFrames.CompleteIsTrue | components/wamr/core/iwasm/aot/aot_runtime.c:2517-2655 | with room for the peak of the tree a call in which nothing goes wrong answers true |
| CallFrames.OutcomeIndependent | components/wamr/core/iwasm/aot/aot_runtime.c:2517-2655 | with room for the tree's peak the answer depends neither on the frame format nor on the depth of the caller |
| MultiValue.SlotsTile | components/wamr/core/iwasm/aot/aot_runtime.c:2540-2545 | the slots of the extra results are disjoint and tile exactly the area sized for them |
| MultiValue.BuildArgs | components/wamr/core/iwasm/aot/aot_runtime.c:2520-2545 | arguments, then one pointer for each extra result leading to its slot, then room for all slots |
| MultiValue.ExtCells | components/wamr/core/iwasm/interpreter/wasm.h:1281-1289 | the cells that the extra results take together |
| MultiValue.StoreResult | components/wamr/core/iwasm/aot/aot_runtime.c:2541-2545 | a store through the pointer of a slot fills that slot and nothing before it |
| MultiValue.StoreExtraResults | components/wamr/core/iwasm/aot/aot_runtime.c:2556-2558 | after all extra results are stored through their pointers the slots hold them one behind the other |
| MultiValue.CallWithExtraResults | components/wamr/core/iwasm/aot/aot_runtime.c:3251-3327 | the callee gets the arguments as they were on entry, then the pointers, each leading to its slot; on success argv holds all result cells concatenated in declaration order and nothing behind them changes; the call fails exactly when the callee does or memory is needed and missing |
| MultiValue.CallDirect | components/wamr/core/iwasm/aot/aot_runtime.c:2472-2617 | the direct path refuses too few arguments, lays out the parameter cells of the type as they were on entry with the pointers behind them, and then is the indirect path |
| HeapPlacement.ClampHeapSize | components/wamr/core/iwasm/aot/aot_runtime.c:1791-1794 | the heap size is a multiple of 8 of at most 1 GB; a size in the last 8 bytes of the 32-bit range wraps to zero |
| HeapPlacement.PageCountIff | components/wamr/core/iwasm/aot/aot_runtime.c:951-953 | the page count in wrapping 32-bit arithmetic equals the number of page edges crossed if and only if heap and used part of the page fit 32 bits together |
| HeapPlacement.PageCountWraps | components/wamr/core/iwasm/aot/aot_runtime.c:951-953 | a page size and heap for which it does not |
| HeapPlacement.MarginIff | components/wamr/core/iwasm/aot/aot_runtime.c:942-1000 | every insertion at __heap_base that goes through leaves at least 1 KB of the memory made above the relocated base if and only if the page size is from 2 KB to 3 GB and one byte |
| HeapPlacement.InsideIff | components/wamr/core/iwasm/aot/aot_runtime.c:904-1034 | the heap of every call that goes through lies inside the memory made and has at most 1 KB less than was asked for if and only if the page size is from 1 KB to 3 GB |
| HeapPlacement.LimitIff | components/wamr/core/iwasm/aot/aot_runtime.c:1003-1004 | the assertion that the largest memory stays within 4 GB holds for every call that goes through if and only if pages have at most 64 KB |
| HeapPlacement.InsertAtBase | components/wamr/core/iwasm/aot/aot_runtime.c:943-972 | pages added and the base stored for a heap put at __heap_base |
| HeapPlacement.NewPages | components/wamr/core/iwasm/aot/aot_runtime.c:975-981 | pages added and the heap size for a heap put on pages of its own |
| HeapPlacement.OutcomeMeant | components/wamr/core/iwasm/aot/aot_runtime.c:904-1000 | where page size and heap fit 32 bits together and pages have 1 KB, nothing wraps and the outcome is the placement meant |
| HeapPlacement.MemoryInstantiate | components/wamr/core/iwasm/aot/aot_runtime.c:904-1000 | the outcome for every page size, however the 32-bit sums wrap, and exactly when the heap is refused and where it is placed when they do not; what is stored in the global data |
| HeapPlacement.PlacementSound | components/wamr/core/iwasm/aot/aot_runtime.c:904-1034 | a placement for which nothing wraps keeps the heap inside the enlarged memory and behind what the module uses, and the relocated base behind the heap, with pages of 2 KB at least 1 KB below the memory's end |
| HeapPlacement.PlacementExact | components/wamr/core/iwasm/aot/aot_runtime.c:913-1000 | where nothing wraps: the heap is put at the base with the size asked for, or on pages of its own less 1 KB; just the pages needed are added, to the largest memory too up to 65536; refused is exactly what leads past 65536 pages; and the base moves 1 KB further exactly if less than that is left of its page |
| HeapPlacement.AppendedExact | components/wamr/core/iwasm/aot/aot_runtime.c:927-951 | a memory of one page that cannot grow becomes one page that ends with the heap unless that has no 32-bit size, and one of no pages becomes the heap |
| ExternRefs.EnteredLookup | components/wamr/core/iwasm/common/wasm_runtime_common.c:6418-6485 | entering an object leads back to it and changes no index handed out before |
| ExternRefs.ExternRefMap.ObjToRef | components/wamr/core/iwasm/common/wasm_runtime_common.c:6418-6485 | an object known for the instance keeps its index, a new one gets the next; the exact failures |
| ExternRefs.ExternRefMap.Delete | components/wamr/core/iwasm/common/wasm_runtime_common.c:6352-6387 | deleting an object removes its node and no other |
| GlobalLayout.SlotsApart | components/wamr/core/iwasm/aot/aot_loader.c:2178-2183 | globals follow one another without overlap inside the global data |
| GlobalLayout.AotModule.LoadImportGlobals | components/wamr/core/iwasm/aot/aot_loader.c:2148-2184 | offsets of imports are the running sums of their sizes |
| GlobalLayout.AotModule.LoadGlobals | components/wamr/core/iwasm/aot/aot_loader.c:2219-2261 | offsets of definitions go on behind the last import, and the total is the module's global data size |
| GlobalLayout.AotModule.InitGlobalData | components/wamr/core/iwasm/aot/aot_runtime.c:223-238 | fills a slot with the initial value's bytes, or four bytes of a null reference |
| GlobalLayout.AotModule.GlobalInstantiate | components/wamr/core/iwasm/aot/aot_runtime.c:447-663 | the assigned offsets are the cursor's positions, every slot holds its initial value, that is its declared bytes, those of the import it names or a null reference, and the only failure is an initialiser that reads what it may not |
| GlobalLayout.StartReads | components/wamr/core/iwasm/aot/aot_runtime.c:447-514 | after instantiation the host reads from a global the number it was declared with, from one declared by an import of its type what it reads from that import, and from a null reference a null pointer |
| GlobalLayout.AotModule.GlobalGet | components/wamr/core/iwasm/common/wasm_c_api.c:3677-3701 | reads the slot by its type |
| GlobalLayout.AotModule.GlobalSet | components/wamr/core/iwasm/common/wasm_c_api.c:3650-3675 | the value set is read back (the host's "null" comes back as a null pointer), every other global reads as before, and a refused value changes nothing |
| GlobalLayout.StoredReadsBack | components/wamr/core/iwasm/common/wasm_c_api.c:1632-1715 | the two value conversions are inverse on every type they support |
| GlobalLayout.OthersKept | components/wamr/core/iwasm/common/wasm_c_api.c:3650-3701 | a store to one global leaves what is read from any other |
| DataSections.AlignWordIs | components/wamr/core/iwasm/interpreter/wasm.h:1154-1159 | word alignment short of wrapping |
| DataSections.AlignedFits | components/wamr/core/iwasm/aot/aot_loader.c:2448-2448 | an aligned size that fits 32 bits was computed there without wrapping, so the total's check makes the second pass safe |
| DataSections.StartAligned | components/wamr/core/iwasm/aot/aot_loader.c:2441-2450 | every section starts on a page edge |
| DataSections.SectionsApart | components/wamr/core/iwasm/aot/aot_loader.c:2441-2450 | sections are in order, disjoint, and end with the mapping |
| DataSections.ImageHolds | components/wamr/core/iwasm/aot/aot_loader.c:2441-2450 | every section's bytes are in the image at its start |
| DataSections.TotalSize | components/wamr/core/iwasm/aot/aot_loader.c:2419-2429 | the first pass adds up exactly the bytes of the image |
| DataSections.LoadDataSections | components/wamr/core/iwasm/aot/aot_loader.c:2398-2459 | the mapping is exactly the page-padded sections in order and the table points to them; fails exactly when the total exceeds 32 bits or cannot be mapped |
| DataSections.MoveSections | components/wamr/core/iwasm/aot/aot_loader.c:2441-2450 | the second pass fills the mapping to its end |
| DataSections.MergeDataAndText | components/wamr/core/iwasm/aot/aot_loader.c:2551-2632 | the merged mapping is the padded code followed by the sections; every byte of code and sections is kept; a failure changes nothing |
| DataSections.MigrateSections | components/wamr/core/iwasm/aot/aot_loader.c:2608-2617 | moving the sections behind the code keeps their bytes |
| SymbolTable.ValidateSymbolTable | components/wamr/core/iwasm/aot/aot_loader.c:3418-3440 | a table is accepted if and only if its offsets are the running sums of two-byte-aligned records that tile the string area |
| SymbolTable.RecordsApart | components/wamr/core/iwasm/aot/aot_loader.c:3457-3474 | in an accepted table every index leads to a record of its own, within the area |
| SymbolTable.RecordsCover | components/wamr/core/iwasm/aot/aot_loader.c:3418-3440 | and the records cover the area |
| SymbolTable.TableAccepted | components/wamr/core/iwasm/aot/aot_loader.c:3418-3440 | every table that is written that way is accepted and each index reads back its string |
| SymbolTable.LoadSymbolTable | components/wamr/core/iwasm/aot/aot_loader.c:3457-3481 | the loader goes on exactly if the described strings are a table, there is memory, and the group count behind them lies in the section; then the table does too |
| SymbolTable.WrittenDescribed | components/wamr/core/iwasm/aot/aot_loader.c:3457-3476 | a section written from a list of strings, with count, offsets and length before them, is described as it was written, and its strings are taken for a table |
| SymbolTable.ValidatedBeyond | components/wamr/core/iwasm/aot/aot_loader.c:3465-3470 | validation on its own accepts strings that lie behind the section's end |
| GotTable.AotModule.ScanReloc | components/wamr/core/iwasm/aot/aot_loader.c:3614-3680 | the first pass over a relocation keeps one item for every function wanted so far |
| GotTable.AotModule.ScanGroup | components/wamr/core/iwasm/aot/aot_loader.c:3607-3682 | the same over a group, skipping offset and addend unread |
| GotTable.AotModule.ScanSection | components/wamr/core/iwasm/aot/aot_loader.c:3588-3710 | the first pass succeeds if and only if the section can be read, its indices are in range and there is memory for an item for each function wanted and for the table; it leaves one item and one address for every such function |
| GotTable.AotModule.BuildTable | components/wamr/core/iwasm/aot/aot_loader.c:3703-3707 | the table holds the address of each listed function |
| GotTable.LoadRelocs | components/wamr/core/iwasm/aot/aot_loader.c:3758-3788 | the real pass reads the same relocations from the same bytes |
| GotTable.RelocEmitted | components/wamr/core/iwasm/aot/aot_loader.c:3758-3788 | a relocation written as offset, addend, type and symbol in little-endian words is read with these fields, for all 64-bit offsets and addends |
| GotTable.LoadGroup | components/wamr/core/iwasm/aot/aot_loader.c:3722-3788 | the same for a group with its name |
| GotTable.LoadSection | components/wamr/core/iwasm/aot/aot_loader.c:3714-3788 | the real pass succeeds exactly on readable sections whose strings are terminated, and reads the same groups that the first pass went over; from a section written for a list of groups it reads these groups |
| GotTable.SectionEmitted | components/wamr/core/iwasm/aot/aot_loader.c:3714-3788 | a section written for a list of groups, wherever it stands, is read back group by group and field by field |
| GotTable.AotModule.ResolveSlot | components/wamr/core/iwasm/aot/aot_loader.c:3130-3154 | the symbol is refused exactly when it has no number or one above the count; otherwise the slot holds the function's address if some relocation demanded it, and lies just past the table if none did |
| GotTable.ShortNameDemanded | components/wamr/core/iwasm/aot/aot_loader.c:3636-3652 | a relocation whose symbol takes at most 128 bytes always finds its slot |
| GotTable.DemandedIff | components/wamr/core/iwasm/aot/aot_loader.c:3636-3652 | a function has a slot if and only if some relocation of the type names it in at most 128 bytes |
| GotTable.LongNameMissed | components/wamr/core/iwasm/aot/aot_loader.c:3636-3652 | a section in bytes, with its symbol table, that both passes accept and that leaves a relocation against a function of the module without a slot |
| GotTable.ResolveLongName | components/wamr/core/iwasm/aot/aot_loader.c:3140-3152 | run through both passes, that relocation is resolved to just behind the table |
| GotTable.CollectedCount | components/wamr/core/iwasm/aot/aot_loader.c:3655-3683 | the list is as long as there are different functions wanted |
| GotTable.FewWanted | components/wamr/core/iwasm/aot/aot_loader.c:3648-3683 | memory for as many items as the module has functions is always enough |
| SectionOrder.ResolveExecuteMode | components/wamr/core/iwasm/aot/aot_loader.c:4168-4205 | the mode found and the failures of the first scan |
| SectionOrder.ModeOfSplit | components/wamr/core/iwasm/aot/aot_loader.c:4168-4205 | in a file that can be split the mode is the one recorded in the first target info; without one, or behind a custom section, the file is taken not to be position-independent |
| SectionOrder.CreateSections | components/wamr/core/iwasm/aot/aot_loader.c:4207-4303 | splitting ends; it succeeds exactly on files of known, complete sections for whose text memory can be had, and lists every section with its own bytes; for a file that was written these are the bodies written, a copied text being filled with zeros to whole words behind the jump table |
| SectionOrder.WrittenListed | components/wamr/core/iwasm/aot/aot_loader.c:4230-4303 | what is listed for a file that was written: every type and body, unchanged but for the zeros behind a copied text |
| SectionOrder.WrittenSplits | components/wamr/core/iwasm/aot/aot_loader.c:4168-4296 | a file that was written can be split, and has the mode recorded in its target info |
| SectionOrder.ReadBody | components/wamr/core/iwasm/aot/aot_loader.c:4248-4281 | the text is copied with zeros up to whole words including the jump table |
| SectionOrder.BodiesApart | components/wamr/core/iwasm/aot/aot_loader.c:4231-4296 | section bodies are ordered, disjoint and within the file |
| SectionOrder.SplitEmitted | components/wamr/core/iwasm/aot/aot_loader.c:4230-4296 | a file written from a list of sections splits into that list |
| SectionOrder.LoadSections | components/wamr/core/iwasm/aot/aot_loader.c:3893-3976 | accepted exactly are the first types in order without gap or repetition, then custom sections, ending in relocation or custom |
| SectionOrder.LoadedOnce | components/wamr/core/iwasm/aot/aot_loader.c:3897-3909 | no section but a custom one is loaded twice or before its predecessor |
| SectionOrder.GapAccepted | components/wamr/core/iwasm/aot/aot_loader.c:3971-3976 | missing sections in the middle are accepted when a custom section follows |
| ModuleOwnership.GrabKeeps | components/wamr/core/iwasm/common/wasm_c_api.c:2968-2968 | one more use keeps count, loaded state and unload count of all modules right |
| ModuleOwnership.DropKeeps | components/wamr/core/iwasm/common/wasm_c_api.c:2414-2434 | one use less does too, unloading with the last |
| ModuleOwnership.DropAllKeeps | components/wamr/core/iwasm/common/wasm_c_api.c:256-266 | and so does dropping a store's whole list |
| ModuleOwnership.NextKeeps | components/wamr/core/iwasm/common/wasm_c_api.c:2246-2357 | every call keeps each count equal to store entries plus handles |
| ModuleOwnership.NextEffect | components/wamr/core/iwasm/common/wasm_c_api.c:2246-2357 | what each call does to stores and handles: which entries and handles it adds or takes away, that a module out of use is neither obtained nor shared, and that a call that fails changes nothing |
| ModuleOwnership.NextModules | components/wamr/core/iwasm/common/wasm_c_api.c:2414-2434 | after each call a count is the uses there are, and a module in use keeps its hash, which goes with its last use |
| ModuleOwnership.HistoryBalanced | components/wamr/core/iwasm/common/wasm_c_api.c:2246-2437 | after every history the count is store entries plus handles, the module is loaded exactly while that is positive and has otherwise been unloaded exactly once |
| ModuleOwnership.NeverRevived | components/wamr/core/iwasm/common/wasm_c_api.c:2930-2935 | a module that lost its last use is changed by no call |
| ModuleOwnership.DeadForGood | components/wamr/core/iwasm/common/wasm_c_api.c:2918-2973 | nor by any history of calls |
| ModuleOwnership.Engine.CheckLoadedModule | components/wamr/core/iwasm/common/wasm_c_api.c:2196-2217 | the first module in use with the hash |
| ModuleOwnership.Engine.ModuleNew | components/wamr/core/iwasm/common/wasm_c_api.c:2246-2357 | reuse, load, or a failure at any point that leaves everything as it was |
| ModuleOwnership.Engine.ModuleObtain | components/wamr/core/iwasm/common/wasm_c_api.c:2918-2947 | a store entry more for a loaded module |
| ModuleOwnership.Engine.ModuleShare | components/wamr/core/iwasm/common/wasm_c_api.c:2949-2973 | a handle more for a loaded module |
| ModuleOwnership.Engine.DeleteInternal | components/wamr/core/iwasm/common/wasm_c_api.c:2404-2437 | one use less, unloading with the last |
| ModuleOwnership.Engine.SharedModuleDelete | components/wamr/core/iwasm/common/wasm_c_api.c:2975-2979 | gives a handle back |
| ModuleOwnership.Engine.DropEntries | components/wamr/core/iwasm/common/wasm_c_api.c:256-266 | every entry of a vector is one use less |
| ModuleOwnership.Engine.DeleteStore | components/wamr/core/iwasm/common/wasm_c_api.c:721-731 | a deleted store gives up all its entries |
| StoreEnv.SetNumIs | components/wamr/core/iwasm/common/wasm_c_api.c:570-614 | setting one thread's counter changes no other and makes no second entry |
| StoreEnv.NextKeeps | components/wamr/core/iwasm/common/wasm_c_api.c:659-744 | every call keeps counters, environments and live stores in step, wherever a creation fails |
| StoreEnv.NextStores | components/wamr/core/iwasm/common/wasm_c_api.c:659-744 | a creation that goes through makes one new live store owned by its thread, one that fails leaves stores, counters and environments as they were, and a deletion takes away just its store |
| StoreEnv.CreatableIff | components/wamr/core/iwasm/common/wasm_c_api.c:669-695 | a thread can take on a store exactly if it has a live store or its environment can be set up, and its entry can count one more or an entry can be made |
| StoreEnv.HistoryBalanced | components/wamr/core/iwasm/common/wasm_c_api.c:518-744 | after any history a thread's counter is the number of its live stores, its environment is set up exactly while there is one, and it has at most one entry |
| StoreEnv.Engine.SearchStoreNum | components/wamr/core/iwasm/common/wasm_c_api.c:518-537 | the position of a thread's entry |
| StoreEnv.Engine.RetrieveStoreNum | components/wamr/core/iwasm/common/wasm_c_api.c:540-568 | a thread's counter, zero without an entry |
| StoreEnv.Engine.IncreaseStoreNum | components/wamr/core/iwasm/common/wasm_c_api.c:570-614 | one up, unless at the limit or without room for an entry |
| StoreEnv.Engine.DecreaseStoreNum | components/wamr/core/iwasm/common/wasm_c_api.c:616-657 | one down |
| StoreEnv.Engine.EnterThread | components/wamr/core/iwasm/common/wasm_c_api.c:669-695 | sets the environment up only if it is not, and takes it back if the counter cannot go up |
| StoreEnv.Engine.StoreNew | components/wamr/core/iwasm/common/wasm_c_api.c:659-719 | the state after a creation for every point of failure; a new store is live and owned by the thread |
| StoreEnv.Engine.StoreDelete | components/wamr/core/iwasm/common/wasm_c_api.c:721-744 | the state after a deletion by the owner: just this store is gone |
| AlignedSection.Leb128EncodeUint | components/wamr/test-tools/append-aot-to-wasm/append_aot_to_wasm.py:18-34 | groups of seven bits, low first, the high bit on all but the last |
| AlignedSection.Leb128DecodeUint | components/wamr/test-tools/append-aot-to-wasm/append_aot_to_wasm.py:37-54 | bytes taken and value; nothing only for empty input |
| AlignedSection.DecodeEncode | components/wamr/test-tools/append-aot-to-wasm/append_aot_to_wasm.py:18-54 | decoding inverts encoding for every positive integer with any trailing bytes |
| AlignedSection.PresentAsVector | components/wamr/test-tools/append-aot-to-wasm/append_aot_to_wasm.py:65-68 | length and content |
| AlignedSection.ReadVectorBack | components/wamr/test-tools/append-aot-to-wasm/append_aot_to_wasm.py:65-68 | a vector reads back its content and the rest (section 5.1.3 of the WebAssembly Core Specification) |
| AlignedSection.CalcPadding | components/wamr/test-tools/append-aot-to-wasm/append_aot_to_wasm.py:71-81 | the first padding below twice the alignment that aligns the content, or none if none does |
| AlignedSection.PaddingExists | components/wamr/test-tools/append-aot-to-wasm/append_aot_to_wasm.py:71-81 | for every start, name, content and power of two up to 128 there is one |
| AlignedSection.PaddingIff | components/wamr/test-tools/append-aot-to-wasm/append_aot_to_wasm.py:71-81 | for an alignment of 2^k the search finds a padding for every name, content and start position if and only if k is at most 7 |
| AlignedSection.PaddingFails | components/wamr/test-tools/append-aot-to-wasm/append_aot_to_wasm.py:71-81 | for every k from 8 on a content length and a start position, with an empty name, at which no padding in range aligns the content |
| AlignedSection.NoPaddingAt256 | components/wamr/test-tools/append-aot-to-wasm/append_aot_to_wasm.py:71-81 | such an input in numbers for alignment 256 |
| AlignedSection.CreateCustomSectionAligned | components/wamr/test-tools/append-aot-to-wasm/append_aot_to_wasm.py:88-125 | the section emitted has the first padding in range that aligns its content, at a multiple of the alignment if that is a power of two; there is none only if no section with a padding in range has its content aligned, and always one for powers of two up to 128 |
| AlignedSection.ReadSectionBack | components/wamr/test-tools/append-aot-to-wasm/append_aot_to_wasm.py:88-125 | the emitted bytes parse back as one custom section with the same name, padding and content (sections 5.5.2 and 5.5.3) |
| Lookups.QSort | components/wamr/core/iwasm/aot/aot_loader.c:2853-2853 | the same elements in ascending order |
| Lookups.BSearch | components/wamr/core/iwasm/aot/aot_runtime.c:2297-2298 | finds a match if there is one |
| Lookups.DistinctIff | components/wamr/core/iwasm/aot/aot_loader.c:2849-2860 | being pairwise distinct is a property of the multiset, so sorting does not change it |
| Lookups.CheckDuplicateExports | components/wamr/core/iwasm/aot/aot_loader.c:2834-2868 | accepted exactly when all names are distinct and memory for sorting more than 32 can be had |
| Lookups.CreateExportFuncs | components/wamr/core/iwasm/aot/aot_runtime.c:1451-1497 | the instance lists exactly the exported functions, each once, sorted by name; it fails exactly when there are some and no memory |
| Lookups.ModuleInstance.LookupFunction | components/wamr/core/iwasm/aot/aot_runtime.c:2287-2299 | returns what a scan over the exports returns: the function behind the one export of the name with its index, type and address, or nothing exactly if no function is exported under it |
| Lookups.Module.ScanFinds | components/wamr/core/iwasm/aot/aot_runtime.c:2287-2299 | with distinct names a scan finds the one export of a name |
| Lookups.ModuleInstance.BuildMaps | components/wamr/core/iwasm/aot/aot_runtime.c:1327-1333 | one entry for each position, ordered by function index |
| Lookups.ModuleInstance.LookupFunctionWithIdx | components/wamr/core/iwasm/aot/aot_runtime.c:1296-1347 | finds an export of the function exactly when there is one, by the map or one by one |
| Lookups.LoadFuncNames | components/wamr/core/iwasm/aot/aot_loader.c:772-827 | accepted exactly are strictly ascending indices within bounds, no more than there are functions |
| Lookups.LoadNameSection | components/wamr/core/iwasm/aot/aot_loader.c:745-833 | accepted exactly are strictly ascending sub-sections with valid function names, which are then the names kept |
| Lookups.LookupFuncName | components/wamr/core/iwasm/aot/aot_runtime.c:3816-3839 | the binary search is exact and complete because a section that loads is in strict order |

## Left out

- ProfileData.LLVMProfileData.Instrument: models the recorder where no other thread touches the record at the same time; a compare-and-swap that loses a race is not modelled. It asks for a minimum below UINT64_MAX on a full list, which every history of total weight below UINT64_MAX gives.
- ProfileData.LLVMProfileData.Insert: likewise without a lost race.
- ProfileDump.WriteRecords: the records' `offset_counters` are kept beside the records and not written into them.
- ProfileDump.DumpReadsBack: for little-endian machines; the byte-swapping branches are not modelled.
- BlockingOp.InterruptedForGood: for a lock-free build; where the lock macros lock, runs have fewer interleavings. It holds until the thread manager clears TERMINATE, as the code allows. That the interrupter's loop ends, which depends on the target reaching its end, is not modelled.
- CallFrames.ExecEnv.AllocStandardFrame: frames of one size; the frames of garbage-collected builds, whose size depends on the function's locals and stack (aot_runtime.c:3926-3980), are not modelled.
- CallFrames.ExecEnv.AllocTinyFrame: as in the source only the start of a tiny frame is compared with the boundary, so the last frame may reach past it.
- CallFrames.ExecEnv.CreateCallStack: the copies of locals, instruction offsets and function names in the entries are not modelled.
- CallFrames.ExecEnv.InvokeNative: setjmp and longjmp are the rule that a trap ends the innermost call; signal masks and the thread's exec-env slot are not modelled.
- MultiValue.CallWithExtraResults: values are lists of cells; the callee is one that stores each extra result through its pointer. Calls with at most one result have nothing to pack.
- MultiValue.CallDirect: the indirect path has the same text for laying out and collecting; both are modelled by one method, so that they agree is how the model is built and not a theorem.
- HeapPlacement.MemoryInstantiate: 32-bit memories that are not shared; page counts up to 65536 and a page size above zero are taken from a valid module. Linear memory allocation itself is not part of this model.
- GlobalLayout.AotModule.LoadImportGlobals: entries are given decoded; sizes are summed in unbounded arithmetic.
- GlobalLayout.AotModule.LoadGlobals: entries are given decoded; sizes are summed in unbounded arithmetic. Garbage-collected reference types and linking of builtin globals are not modelled.
- GlobalLayout.AotModule.GlobalSet: a value of the wrong kind and 128-bit globals, on which the source asserts, are excluded. Reading other externrefs is claimed for indices that the map handed out or null.
- DataSections.LoadDataSections: section headers are given as positions and sizes within the file.
- SymbolTable.LoadSymbolTable: what lies behind the section can be read; a fault there is not modelled.
- GotTable.AotModule.ScanSection: for x86-64 with 8-byte pointers; a 128-byte name without terminator, over which the source's copy has no end, is read as the 128 bytes. Applying the relocations is not modelled.
- SectionOrder.LoadSections: the section loaders are outcomes.
- ModuleOwnership.Engine.ModuleNew: calls are taken one at a time, as the locks make them; equal hashes stand for equal binaries; counts do not wrap at 32 bits.
- StoreEnv.Engine.StoreNew: the build without thread-local storage; with it each thread has the same counter in a variable of its own.
- Lookups.LoadFuncNames: entries and their strings are given decoded.
- Lookups.LoadNameSection: sub-sections and names are given decoded.
- Lookups.QSort: a sort of our own with the C library's contract.
- Module objects of the C API are entries of a sequence rather than heap objects, so aliasing between them is not modelled.
- Floating point, SIMD, multi-module, WASI, Windows and debug code: configuration without further invariants.
- The main application and the build and analysis scripts: glue and process input/output.

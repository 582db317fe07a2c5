# Icewind: a verified model of its translation pipeline

Icewind turns Sail architecture models into a dynamic binary translator: Sail/JIB becomes BOOM, BOOM becomes
the Rudder intermediate representation, and Rudder is specialised at run time into x86 code. This project models
the parts of that pipeline where meaning could be lost between two forms, and the caches and buffers that stand in
for something simpler, and proves that nothing is lost, or exactly when something is.

* **Function translator** (`rudder`, `emitted_code`, `specialisation`, `certificate`, `translator_state`,
  `worklist`, `well_formed`, `queue_progress`, `translator`). A worklist specialises Rudder blocks on variable
  stores. Whatever it translates runs in step with the interpreter, loops and merged paths included; well-formed
  functions are not refused, functions that only jump forward are finished in a bounded number of steps, and if no
  return was translated the function never returns.
* **Register allocator** (`widths`, `register_code`, `live_ranges`, `register_allocator`, `allocation_invariant`,
  `allocation_semantics`, `dead_definitions`, `pruning_semantics`, `handed_registers`, `register_allocator_run`,
  `allocation_limits`, `call_saves`). The reverse linear scan succeeds exactly when the live registers fit, keeps overlapping ranges apart
  and changes no value read where instructions list what they update before what they define and no load goes
  unread; it is shown exactly when values are kept otherwise. Deleting superseded definitions keeps meaning, and
  saves around calls nest.
* **Layout** (`jump_code`, `jump_threading`, `block_layout`, `x86_context`). Threading empty jumps, laying blocks
  out, deleting fall-through jumps and collapsing labels leaves every run as it was.
* **Control flow graphs** (`control_flow`, `flat_code`, `flat_code_builder`; `structured_code`, `unresolved_graph`,
  `graph_builder`, `graph_simulation`, `graph_resolution`, `structured_builder`). Two front ends: flat code with
  numeric targets, and nested ifs with labels and gotos. Both graphs show what their source shows; the second is
  refused exactly when some run of the source would fall off its end or miss a label.
* **State machines** (`ring_buffer`, `ring_protocol`; `chain_cache`, `code_cache`, `block_exec`). A shared-memory
  ring buffer under every interleaving of its two sides, and the two-level translation cache under every run of the
  execution loop and its environment.
* **Fast forms and arithmetic** (`psb_sync`; `add_with_carry`, `bits`, `register_layout`). Chunked packet search
  against byte-by-byte search, addition flags against comparisons, concatenation built from field insertion, and the
  register file.

Parameters stand for what the code does not fix: the meaning of pure operations and of machine instructions, the
outcome of tests, the callee of a call, guest address translation, and reports of stale pages.
Every lemma switches automatic induction off, so that each proof is the one written down.

## Model

| member | source | states |
|---|---|---|
| `Rudder.PrefixThenRest` | brig/dbt/src/interpret.rs:110-656 | interpreting a block is interpreting any data-only prefix of it and then the rest, with a panic in the prefix ending it |
| `EmittedCode.RunBlockSplit` | brig/dbt/src/emitter.rs:12-116 | running an emitted block is running its straight part and then what ends it |
| `Specialisation.StackWriteImplemented` | brig/dbt/src/translate.rs:1115-1206 | a store to a variable's own promoted slot keeps every other variable and every node in step with the interpreter's locals |
| `Specialisation.StackReadImplemented` | brig/dbt/src/translate.rs:1796-1812 | a load from a promoted slot into a fresh temporary keeps code and interpreter in step |
| `Specialisation.FoldImplemented` | brig/dbt/src/translate.rs:1406-1502 | an operation folded at translation time gives what the interpreter computes |
| `Specialisation.AssertImplemented` | brig/dbt/src/translate.rs:1753-1761 | the check emitted for an assertion traps exactly when the interpreter panics |
| `Specialisation.TracksExtend` | brig/dbt/src/translate.rs:973-1043 | statement by statement, emitted code stays in step with the interpreter for every machine the entry store describes |
| `Certificate.Simulation` | brig/dbt/src/interpret.rs:28-56 | blocks that are each correct for their key keep step with the interpreter for any number of blocks: same exit with the returned words, trap exactly on panic |
| `Certificate.SpliceStores` | brig/dbt/src/translate.rs:704-749 | splicing stores in front of an earlier return's exit jump moves its results from nodes to slots and leaves the block correct |
| `TranslatorState.MidwayPromoteReturn` | brig/dbt/src/translate.rs:679-779 | promoting the first return's values repairs that return and disturbs no other block, whichever block is being filled |
| `Worklist.EmptyQueueCertified` | brig/dbt/src/translate.rs:875-970 | when the queue is empty every emitted block is correct for its key and for the final place of the results |
| `Translator.EntryStore` | brig/dbt/src/translate.rs:827-840 | at entry every parameter is bound to its own argument, by position, and nothing else is bound |
| `Translator.ArgumentsMatch` | brig/dbt/src/interpret.rs:41-47 | the entry store describes every machine together with the locals that hold, parameter by parameter, the values of the arguments |
| `Translator.FunctionTranslator.constructor` | brig/dbt/src/translate.rs:782-842 | an exit and an entry block are made, the entry block standing for the function's entry with each parameter bound to its argument, by position |
| `Translator.FunctionTranslator.WriteVariable` | brig/dbt/src/translate.rs:1115-1206 | a write keeps the block in step and changes no other variable; a variable that is virtual in a static block takes the node without code, and in every other case it is stored to its one stack slot and stays there |
| `Translator.FunctionTranslator.PromoteReturn` | brig/dbt/src/translate.rs:704-749 | the earlier block gets the stores before its jump, in order, and the results become fresh slots |
| `Translator.FunctionTranslator.ReturnAgain` | brig/dbt/src/translate.rs:679-779 | every return after the first leaves its values in the shared slots, the second one repairing the first |
| `Translator.FunctionTranslator.TranslateStatement` | brig/dbt/src/translate.rs:1045-1206 | a data statement is refused exactly when a variable or value it needs is missing; otherwise the block stays in step |
| `Translator.FunctionTranslator.TranslateControlFlow` | brig/dbt/src/translate.rs:1560-1646 | jumps and branches on known values go on in a block of their own, branches on unknown values in shared blocks; these, returns and panics leave a correct block and hand the store to the right targets |
| `Translator.FunctionTranslator.TranslateBlock` | brig/dbt/src/translate.rs:973-1043 | a block specialised on a store is correct for it, or is refused exactly when it is not well formed for that store |
| `Translator.FunctionTranslator.TranslateJob` | brig/dbt/src/translate.rs:875-964 | one turn of the loop keeps the queue invariant, puts a single successor at the front and the two of a branch at the back and, on forward functions, leaves strictly less to do |
| `Translator.FunctionTranslator.Translate` | brig/dbt/src/translate.rs:844-971 | a translation, run on any machine, does what the function does on locals that hold the arguments by position, and leaves the returned words in order; well-formed functions are accepted; it fails for a full queue exactly when more than 1000 blocks wait; a function of n blocks that only jumps forward takes fewer than 2^n steps and never has that many waiting if 2^(n-1) is at most 1001; no translated return means no run returns |
| `Translator.CertifiedPreservesMeaning` | brig/dbt/src/translate.rs:953-970 | reading the results in the exit block gives the words returned by the run that got there |
| `Translator.UnreadNeverReturns` | brig/dbt/src/translate.rs:660-677 | if a result was never written then the interpreter returns on no arguments |
| `WellFormedness.IdentityWellFormed` | brig/dbt/src/translate.rs:1095-1114 | the function that returns its argument is well formed and only jumps forward |
| `WellFormedness.MoreVars` | brig/dbt/src/translate.rs:1095-1114 | a block that can be translated with some variables written can be translated with more |
| `QueueProgress.DynamicDrops` | brig/dbt/src/translate.rs:928-951 | replacing a block by two later ones, each weighing a power of two in the blocks after it, lowers the bound on what is left |
| `LiveRanges.ScanFindsRanges` | brig/dbt/src/x86/register_allocator.rs:56-108 | on code that redefines nothing before reading it, the forward pass finds each register's first definition and last use, and that it has no use, and deletes nothing |
| `DeadDefinitions.ScanPrunes` | brig/dbt/src/x86/register_allocator.rs:56-108 | where registers are redefined before they are read, the forward pass deletes exactly the superseded definitions and finds the ranges of the code that is left |
| `DeadDefinitions.NothingPruned` | brig/dbt/src/x86/register_allocator.rs:80-90 | code in which every redefinition comes after a read is left as it is |
| `DeadDefinitions.ReadDefinitionDeleted` | brig/dbt/src/x86/register_allocator.rs:68-107 | a load whose register one instruction both reads and defines anew is deleted although it is read, because definitions are looked at first |
| `PruningSemantics.PruningExactly` | brig/dbt/src/x86/register_allocator.rs:83-89 | without superseded definitions a program keeps the machine state apart from registers, at every moment of a run, exactly when along that run they change nothing but registers |
| `AllocationInvariant.AllocateScans` | brig/dbt/src/x86/register_allocator.rs:110-408 | at every step of the reverse scan the live set is the registers of the ranges that span the point, all different, and unread loads have the first register of their class; it fails exactly when the ranges do not fit |
| `AllocationInvariant.OutOfRegisters` | brig/dbt/src/x86/register_allocator.rs:501-513 | no register is found only if more ranges of the class are live than it has registers |
| `RegisterAllocator.PoolSizes` | brig/dbt/src/x86/register_allocator.rs:110-152 | thirteen general and eight XMM registers are handed out |
| `HandedRegisters.HandsOutUsable` | brig/dbt/src/x86/register_allocator.rs:117-139 | whatever the code, allocated instructions are the ones given with every general register one of RAX, RCX, RDX, RBX, RSI, RDI and R8 to R14, never RSP, RBP or R15, and every vector register one of XMM0 to XMM7 |
| `HandedRegisters.SelfMovesGo` | brig/dbt/src/x86/register_allocator.rs:447-452 | no move of a register to itself is left but 32-bit ones, and besides what the forward pass deletes only moves of other widths go |
| `AllocationSemantics.AllocationSucceeds` | brig/dbt/src/x86/register_allocator.rs:27-54 | allocation succeeds exactly when at most 13 general and 8 XMM ranges overlap and only loads define registers nobody reads; overlapping ranges get different registers of the right class |
| `AllocationSemantics.UnreadFails` | brig/dbt/src/x86/register_allocator.rs:191-195 | an instruction other than a load that defines a register nobody reads makes the allocator panic |
| `AllocationSemantics.AllocationPreservesMeaning` | brig/dbt/src/x86/register_allocator.rs:410-452 | before every instruction of ordered code whose unread loads are alone in their class, the allocated code has the same other state and every live value in the register given to it, as far as it is needed, and every instruction left reads the values it read before |
| `AllocationSemantics.DefinitionsLastOrdered` | brig/dbt/src/x86/encoder/mod.rs:2308-2526 | code whose instructions list what they update before what they define, as every opcode does, is in the order that allocation needs |
| `AllocationSemantics.MovAgrees` | brig/dbt/src/x86/register_allocator.rs:433-452 | a committed move of any width keeps every live value as far as it is needed, also where it is deleted because both registers are one and it is not a 32-bit move |
| `Widths.PutParts` | brig/dbt/src/x86/register_allocator.rs:447-452 | writing 8 or 16 bits keeps the rest of a register, writing 32 bits clears it, writing 64 bits replaces it |
| `Widths.SelfMoveExactly` | brig/dbt/src/x86/register_allocator.rs:447-452 | where 8- and 16-bit moves keep the upper bits of their destination and 32-bit ones clear them, a move of a register to itself can be deleted exactly when it is not a 32-bit one |
| `AllocationSemantics.AloneClear` | brig/dbt/src/x86/register_allocator.rs:169-194 | if no range of an unread load's class is live after it, none has the first register of the class |
| `PruningSemantics.RedefinitionsPreserveMeaning` | brig/dbt/src/x86/register_allocator.rs:27-54 | allocation of code with superseded definitions that change nothing but registers: before every instruction the other state is the same, and every instruction left reads the values it read before |
| `AllocationLimits.AllocationExactly` | brig/dbt/src/x86/register_allocator.rs:154-319 | allocated code keeps every live value, as far as it is needed, in the register given to it, for every effect of the instructions and all register contents, exactly when no instruction writes, after starting a range, a register whose range it ends and that has the same physical register, and no range live after an unread load has the first register of the load's class |
| `AllocationLimits.UnreadLoadSpoils` | brig/dbt/src/x86/register_allocator.rs:169-194 | two loads of which only the first is read get one register, and the value read is lost |
| `RegisterAllocatorRun.AllocatorRun.CalculateLiveRanges` | brig/dbt/src/x86/register_allocator.rs:56-108 | the forward loop over trackers and instructions computes the specified ranges, killing redefined instructions in place |
| `RegisterAllocatorRun.AllocatorRun.DoAllocate` | brig/dbt/src/x86/register_allocator.rs:110-408 | the reverse loop hands out registers as the specification does and fails exactly when it does |
| `RegisterAllocatorRun.AllocatorRun.Run` | brig/dbt/src/x86/register_allocator.rs:27-54 | the three passes in place succeed exactly when, without superseded definitions, the live registers fit and only loads define registers nobody reads, and leave the code of the specified allocation |
| `CallSaves.NoteCalls` | brig/dbt/src/x86/register_allocator.rs:143-407 | the reverse pass notes exactly the calls, each with its own live set, last call first |
| `CallSaves.InsertCallSaves` | brig/dbt/src/x86/register_allocator.rs:454-497 | going forward, the notes taken off the end of the reverse pass's list belong to the call at hand, and every call is wrapped in the saves of its own live set |
| `CallSaves.WrapCall` | brig/dbt/src/x86/register_allocator.rs:488-496 | the nine slots before a call get pushes, the nine after it pops in the opposite order, and nothing else changes |
| `CallSaves.SavedExactly` | brig/dbt/src/x86/register_allocator.rs:469-486 | saved are, in this order, those of RAX, RDI, RSI, RDX, RCX, R8, R9, R10 and R11 that are live, carry none of the call's arguments and are not what is called |
| `CallSaves.LiveAcrossCall` | brig/dbt/src/x86/register_allocator.rs:454-497 | for every callee that keeps RBX, RSP, RBP and R12 to R15, every general register the allocator hands out that is live at a call, carries none of its arguments and is not what is called holds after it what it held before |
| `CallSaves.CallKeepsSaved` | brig/dbt/src/x86/register_allocator.rs:454-497 | around a wrapped call the stack ends as it began, every saved register keeps its value, whatever the callee does, and every other is as the callee left it |
| `JumpThreading.ThreadingSameRuns` | brig/dbt/src/x86/mod.rs:532-562 | redirecting a jump past an empty block changes no run from any block |
| `BlockLayout.LayoutSimulates` | brig/dbt/src/x86/mod.rs:312-398 | from the label of any placed block the list shows exactly what the graph shows: same instructions, same branches, same end |
| `BlockLayout.LastIsLive` | brig/dbt/src/x86/mod.rs:370-376 | the last instruction of a layout never dies, so behind the place of every block there is a live one |
| `X86Context.ThreadedOk` | brig/dbt/src/x86/mod.rs:532-562 | one redirection in place is one of the graph, stays inside the blocks led to, keeps every block's targets among its successors and the panic block, and leaves later jumps threadable |
| `X86Context.LeavingBlocksReady` | brig/dbt/src/x86/emitter/mod.rs:2175-2289 | blocks that leave through an indirect jump, next to a block left empty by an abandoned translation, meet what compiling needs |
| `X86Context.TranslationContext.EmptyBlockJumpThreading` | brig/dbt/src/x86/mod.rs:532-562 | threading in place ends if no cycle consists only of empty jumps, leaves no jump to thread in the block, and leaves all runs as they were |
| `X86Context.TranslationContext.Discover` | brig/dbt/src/x86/mod.rs:288-308 | every block led to is found once, while blocks are rewritten under way without changing any run, whatever the blocks not led to are |
| `X86Context.TranslationContext.Place` | brig/dbt/src/x86/mod.rs:312-317 | the instruction list is the blocks in order, and each block's place is where it starts |
| `X86Context.TranslationContext.KillFallThroughJumps` | brig/dbt/src/x86/mod.rs:319-334 | exactly the jumps to the next instruction die |
| `X86Context.TranslationContext.CollapseLabels` | brig/dbt/src/x86/mod.rs:348-388 | every target's label is on the first live instruction at or after its block, which lies inside the list |
| `X86Context.TranslationContext.Compile` | brig/dbt/src/x86/mod.rs:281-398 | the compiled list shows what the original graph shows from its initial block, every block led to is placed once, whatever the blocks not led to are, and no placed block has a single successor that is nothing but a jump |
| `FlatCode.BuiltSimulates` | borealis/borealis/src/jib/convert.rs:388-494 | a graph in which every instruction has its spot shows exactly what the program-counter machine shows, backward jumps and jumps to 0 included |
| `FlatCodeBuilder.BeginReady` | borealis/borealis/src/jib/convert.rs:417-432 | entering a block that starts here closes the open one so that earlier instructions run on into it |
| `FlatCodeBuilder.PendingBuilt` | borealis/borealis/src/jib/convert.rs:488-494 | when no instruction is left, every instruction has its spot and its successors |
| `FlatCodeBuilder.BoomEmitter.FindLocations` | borealis/borealis/src/jib/convert.rs:390-405 | every jump target and every instruction after a jump, end or exit gets a fresh block of its own |
| `FlatCodeBuilder.BoomEmitter.ConvertBody` | borealis/borealis/src/jib/convert.rs:388-494 | the graph built in place shows what the flat code shows, for every test; earlier blocks are untouched |
| `GraphBuilder.ProcessRepresents` | borealis/borealis/src/jib_legacy/control_flow.rs:38-157 | from where the builder was, the finished graph does the processed statements and then what it does at their end |
| `GraphBuilder.ProcessLocates` | borealis/borealis/src/jib_legacy/control_flow.rs:41-58 | a label leads to the block that does what follows the last label of that name, nested ones included |
| `GraphSimulation.BuiltRunsInStep` | borealis/borealis/src/jib_legacy/control_flow.rs:38-157 | after every number of steps the unresolved graph shows exactly what the nested if/label/goto semantics shows |
| `UnresolvedGraph.BadIffStuck` | borealis/borealis/src/jib_legacy/control_flow.rs:199-247 | a block that resolution cannot get past is reachable exactly when some sequence of test outcomes gets stuck |
| `GraphResolution.CompleteReached` | borealis/borealis/src/jib_legacy/control_flow.rs:165-231 | a finished resolution holds exactly the reachable blocks, and none of them lacks a terminator or a label |
| `GraphResolution.CompleteRuns` | borealis/borealis/src/jib_legacy/control_flow.rs:196-231 | the resolved graph runs in step with the unresolved one |
| `GraphResolution.Resolver.ResolveBlock` | borealis/borealis/src/jib_legacy/control_flow.rs:165-231 | resolution ends on cyclic graphs with one copy per block met, and fails only if a bad block is reachable |
| `StructuredBuilder.BadIffGoesWrong` | borealis/borealis/src/jib_legacy/control_flow.rs:161-247 | resolution can fail exactly when some run of the source falls off its end or jumps to a missing label |
| `StructuredBuilder.ControlFlowGraphBuilder.SetTerminator` | borealis/borealis/src/jib_legacy/control_flow.rs:274-282 | sets the current block's terminator; its precondition, met at every call, rules out the panic on a block that already has one |
| `StructuredBuilder.ControlFlowGraphBuilder.ProcessStatements` | borealis/borealis/src/jib_legacy/control_flow.rs:38-157 | the loop that updates blocks and labels in place builds the specified graph |
| `StructuredBuilder.ControlFlowGraphBuilder.FromStatements` | borealis/borealis/src/jib_legacy/control_flow.rs:23-36 | panics exactly when some run of the source goes wrong; otherwise the graph shows what the source shows after every number of steps, with one block per reachable block |
| `RingBuffer.SlotsCount` | common/src/ringbuffer.rs:113-117 | the stream starts at the start of the buffer and each byte is in the slot after the one before, or at the start again |
| `RingBuffer.WritesInOrder` | common/src/ringbuffer.rs:113-131 | while not full, the two pieces of a write are the free space in stream order |
| `RingBuffer.ReadsInOrder` | common/src/ringbuffer.rs:160-172 | while neither empty nor full, the one or two pieces shown are the unread bytes in stream order |
| `RingBuffer.FullLooksEmpty` | common/src/ringbuffer.rs:119-125 | a full buffer offers the writer the whole capacity and shows the reader nothing |
| `RingBuffer.Ring.Write` | common/src/ringbuffer.rs:104-147 | panics exactly on data longer than the capacity; otherwise puts the bytes in their slots and touches no other slot: while not full it appends what fits to the contents, and when full it writes all of the data over the oldest unread bytes |
| `RingBuffer.Ring.Read` | common/src/ringbuffer.rs:152-177 | shows the contents, in one piece or where they wrap around in the two pieces that end and start the buffer, and drops what the reader is done with; a full buffer is the unreachable case |
| `RingProtocol.RunKeeps` | common/src/ringbuffer.rs:104-177 | every interleaving of header reads, byte copies and publications keeps the protocol's invariant while occupancy is below capacity |
| `RingProtocol.RunSafe` | common/src/ringbuffer.rs:104-177 | in such a run the bytes taken are a prefix of the bytes written, the bytes seen continue them, the two sides never touch the same slot, and the unreachable case is not reached |
| `RingProtocol.WriteCompletes` | common/src/ringbuffer.rs:104-147 | left to itself, a write publishes as many of its bytes as there is room for, in their slots, and changes nothing else |
| `RingProtocol.ReadCompletes` | common/src/ringbuffer.rs:152-177 | left to itself, a read takes the next bytes of the stream, as many as it says, and changes nothing else |
| `RingProtocol.FittingNeverFull` | common/src/ringbuffer.rs:133-146 | if every write has fewer bytes than the room it sees, occupancy stays below capacity |
| `RingProtocol.FullExactly` | common/src/ringbuffer.rs:104-177 | the read after an undisturbed write meets the unreachable case exactly when the write did not fit with a byte to spare |
| `ChainCache.SharesSlot` | brig/brig/src/guest/models.rs:685-687 | two keys share a slot exactly when their quotients by 4 differ by a multiple of the table's size |
| `ChainCache.NeighboursKept` | brig/brig/src/guest/models.rs:685-687 | as many consecutive instruction addresses as the table has slots never take each other's slot |
| `ChainCache.GetIsLatest` | brig/brig/src/guest/models.rs:650-695 | a lookup gives the latest value inserted for the key since the last fill, unless another key has taken its slot |
| `ChainCache.DirectMappedCache.InsertKey` | brig/brig/src/guest/models.rs:671-673 | one table slot changes, in place |
| `ChainCache.DirectMappedCache.Fill` | brig/brig/src/guest/models.rs:693-695 | every key changes in place and no value does |
| `CodeCache.ApplyCoherent` | brig/brig/src/guest/models.rs:235-349 | every step of the loop and of its environment keeps the two caches coherent |
| `CodeCache.RunSafe` | brig/brig/src/guest/models.rs:235-410 | in every run each chain entry in use leads to a held translation of the right offset, and once reports are drained no cache leads to a translation older than its page's last report |
| `CodeCache.RunRegion` | brig/brig/src/guest/models.rs:290-302 | in every run the virtual base is the page of the program counter the region was entered with, the physical base the page of the address it was translated to then, and the running block lies on that page |
| `CodeCache.DrainLeavesNoneStale` | brig/brig/src/guest/models.rs:236-273 | where stale pages are tracked, draining them leaves no translation made before its page was last reported, and a targeted flush keeps all translations of pages not reported |
| `CodeCache.RunLookup` | brig/brig/src/guest/models.rs:302-410 | in every run a chain lookup gives the block found last for that program counter since the last drain, address-translation or code change, unless its slot was taken |
| `BlockExec.ModelDevice.ReportStale` | brig/brig/src/page_fault_handler.rs:326 | reporting a page in place is the environment's report step and keeps the caches coherent |
| `BlockExec.ModelDevice.PopStalePages` | brig/brig/src/guest/models.rs:244-258 | popping pages one by one clears exactly the translations of the pages reported |
| `BlockExec.ModelDevice.DrainStalePages` | brig/brig/src/guest/models.rs:236-273 | draining in place is the machine's drain step and, where pages are tracked, leaves nothing stale |
| `BlockExec.ModelDevice.NextBlock` | brig/brig/src/guest/models.rs:289-349 | finding or making a block in place is the machine's fetch step; afterwards the program counter is in the 4096 bytes from the virtual base on, both bases are as before if it was so already and otherwise the physical base is the page of the translated address, and the block is on that page at the program counter's offset |
| `BlockExec.ModelDevice.AfterExecute` | brig/brig/src/guest/models.rs:401-410 | forgetting chain entries after a block is the machine's return step |
| `PsbSync.PacketBytes` | brig-cli/src/ptwrite/decoder/sync.rs:90-125 | a packet is the bytes 02 82 eight times with no such pair right before or after |
| `PsbSync.ChunkSearchFirst` | brig-cli/src/ptwrite/decoder/sync.rs:90-125 | the chunk search finds the first packet that does not end the buffer |
| `PsbSync.FindNextSyncSimple` | brig-cli/src/ptwrite/decoder/sync.rs:127-141 | finds the first eight pairs that do not end the buffer; what it finds is what the chunk search finds exactly under the condition of `AgreesExactly`, in every clean buffer in particular |
| `PsbSync.SearchAfter` | brig-cli/src/ptwrite/decoder/sync.rs:61-77 | searching again one byte into a packet finds the next packet and never the same one |
| `PsbSync.FindSyncRange` | brig-cli/src/ptwrite/decoder/sync.rs:49-88 | in every buffer the range runs from the first place found to the last of at most the number wanted, searching on one byte into each; in clean buffers these are the packets |
| `PsbSync.AgreesExactly` | brig-cli/src/ptwrite/decoder/sync.rs:90-141 | for every buffer the two searches agree exactly when the first maximal run of pairs that an aligned chunk hits, and that ends before the buffer, has eight pairs, or there is none and no longer run ends the buffer |
| `PsbSync.AgreeOnRuns` | brig-cli/src/ptwrite/decoder/sync.rs:90-125 | the condition on maximal runs decides whether what the chunk search finds is a packet |
| `PsbSync.LongRunDiffers` | brig-cli/src/ptwrite/decoder/sync.rs:90-141 | on any run of more than eight pairs at the start the chunk search finds the last eight pairs and the other search the first |
| `PsbSync.CleanAgrees` | brig-cli/src/ptwrite/decoder/sync.rs:90-141 | the condition holds of every buffer in which each eight alternating bytes belong to a packet |
| `AddWithCarry.FlagsMean` | brig/dbt/src/interpret.rs:221-264 | the result is the sum, less 2^64 if it does not fit, and the flags are its sign, zero, carry out and signed overflow, overflow both as a range and as a sign rule |
| `AddWithCarry.SubtractionCompares` | brig/dbt/src/interpret.rs:221-264 | adding the complement and one subtracts, and every Arm condition code then decides the comparison of the operands it is named for |
| `Bits.InsertKeeps` | common/src/bits.rs:16-44 | a bit insert fails exactly when a value other than 0 goes past the word; otherwise the field, as far as it lies in the word, holds the source's low bits and all bits below and above are as they were, in terms of quotients and remainders |
| `Bits.ExtractIs` | common/src/bits.rs:46-48 | a bit extract is a quotient and then a remainder by powers of two |
| `Bits.ConcatExactly` | borealis/borealis/src/rudder/build.rs:2220-2273 | lowered concatenation is left * 2^width + right exactly when the right operand is narrower than a word or zero |
| `Bits.ConcatSplits` | common/src/bits.rs:46-48 | two bit extracts undo a concatenation |
| `Bits.ConcatAssociative` | borealis/borealis/src/rudder/build.rs:2220-2273 | concatenation is associative |
| `Bits.LiteralBits` | borealis/borealis/src/boom/mod.rs:696-702 | bit i of the word is bit i of the literal, lowest first, and there are no others |
| `Bits.LiteralsConcat` | borealis/borealis/src/boom/mod.rs:696-702 | converting joined bit literals is concatenating their values |
| `RegisterLayout.BuildContext.AddRegister` | borealis/borealis/src/rudder/build.rs:84-102 | after any additions registers occupy disjoint 8-aligned ranges |
| `RegisterLayout.IndexRegisters` | common/src/rudder/mod.rs:55-69 | the index by offset names exactly the registers, each where it starts |
| `RegisterLayout.LookupIsLast` | common/src/rudder/mod.rs:107-112 | an offset is looked up to the last register that starts at or before it, and to none only if none does |
| `RegisterLayout.LookupInside` | common/src/rudder/mod.rs:107-112 | every byte offset inside a register is looked up to that register |
| `RegisterLayout.RangeOfRegister` | brig/dbt/src/register_file.rs:154-173 | at a register's start the range check passes exactly when no later register is reached |
| `RegisterLayout.RegisterFile.constructor` | brig/dbt/src/register_file.rs:25-58 | the file has the registers rounded up to 8 bytes and 2 MiB more, all zero |
| `RegisterLayout.RegisterFile.Read` | brig/dbt/src/register_file.rs:105-122 | a read gives the bytes from the register's start on and is refused exactly when a write of as many bytes is, so it reads back what was written |
| `RegisterLayout.RegisterFile.Write` | brig/dbt/src/register_file.rs:78-103 | a write no wider than its register is made and changes no byte outside it, so no other register; a wider one is refused exactly when it reaches the next register or leaves the file |

## Left out

- Translator: the emitter is modelled as an eager builder of the emitter interface, where a node is a constant or a temporary assigned where it is emitted; the x86 emitter builds expression nodes that it evaluates later, so reading a stack variable late is not covered.
- Translator: registers, memory, calls, bit-vector widths and the promotions by variable name are not translated; tuples are lists of result words; the jump from the caller's current block to the entry block is not part of the model.
- Translator.FunctionTranslator.Translate: takes a number of steps, because the worklist need not end; for functions that only jump forward a bound is proved.
- AllocationSemantics.AllocationPreservesMeaning: asks that no operand that starts a range comes before a written operand of the same class whose range ends there, which the operand order of every opcode rules out (`DefinitionsLastOrdered`), and that no range of an unread load's class is live after it, without which values can be lost (`AllocationLimits.UnreadLoadSpoils`); `AllocationLimits.AllocationExactly` says when other code keeps its values, in terms of the registers given out.
- AllocationSemantics.MovAgrees: values agree up to the width that is needed of a register; that no operand reads more of a register than its first definition decides is asked of the code. 128-bit operands are taken to use the whole of a 64-bit value.
- AllocationSemantics.AllocationSucceeds: fixed physical registers, interference sets, conditional moves and live ranges over back edges are not modelled; neither are registers whose last mention, after a read, is a definition.
- DeadDefinitions.ScanPrunes: asks that a superseded instruction writes one register only and that what it reads is live before and after it; where it is the last to read a register the code panics when it meets that register's definition.
- CallSaves.CallKeepsSaved: register saving is proved on its own instruction set, with liveness at calls given; XMM registers are not saved by the code.
- X86Context.TranslationContext.Compile: register allocation, which runs between layout and labels, and machine code encoding are not part of it.
- X86Context.TranslationContext.EmptyBlockJumpThreading: of the blocks led to, needs a ranking of the empty ones, that is, no cycle of them, since the code does not end on such a cycle; and where a block's one successor only jumps, that the block ends in the jump to it and its other jumps go to the panic block, since the code rewrites only the last instruction and replaces the successor.
- FlatCodeBuilder.BoomEmitter.ConvertBody: parents of blocks and the conversion of single instructions to statements are not modelled.
- StructuredBuilder.ControlFlowGraphBuilder.FromStatements: where a label name occurs twice the last one counts, as in the code's label map.
- RingBuffer.Ring.Write: positions are unbounded, so 64-bit wrap-around of the counters is not modelled.
- CodeCache.RunSafe: stale pages are reported by the pages' cache keys; page faults, protection of code pages and address translation are the environment's; that the cached region base follows a changed mapping is not claimed.
- PsbSync.FindNextSyncSimple: the searches are compared on little-endian buffers of at least one packet; the unchecked search is not modelled.
- AddWithCarry.SubtractionCompares: only the 64-bit form the interpreter has.
- RegisterLayout.RegisterFile.Write: values are byte strings; encodings of integers, vector registers, the log message on a wide access and accesses at offsets inside a register are not modelled.
- Sail and JIB syntax, pretty printing, serialisation, devices, the scheduler and timers are not modelled.

# Four architecture simulators, modelled and verified

The repository holds four small simulators. Each is modelled here separately: a specification on values (functions), lemmas about it over every input or run, and the program's own form (classes, arrays and loops) whose methods are proved equal to the specification.

| simulator | specification | results | program form |
|---|---|---|---|
| dataflow calculator (HW3) | `DisconnectLoop.dfy`, `DataflowModel.dfy`, `DataflowQueries.dfy` | `DataflowReach.dfy`, `DataflowTheorems.dfy`, `DataflowTermination.dfy`, `DataflowCollect.dfy` | `DflowCalc.dfy` |
| multithreaded core (HW4) | `CoreModel.dfy` | `CoreInstructions.dfy`, `CoreIndependence.dfy`, `CoreCycles.dfy` | `ThreadHandler.dfy` |
| two-level cache (HW2) | `CacheModel.dfy`, `CacheSystem.dfy` | `CacheBlocks.dfy`, `CacheSystem.dfy`, `CacheTraces.dfy`, `CacheDirty.dfy`, `CacheRecency.dfy`, `CacheStack.dfy` | `CacheSim.dfy` |
| branch predictor (HW1) | `PredictorModel.dfy`, `PredictorHistory.dfy` | `PredictorRefinement.dfy`, `PredictorMisses.dfy` | `BranchPredictor.dfy` |

`Bits.dfy` holds the word arithmetic they share. `dafny verify dfyconfig.toml` checks everything.

## What is proved

**Dataflow calculator.** `analyzeProg` builds a graph and keeps only its frontier. Whenever it returns, `getInstDeps` reports exactly the latest earlier writer of each source register (found by a plain backward scan of the trace), `getInstDepth` is the largest latency of a dependency chain into the instruction, `getProgDepth` the largest of any chain, and `freeProgCtx` collects every node once. The reference for each is defined on the trace alone.

One promise does not hold of the code for every trace: `add_inst` does not always return. Its disconnecting loop shifts later slots down but never refills the last one (HW3/dflow_calc.cpp:127-129 and 137-139). `AddInstHangsExactly` gives the condition, for all trees and instructions: the call fails to return if and only if the slot array is full and holds two of the new instruction's dependencies, one of them in the last slot. `AnalyzeHangsExactly` lifts this to whole traces: `analyzeProg` fails to return if and only if some prefix fills the array and the next instruction reads both the instruction before it and another one not read so far. `FullFrontierHangs` gives a trace for every initial capacity of at least two, `ShippedCapacityHangs` one for the capacity of 100. The loop is modelled one iteration at a time, so "does not return" means that no number of iterations exits it. When the array is full and only one dependency is removed from before the last slot, the last entry stays behind twice; `NoRepeatUnlessOverrun` says that this is exactly when the frontier repeats an entry, and all results above hold for such traces too.

**Multithreaded core.** Instructions are exact modulo 2^32, a `SUB` undoes an `ADD`, and a `LOAD` returns what a `STORE` to its address left; since the address difference is divided toward zero, the three bytes before the data array count as its first word (`DataIndexIs`). Both schedulers are step functions over one state. If no word stored by one thread's solo run is touched by another's, both modes end with every register file and the whole data memory as the solo runs leave them. Both run loops end within the summed work of all programs, every cycle is an issue, an idle cycle or a switch penalty, no run is shorter than any program alone, a single thread takes exactly one cycle an instruction plus the load and store latencies, idle cycles occur only when no live thread is ready, and round robin lets at most N - 1 other instructions pass before a ready thread issues.

**Two-level cache.** From empty caches of any two geometries with one block size, every reachable state is inclusive, a block in L2 is dirty in L1 or L2 if and only if it was written since its last fill, and the bits of each level alone are characterised as well (dirty in L1 means written since it last entered L1), every set is in order of last touch, each block dropped is the least recently touched of its set, every write-back of an L1 victim finds its block in L2, and the summed access time is the stated combination of the miss counts. Alone, a cache with more ways keeps everything one with fewer ways keeps.

**Branch predictor.** After any updates, each history register holds the last outcomes in its scope, each counter is the saturating fold of exactly the outcomes that selected it, selection mixes in the branch's address bit by bit, and the prediction is a function of the list of updates. Over the lifetime of any counter of the predictor (since reset, or since its entry last changed tag), the updates at which it pointed the wrong way are at most twice those with the rarer outcome, plus two; a run attains this. The valid bit is never consulted by `predict`: `ColdPrediction` states, for every configuration, what an entry no branch has updated predicts.

## Assumptions

- HW3: opcodes index the latency table; latencies are non-negative and depths do not overflow an `int`. `EXIT_START_SIZE` is a parameter (at least 1). `dstIdx` is converted to `unsigned` as the code does, so a negative destination is a register number above 2^31.
- HW4: at least one thread, every program reaches a `HALT` through instructions that name registers 0 to 7, latencies and penalty are non-negative, cycle counts do not overflow. Register arithmetic wraps at 32 bits. The run methods require that no access leaves the data array; `RunInBounds` derives this from the solo runs. The data array may have any length (the source has 100 words). Both modes start from the same memory image.
- HW2: an operation is a read or a write; block and set bits together take at least one bit and leave at least one for the tag, so that no shift in `get_bits` reaches 32 (HW2/Cache.cpp:21-22), and the number of blocks is below 2^31, since it is stored in an `int` (HW2/Cache.cpp:59). Addresses of any size are accepted and truncated to 32 bits as the code does.
- HW1: the table size is a power of two of at most 2^29, tags take at most 31 bits and histories at most 30, so that every shift stays within a word, `fsmState` is 0 to 3, and `Shared` is one of its three values.
- Shifts and masks (`get_bits`) are written as division and remainder by powers of two.

## Model

| member | source | states |
|---|---|---|
| DisconnectLoop.DisconnectedIs | HW3/dflow_calc.cpp:119-146 | when the loop exits, exactly the entries that are not dependencies are left, packed and in order |
| DisconnectLoop.ExitsUnlessJammed | HW3/dflow_calc.cpp:121-146 | the loop exits if and only if the array is not full with a dependency in its last slot and another before it |
| DisconnectLoop.RepeatsWhenFull | HW3/dflow_calc.cpp:121-146 | the entries left are free of repetitions if and only if none was removed from the middle of a full array |
| DataflowModel.InsertFacts | HW3/dflow_calc.cpp:148-170 | a new entry goes behind the entries in use, doubling a full array, and order is kept |
| DataflowReach.FrontierReaches | HW3/dflow_calc.cpp:119-155 | every instruction is reachable from some entry of the frontier |
| DataflowReach.SearchFindsLatest | HW3/dflow_calc.cpp:54-92 | the recursive search from the frontier finds the latest writer of a register, or none if there is none |
| DataflowReach.FindByIdxExact | HW3/dflow_calc.cpp:239-269 | lookup succeeds for exactly the indices of created instructions |
| DataflowTheorems.AnalyzeIsFaithful | HW3/dflow_calc.cpp:196-237 | every node has the attributes of its instruction, its last writers as dependencies, its depth, and the frontier and maximum depth are exact |
| DataflowTheorems.DepsAreLastWriters | HW3/dflow_calc.cpp:328-363 | the encoded and decoded dependencies are the latest earlier writers, -1 if none; other indices are rejected |
| DataflowTheorems.NoChainExceedsDepth | HW3/dflow_calc.cpp:94-114 | no dependency chain into an instruction has a larger latency than its depth |
| DataflowTheorems.SomeChainAttainsDepth | HW3/dflow_calc.cpp:94-114 | some dependency chain into an instruction has exactly its depth as latency |
| DataflowTheorems.DepthIsLongestChain | HW3/dflow_calc.cpp:320-326 | the reported depth is the maximum latency over all chains into the instruction, -1 for a bad index |
| DataflowTheorems.ProgDepthIsLongestChain | HW3/dflow_calc.cpp:365-368 | the program depth is the maximum latency over all chains of the program |
| DataflowTheorems.ProgDepthOnFrontier | HW3/dflow_calc.cpp:116-117 | the program depth is reached by an instruction of the frontier |
| DataflowTheorems.FrontierIsUnread | HW3/dflow_calc.cpp:119-155 | the exit node's slots are a gap-free, ordered list of exactly the instructions no later one reads |
| DataflowTheorems.NoRepeatUnlessOverrun | HW3/dflow_calc.cpp:119-155 | one add_inst keeps the frontier free of repetitions if and only if it empties no slot in the middle of a full array |
| DataflowTheorems.FrontierWithoutRepeats | HW3/dflow_calc.cpp:119-170 | if that never happens, analyzeProg returns and the frontier lists each instruction once in increasing order |
| DataflowTheorems.AddInstHangsExactly | HW3/dflow_calc.cpp:119-146 | add_inst fails to return if and only if the slot array is full and holds two dependencies, one in its last slot |
| DataflowTheorems.ShortTracesFit | HW3/dflow_calc.cpp:209-234 | a trace no longer than the initial array always finishes, without growing it |
| DataflowTheorems.FullFrontierHangs | HW3/dflow_calc.cpp:119-146 | for every initial capacity of two or more, a trace on which analyzeProg does not return |
| DataflowTheorems.ShippedCapacityHangs | HW3/dflow_calc.cpp:11-11 | such a trace for the capacity the program starts with |
| DataflowCollect.RoomForMissing | HW3/dflow_calc.cpp:285-288 | while a node is missing from the set there is a free slot, so the write is in range |
| DataflowCollect.CollectsEachNodeOnce | HW3/dflow_calc.cpp:294-318 | the collected nodes are all created instructions, each exactly once |
| DataflowTermination.FullArrayJamsExactly | HW3/dflow_calc.cpp:119-146 | in a full array the loop jams if and only if the dependencies are the latest instruction and an earlier one not read so far |
| DataflowTermination.AnalyzeHangsExactly | HW3/dflow_calc.cpp:209-234 | analyzeProg fails to return if and only if some prefix fills the array and the next instruction reads the one before it and another one not read so far |
| DflowCalc.DepTree.constructor | HW3/dflow_calc.cpp:198-216 | the empty tree: the entry node in slot 0, the other slots empty |
| DflowCalc.DepTree.FindNode | HW3/dflow_calc.cpp:54-72 | the search over references returns the node the search over indices names |
| DflowCalc.DepTree.SearchExit | HW3/dflow_calc.cpp:81-92 | the search loop returns the best match of each register over all slots in use |
| DflowCalc.DepTree.ShiftDown | HW3/dflow_calc.cpp:125-129 | the slots behind an emptied one move down, the last keeping its value |
| DflowCalc.DepTree.DisconnectAt | HW3/dflow_calc.cpp:124-145 | one pass of the loop body, exit included, is one iteration of the loop model |
| DflowCalc.DepTree.Disconnect | HW3/dflow_calc.cpp:119-146 | if the loop exits at all, the array holds what the iterated model leaves |
| DflowCalc.DepTree.Resolve | HW3/dflow_calc.cpp:94-114 | the new node's dependencies and depth are the model's |
| DflowCalc.DepTree.Append | HW3/dflow_calc.cpp:148-170 | the node is stored in the first empty slot or behind a full array's contents in one twice as long |
| DflowCalc.DepTree.AddInst | HW3/dflow_calc.cpp:74-171 | the linked structure stays consistent and stands for the model's next tree |
| DflowCalc.AnalyzeProg | HW3/dflow_calc.cpp:196-237 | the built structure stands for the model's tree of the whole trace |
| DflowCalc.DepTree.FindByIdxNode | HW3/dflow_calc.cpp:239-257 | the recursive lookup returns the node the model's lookup names |
| DflowCalc.DepTree.FindByIdx | HW3/dflow_calc.cpp:259-269 | the lookup over all slots does too |
| DflowCalc.DepTree.GetInstDepth | HW3/dflow_calc.cpp:320-326 | the depth query on the linked structure |
| DflowCalc.DepTree.GetInstDeps | HW3/dflow_calc.cpp:328-363 | the dependency query on the linked structure, return code included |
| DflowCalc.DepTree.GetProgDepth | HW3/dflow_calc.cpp:365-368 | the maintained maximum depth |
| DflowCalc.DepTree.ExistsInSet | HW3/dflow_calc.cpp:271-279 | true if and only if the index is among the nodes collected so far |
| DflowCalc.DepTree.AddToNodeSet | HW3/dflow_calc.cpp:281-292 | extends the collected nodes as the model does, within the array, behind them only nulls |
| DflowCalc.DepTree.FreeProgCtx | HW3/dflow_calc.cpp:294-318 | the nodes freed, in order, are those the model collects |
| CoreInstructions.DataIndexIs | HW4/sim_api.c:253-263 | which byte addresses access word w of the data array: the four from dataStart + 4w on, and for word 0 also the three before |
| CoreInstructions.RegistersAfter | HW4/core_api.cpp:46-86 | ADD, SUB, ADDI and SUBI are congruent modulo 2^32 to sum or difference and fit an int, LOAD takes the addressed word, no other register changes |
| CoreInstructions.MemoryAfter | HW4/core_api.cpp:87-98 | STORE changes exactly the addressed word, to the source register; no other opcode writes memory |
| CoreInstructions.AddCommutes | HW4/core_api.cpp:55-58 | ADD does not depend on the order of its sources |
| CoreInstructions.SubUndoesAdd | HW4/core_api.cpp:55-63 | SUB of the same source undoes ADD, on overflow too |
| CoreInstructions.SubiUndoesAddi | HW4/core_api.cpp:65-73 | SUBI undoes ADDI |
| CoreInstructions.LoadAfterStore | HW4/core_api.cpp:75-98 | a LOAD from the address of a STORE returns the stored value, and no other word has changed |
| CoreInstructions.SoloInt32 | HW4/core_api.cpp:46-103 | from 32-bit words every register and word of a run stays one |
| CoreInstructions.FirstImmediate | HW4/core_api.cpp:27-34 | registers start at zero: a first ADDI leaves its immediate |
| CoreModel.FirstEligible | HW4/core_api.cpp:174-184 | the first live ready thread in cyclic order, none before it being live and ready |
| CoreModel.SwitchIs | HW4/core_api.cpp:167-186 | the switch ends at a live ready thread, or reports idle because there is none |
| CoreIndependence.SameEffect | HW4/core_api.cpp:46-103 | an instruction does the same in two memories that agree on the word it accesses |
| CoreIndependence.RunAgrees | HW4/core_api.cpp:204-233 | in every state of every run each thread is where its solo run is and sees the memory that run sees |
| CoreIndependence.ScheduleIndependence | HW4/core_api.cpp:204-233 | independent threads end with the registers and the stored words of their solo runs, other words untouched |
| CoreIndependence.SchedulersAgree | HW4/core_api.cpp:204-246 | blocked and fine-grained multithreading end with equal registers and equal memory |
| CoreIndependence.SoloEnds | HW4/core_api.cpp:36-44 | a solo run executes up to its first HALT, counting it, and then stays |
| CoreIndependence.RunInBounds | HW4/sim_api.c:253-263 | if the solo runs access only words of the data array, so does every interleaving |
| CoreCycles.WorkConserving | HW4/core_api.cpp:204-233 | while the run lasts the core idles if and only if no live thread is ready |
| CoreCycles.IssueSpacing | HW4/core_api.cpp:36-44 | two issues of a thread are at least one cycle apart, plus the load latency after a LOAD and the store latency after a STORE |
| CoreCycles.CycleAccounting | HW4/core_api.cpp:204-233 | cycles are issues plus idle cycles, plus penalty times switches in blocked mode |
| CoreCycles.BusyBound | HW4/core_api.cpp:204-233 | issues, idle cycles and remaining work never exceed the total work; every iteration is an issue or idle |
| CoreCycles.RunTerminates | HW4/core_api.cpp:206-213 | both loops end within as many iterations as all programs together need cycles |
| CoreCycles.CyclesAtLeastAlone | HW4/core_api.cpp:204-233 | a finished run took at least one cycle for each instruction of any one program, plus the load latency for each LOAD and the store latency for each STORE |
| CoreCycles.WorkIs | HW4/core_api.cpp:158-165 | the work of a program is its instructions plus the load and store latency for each LOAD and STORE |
| CoreCycles.TotalWorkIs | HW4/core_api.cpp:158-165 | the same for all programs together, the bound of BusyBound and RunTerminates |
| CoreCycles.SingleThreadCycles | HW4/core_api.cpp:204-233 | in either mode a single thread takes exactly that many cycles |
| CoreCycles.RoundRobinOrder | HW4/core_api.cpp:204-214 | with zero latencies fine-grained mode issues from thread 0, 1, 2, ... in turn, one instruction a cycle, until a thread halts |
| CoreCycles.IssuedIsExecuted | HW4/core_api.cpp:207-210 | N_instructions is the number of instructions the threads have executed |
| CoreCycles.SameInstructionCount | HW4/core_api.cpp:204-233 | both modes issue the same number of instructions |
| CoreCycles.RoundRobinFair | HW4/core_api.cpp:204-214 | in fine-grained mode a ready live thread issues after at most N - 1 issues of other threads |
| CoreCycles.SwitchRule | HW4/core_api.cpp:167-233 | blocked mode keeps a thread that can go on and stays through instructions that are no event; every switch goes to the nearest thread that can run |
| ThreadHandler.ThreadContext.Execute | HW4/core_api.cpp:46-103 | the registers, memory word and halt flag after each opcode |
| ThreadHandler.ThreadContext.ExecuteInst | HW4/core_api.cpp:36-44 | the thread after fetching and executing one instruction, and whether it is an event |
| ThreadHandler.Handler.constructor | HW4/core_api.cpp:131-140 | new threads at cycle 0, thread 0 current |
| ThreadHandler.Handler.AllHaltedNow | HW4/core_api.cpp:188-195 | true if and only if every thread has halted |
| ThreadHandler.Handler.SwitchThread | HW4/core_api.cpp:167-186 | the search loop picks the model's next thread and reports idle when there is none |
| ThreadHandler.Handler.IterateFinegrained | HW4/core_api.cpp:207-212 | one iteration of the fine-grained loop is one step |
| ThreadHandler.Handler.IterateBlocked | HW4/core_api.cpp:221-231 | one iteration of the blocked loop is one step, penalty included |
| ThreadHandler.Handler.RunFinegrained | HW4/core_api.cpp:204-214 | the loop ends, in a state reached by a run of steps with all threads halted |
| ThreadHandler.Handler.RunBlocked | HW4/core_api.cpp:216-233 | the same for the blocked loop |
| ThreadHandler.RunBoth | HW4/core_api.cpp:238-246 | both simulations of independent threads from one image return the registers of the solo runs and equal memories |
| Bits.GetBitsBits | HW2/Cache.cpp:19-25 | bit i of an extracted field is bit start + i of the number, and bits past its width are clear |
| Bits.XorBits | HW1/CompArch-hw1/bp.cpp:195-199 | exclusive or, bit by bit |
| Bits.I32Is | HW4/core_api.cpp:55-73 | the conversion to int keeps the value modulo 2^32, and int values themselves |
| CacheModel.SplitIs | HW2/Cache.cpp:19-25 | set and tag of an address are remainder and quotient of its block number |
| CacheModel.AddressSplit | HW2/Cache.cpp:19-25 | an address is, from the lowest bits up, the offset in its block, its set and its tag |
| CacheModel.GeometriesAgree | HW2/Cache.cpp:54-70 | caches with one block size agree on when two addresses share set and tag: exactly when they share the block |
| CacheTraces.GeometryIs | HW2/Cache.cpp:54-66 | the computed set width is the size less block and way bits, and sets times ways times block size is the cache size |
| CacheBlocks.SeekIs | HW2/Cache.cpp:68-99 | a lookup hits exactly the held blocks, keeps what is held, and dirties the block on a write hit |
| CacheBlocks.AddIs | HW2/Cache.cpp:101-120 | an insertion adds the block clean, drops only the reported victim, and reports that victim's dirtiness |
| CacheBlocks.RemoveBlockIs | HW2/Cache.cpp:122-133 | exactly the given block goes |
| CacheBlocks.MarkBlockIs | HW2/Cache.cpp:135-145 | only the given block's dirty bit changes |
| CacheSystem.PromoteFollows | HW2/cacheSim.cpp:63-73 | after an L1 miss that hits L2, inclusion holds and dirtiness in either level changes only by the write |
| CacheSystem.FillFollows | HW2/cacheSim.cpp:74-86 | the same for a miss in both levels, through back-invalidation and write-back |
| CacheSystem.HandleLineFollows | HW2/cacheSim.cpp:18-88 | one access keeps both caches well-formed and inclusive and tracks dirtiness exactly |
| CacheTraces.AlwaysValid | HW2/cacheSim.cpp:149-179 | after any trace sets have at most `ways` entries with distinct tags and own addresses, and L1 is within L2 |
| CacheTraces.DirtyIsWritten | HW2/cacheSim.cpp:18-88 | a block in L2 is dirty in L1 or L2 if and only if it was written since its last L2 fill |
| CacheDirty.DirtyAfter | HW2/cacheSim.cpp:18-88 | what an access does to the dirty bits of each level: kept with the block, set in L1 by a write it holds, handed to L2 when the block leaves L1, dropped in L2 when a write moves it up |
| CacheDirty.L1DirtyIsWritten | HW2/cacheSim.cpp:18-88 | over any trace, a block in L1 is dirty there if and only if it was written since it last entered L1 |
| CacheDirty.L2DirtyIsWritten | HW2/cacheSim.cpp:18-88 | a block in L2 is dirty there if and only if written data of it has reached L2 since its fill and no write has moved it up since |
| CacheDirty.WriteMissDirties | HW2/cacheSim.cpp:63-86 | a write miss that allocates leaves the block dirty in L1 and clean in L2 |
| CacheTraces.ContentsAfter | HW2/cacheSim.cpp:18-88 | exactly which blocks each level holds after an access: the accessed one if allocated, and all others but the victims, L2's victim leaving both levels |
| CacheTraces.WriteBackHits | HW2/cacheSim.cpp:35-49 | whatever block L1 drops, after an L2 hit or miss, its write-back finds it in the L2 that is looked up |
| CacheTraces.WriteBacksAlwaysHit | HW2/cacheSim.cpp:63-86 | so in every access of every trace |
| CacheTraces.AccessTimeIdentity | HW2/cacheSim.cpp:176-183 | L1 lookups are accesses, L2 lookups are L1 misses, and the summed time charges each level once per lookup |
| CacheRecency.HandleLineOrdered | HW2/cacheSim.cpp:18-88 | one access keeps L1 sets in order of last access and L2 sets in order of last touch |
| CacheRecency.AlwaysOrdered | HW2/Cache.cpp:73-120 | so does every trace |
| CacheRecency.VictimIsLeastRecent | HW2/Cache.cpp:112-117 | the popped entry of an ordered cache is the least recently touched block of its set |
| CacheRecency.VictimsAreLeastRecent | HW2/cacheSim.cpp:33-49 | over any trace, L2's victim is the least recently touched block of its set, and L1's the least recently accessed of those L2's victim leaves there |
| CacheStack.AccessStacked | HW2/Cache.cpp:68-120 | a set with fewer ways stays, tag by tag, a prefix of the set with more |
| CacheStack.LargerCacheKeepsMore | HW2/Cache.cpp:68-120 | over any accesses all sets stay prefixes and the larger cache has at least as many hits |
| CacheStack.MoreWaysMoreHits | HW2/Cache.cpp:68-120 | from empty caches, adding ways never loses a hit |
| CacheSim.CacheObject.constructor | HW2/Cache.cpp:54-66 | an empty cache of the computed geometry |
| CacheSim.CacheObject.Find | HW2/Cache.cpp:73-75 | the scan stops at the first entry with the tag |
| CacheSim.CacheObject.Seek | HW2/Cache.cpp:68-99 | the whole new cache and the result of a lookup |
| CacheSim.CacheObject.AddAddress | HW2/Cache.cpp:101-120 | the whole new cache, the victim and its dirtiness |
| CacheSim.CacheObject.Remove | HW2/Cache.cpp:122-133 | the whole new cache after an invalidation |
| CacheSim.CacheObject.MarkDirty | HW2/Cache.cpp:135-145 | the whole new cache after setting a dirty bit |
| CacheSim.HandleRead | HW2/cacheSim.cpp:23-50 | the read branch leaves both caches and the time as one access of the protocol |
| CacheSim.HandleWrite | HW2/cacheSim.cpp:51-86 | the write branch does too, with and without write-allocate |
| CacheSim.HandleLine | HW2/cacheSim.cpp:18-88 | both branches refine one protocol that depends on the kind of access only where blocks become dirty or are allocated |
| CacheSim.RunTrace | HW2/cacheSim.cpp:146-179 | the loop runs the trace step by step and sums the access times |
| PredictorModel.SelectFits | HW1/CompArch-hw1/bp.cpp:190-199 | the selected counter index is within the table |
| PredictorModel.SelectBits | HW1/CompArch-hw1/bp.cpp:134-143 | bit i of the counter index is bit i of the history, flipped when sharing if bit 2 + i, or 16 + i, of the branch's address is set |
| PredictorModel.SharesEntry | HW1/CompArch-hw1/bp.cpp:115-122 | two branches share entry and tag if and only if their word addresses agree in the bits index and tag take together |
| PredictorHistory.ShiftInIs | HW1/CompArch-hw1/bp.cpp:221-235 | shifting and masking keeps exactly the last outcomes |
| PredictorHistory.LastOutcomesBits | HW1/CompArch-hw1/bp.cpp:221-235 | bit i of a history register is the outcome i before the last |
| PredictorHistory.RowOfOutcomes | HW1/CompArch-hw1/bp.cpp:206-219 | a row of equal outcomes moves a counter one state each, up to its end |
| PredictorHistory.NoneSince | HW1/CompArch-hw1/bp.cpp:172-179 | after an update with another tag no earlier update at the index counts |
| PredictorRefinement.AdvanceRefines | HW1/CompArch-hw1/bp.cpp:160-239 | one update keeps every register, counter, tag, target and statistic equal to the reference; flushes are the branches that went elsewhere than predicted |
| PredictorRefinement.RunRefines | HW1/CompArch-hw1/bp.cpp:160-239 | so does every sequence of updates, in every configuration |
| PredictorRefinement.PredictsFromHistory | HW1/CompArch-hw1/bp.cpp:115-158 | the prediction is the reference's, a function of the updates alone |
| PredictorRefinement.ColdPrediction | HW1/CompArch-hw1/bp.cpp:116-157 | an entry no branch has updated predicts target 0 for tag 0 if the counter selected is on the taken side, else pc + 4 |
| PredictorRefinement.ColdLocalPrediction | HW1/CompArch-hw1/bp.cpp:75-90 | with local tables that counter is in the configured initial state |
| PredictorMisses.MissesBalance | HW1/CompArch-hw1/bp.cpp:206-219 | the misses of a counter, against each outcome's count and the counter's two ends |
| PredictorMisses.DisagreementsAreMisses | HW1/CompArch-hw1/bp.cpp:160-219 | the updates of a run at which a counter of the predictor pointed the wrong way are the misses of a counter fed the outcomes which trained it |
| PredictorMisses.TrainingsAreOutcomes | HW1/CompArch-hw1/bp.cpp:160-219 | the updates of a run that train a counter are the outcomes the reference selects for it |
| PredictorMisses.MispredictionBound | HW1/CompArch-hw1/bp.cpp:145-219 | over the lifetime of any counter of the predictor its wrong directions number at most twice the rarer outcome, plus two |
| PredictorMisses.BoundAttained | HW1/CompArch-hw1/bp.cpp:206-219 | for every number of taken outcomes some sequence attains the bound |
| PredictorMisses.RunAttainsBound | HW1/CompArch-hw1/bp.cpp:181-219 | so does a run of a predictor with a shared global table |
| BranchPredictor.PredictorObject.constructor | HW1/CompArch-hw1/bp.cpp:71-104 | tables of the configured kind and size in their initial state |
| BranchPredictor.PredictorObject.Predict | HW1/CompArch-hw1/bp.cpp:115-158 | the prediction from the tables |
| BranchPredictor.PredictorObject.Claim | HW1/CompArch-hw1/bp.cpp:166-179 | an entry whose tag changes starts its local history and counters afresh |
| BranchPredictor.PredictorObject.Train | HW1/CompArch-hw1/bp.cpp:209-219 | only the selected counter changes, by one saturating step |
| BranchPredictor.PredictorObject.ShiftHistory | HW1/CompArch-hw1/bp.cpp:221-235 | only the history register in use changes |
| BranchPredictor.PredictorObject.Update | HW1/CompArch-hw1/bp.cpp:160-239 | the whole new predictor after an update |

## Left out

- Parsing of traces, memory images and arguments, and all printing: operations, instructions and programs are already parsed values.
- Miss rates, average access time and CPI as floating-point quotients: the identities are stated over integers; `pow`, `log2` and `fmax` are integer functions.
- malloc, free and pointer ownership: freeing is the order in which nodes are collected; growing the slot array allocates a new one.
- `Thread_Handler::thread_free` and `Cache::is_dirty`, which nothing calls, the register copying of the context functions, and the size formulas of `get_stats`.
- Main memory contents in HW2: the code does not model them, and the victim's dirtiness returned by an L2 insertion is unused there too.
- DflowCalc.DepTree.Disconnect: requires that the loop exits, since a method that does not return has no result; when it does not exit is stated by DisconnectLoop.ExitsUnlessJammed.
- CoreModel.ReadWord: gives a value to reads outside the data array, which the source leaves undefined; the run methods require that none occurs.
- Register widths: a `tcontext` is a sequence of eight values inside its thread, copied by value as in the source, not an array of its own.

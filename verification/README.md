# A verified model of GPGPU-Sim's warp execution core

GPGPU-Sim executes the lanes of a warp in lockstep. A stack of (pc, lane mask, reconvergence pc) entries decides
which lanes run next; memory instructions are turned into as few memory requests as the hardware would issue. This
project models those two mechanisms, and four smaller ones, in Dafny and proves what they are for.

| files | subject |
|---|---|
| `SimtStack`, `SimtLanes`, `SimtRun`, `SimtDepth`, `SimtTermination` | the SIMT reconvergence stack and its driver |
| `PostDominance`, `CallFrames`, `Recursion` | why reconvergence at immediate post-dominators is right, calls included |
| `Walkers`, `EndPc`, `Callee`, `SimtRestart` | exactly where it is not |
| `PostDominators`, `BlockCode`, `Linking` | how post-dominators of basic blocks are computed, and the reconvergence tables of the instructions of one and of several functions |
| `Coalescing`, `PlainCoalescer`, `CoalescingTheorems`, `WarpTheorems`, `CoverageExact`, `StreamTheorems` | coalescing of plain global and local accesses |
| `AtomicCoalescer`, `AtomicTheorems`, `AtomicCoverage`, `AtomicStreams` | coalescing of atomics |
| `Footprint`, `SharedMemory`, `BankTheorems` | footprint counters and shared-memory bank conflicts |
| `Checkpoint`, `CheckpointText` | the text form of a SIMT stack |
| `Synchronize` | the simulation thread and `synchronize`, over all interleavings |
| `Sections` | pruning and merging of PTX sections |
| `AerialVision` | flattening and organizing of logged statistics |
| `Basics` | least elements, sizes and ascending enumerations of finite sets, sums |

Objects that the program updates in place are classes (`SimtStack.Stack`, `PlainCoalescer.WarpInst`,
`Sections.Runtime`), loops are loops, and every such method is proved against a function of its inputs or old state.
The theorems are about those functions. `dafny verify dfyconfig.toml` checks everything.

## Main results

* **Lockstep is sequential execution.** In every run from a launch, each lane fetches exactly the pcs it would fetch
  running alone and is in the state it would be in (`SimtRun.LockstepIsSequential`). One `update` preserves this if and
  only if a branch with a target at the top entry's reconvergence pc itself reconverges there, or, on a CALL entry, has a
  reconvergence pc, or sends off only lanes whose callers wait at the null pc (`SimtLanes.ReconvergenceExact`);
  `SimtLanes.LostLane` is an input on which it fails. When the reconvergence pcs are immediate post-dominators, that
  condition and all assertions of `update` hold in every reachable state, through calls, returns and recursion, and no
  finished lane is executed (`PostDominance.CfgRunSafe`); the warp runs until no lane is live, each lane in its own final
  state (`SimtTermination.RunWarp`).
* **Where that ends is known exactly.** A branch of the kernel that only its end post-dominates parks its entry at a pc
  that stands for the end. For every graph without calls and every start, no run of any program that follows the graph
  executes a finished lane while a lane is live, if and only if no such branch within reach leads to that pc
  (`EndPc.SafeExactly`). A function that calls no other can be called without any run of its kernel getting stuck or
  executing a finished lane, if and only if its branches reconverge inside and it returns without a condition
  (`Callee.CallableExactly`).
* **The reconvergence table is right.** The fixed-point iteration over basic blocks ends with exactly the post-dominators
  (`PostDominators.FindPostdominators`), the pruning loop leaves exactly the immediate one of every block that can reach
  the exit, its assertion holds if and only if a stated condition on the graph does (`PostDominators.AssertionExact`), and
  the table made from it satisfies what the lockstep theorems ask of the instructions inside the blocks
  (`BlockCode.ReconvergencePairs`, `BlockCode.TableFollows`), also when several functions, each with its own table, call
  each other (`Linking.LinkedFollows`).
* **The stack is at most 2W - 1 deep**, plus one per outstanding call (`SimtDepth.DepthBound`), and for every W some run
  of a program with immediate post-dominators gets there (`SimtDepth.DepthBoundAttained`).
* **Every access that stays in its 32-byte chunk is covered by exactly one request** of the whole warp
  (`WarpTheorems.WarpCoverage`), and for every access of every warp it is known exactly when one request covers it
  (`CoverageExact.WarpCoverageIff`). Each request is the smallest aligned one for what was touched
  (`CoalescingTheorems.SmallestRequest`), its masks are exact, and lane order does not matter. A stream of consecutive
  data needs exactly the requests that its size and the configuration call for (`StreamTheorems.StreamRequests`,
  `StreamTheorems.SectorRequests`).
* **First fit of atomics is exact and optimal** (`AtomicTheorems.PlaceExact`, `AtomicTheorems.FirstFitOptimal`), and on
  different addresses it queues what plain accesses queue (`AtomicStreams.AtomicsAlike`).
* **A shared-memory access costs its largest clash**: with full broadcast a subwarp costs the largest number of its lanes
  any two of which are in different words of one bank (`BankTheorems.FullExact`).
* **Merged PTX files** hold the texts they should if and only if no text shorter than a header follows a longer one
  (`Sections.PruneThenMerge`).
* **Checkpoints round-trip if and only if** every divergence cycle fits an `int` (`Checkpoint.RoundTrip`).
* **`synchronize` is safe** under every interleaving (`Synchronize.SynchronizeSafe`), and a host that finds nothing left
  returns (`Synchronize.HostRound`).

## Preconditions

The assertions of `update` about its arguments (src/abstract_hardware_model.cc:1055-1069, 1103, 1125, 1137) are its
precondition `UpdateOk`, together with "a live lane has a next pc other than -1". Coalescing is modelled for data sizes
1, 2, 4, 8 and 16, for which the code sets a segment size. Tags are cut to 32 bits as the code cuts them; results that
need 32-bit addresses say so. A naturally aligned access stays in its 32-byte chunk (`Coalescing.AlignedInChunk`), and
results that only need the latter are stated with it.

In a kernel a branch whose immediate post-dominator is the exit gets the return pc of the outermost call frame as its
reconvergence pc, which is 0 (src/cuda-sim/ptx_sim.h:195-205, 415). The model has that pc as `beyond`. The theorems about
whole programs ask for `Safe`: no two-way branch within reach of the start that only the end post-dominates leads to
`beyond` in one or more steps. Of functions that are called they ask `CallsOk`: a call has one successor, the branches of
the function reconverge inside it, and its returns have no condition; lanes finish in the kernel only. The two iff
theorems above say why. An instruction that ends a kernel may be a `ret`, and only two-way branches need a reconvergence
pc. The hypotheses are met: `SimtDepth.DepthBoundAttained` gives, for every warp width, a program that follows its graph
and a run of it, `EndPc.WalkingFollows` a program for every graph without calls, and `Recursion.RecursionFollows` one with
a recursive function.

Where the code does less than it is meant to, the model follows the code:

* The crossing branch of plain coalescing (src/abstract_hardware_model.cc:571-582) is meant for accesses that span two
  segments. Such an access is never covered by one request, and one that spans two chunks of a segment is covered only if
  another mark in the segment widens the request (`CoverageExact.CoverageIff`, `CoverageExact.SpilledAccessLost`,
  `CoverageExact.SpilledAccessHelped`).
* `resume` reads a 64-bit cycle with `atoi` (src/abstract_hardware_model.cc:982), which changes cycles that do not fit an
  `int` (`Checkpoint.CycleSurvives`, `Checkpoint.LateEntryLost`).
* A PTX text shorter than 50 characters swallows text that it inherited (`Sections.ShortTextLoses`).
* The assertion of `find_ipostdominators` fails on functions with exactly one block that cannot reach the exit whose other
  blocks are not ordered by post-dominance (`PostDominators.Undecided`).
* In the function that is assembled first, pc 0 is the first instruction. A branch within reach that only the end
  post-dominates and that can lead there makes some run execute a finished lane (`EndPc.UnsafeFails`); without such a
  branch none does. `SimtRestart.FinishedLaneFetched` is one such run.
* A function without calls in which lanes can return at different `ret` instructions or under a condition makes a run
  execute finished lanes or fail an assertion when two lanes of three call it (`Callee.UncallableFails`).

## Model

| member | source | states |
|---|---|---|
| `SimtStack.ExtractGroup` | src/abstract_hardware_model.cc:1074-1093 | one round takes out exactly the live lanes that share one next pc, drops finished lanes, and always shrinks the mask; it yields no pc only when all lanes are done |
| `SimtStack.ExtractPaths` | src/abstract_hardware_model.cc:1072-1100 | the extraction loop ends with exactly the partition of the live lanes by next pc, each key once, and a counter equal to the number of distinct next pcs |
| `SimtStack.Stack.constructor` | src/abstract_hardware_model.cc:936-943 | a new stack is empty |
| `SimtStack.Stack.Launch` | src/abstract_hardware_model.cc:945-953 | one entry with the launch mask, call depth 1 and no reconvergence pc, whatever was there before |
| `SimtStack.Stack.PlacePath` | src/abstract_hardware_model.cc:1152-1186 | one path overwrites the slot, turns the top into a reconvergence entry, or is discarded, as the step function of the stack says |
| `SimtStack.Stack.CallOrReturn` | src/abstract_hardware_model.cc:1121-1150 | a call pushes a CALL entry and leaves the rest; a return drops the CALL entry and moves or pops the caller; anything else leaves the stack alone |
| `SimtStack.Stack.HandlePaths` | src/abstract_hardware_model.cc:1102-1187 | the path loop handles fall-through first and then ascending pcs, so the assertion that fall-through is path 0 never fails; ends early exactly for calls and returns. Which pc falls through is in `SimtStack.SplitOrder` |
| `SimtStack.TwoPlaced` | src/abstract_hardware_model.cc:1152-1189 | the slot-by-slot handling of two paths leaves exactly the entries of the closed form of divergence |
| `SimtStack.PlacedIsUpdated` | src/abstract_hardware_model.cc:1102-1190 | the path loop and the final pop compute the closed-form update, for every number of paths |
| `SimtStack.SplitOrder` | src/abstract_hardware_model.cc:1102-1119 | of the two sides of a branch the one that does not fall through is on top and the one at pc + size right below it, whichever pc is smaller; if neither falls through, the larger pc is on top; below them the entry waits at the reconvergence pc |
| `SimtStack.Stack.Update` | src/abstract_hardware_model.cc:1052-1195 | the in-place update refines the closed-form specification: empty, call, return, uniform, reconverging and diverging cases, of which `SimtStack.SplitOrder` says which side runs first |
| `SimtLanes.OwnerIndex` | src/abstract_hardware_model.cc:993-1007 | the owner of a lane is the topmost entry whose mask holds it |
| `SimtLanes.OtherLane` | src/abstract_hardware_model.cc:1102-1190 | an update leaves every live lane outside the top mask owned at its old pc |
| `SimtLanes.CallingLane` | src/abstract_hardware_model.cc:1121-1150 | a lane that calls or returns is owned at its next pc |
| `SimtLanes.UniformLane` | src/abstract_hardware_model.cc:1155-1190 | a lane of a warp that stays together is owned at its next pc, also when its entry is popped at reconvergence |
| `SimtLanes.DivergedLane` | src/abstract_hardware_model.cc:1155-1189 | a lane of a splitting entry, normal or CALL, is owned at its next pc if and only if a stated condition on the branch and the entry holds |
| `SimtLanes.DivergingLane` | src/abstract_hardware_model.cc:1102-1190 | the same for the whole update |
| `SimtLanes.ReconvergenceExact` | src/abstract_hardware_model.cc:1155-1178 | all lanes of a splitting warp stay owned at their own pc if and only if the reconvergence condition on the branch holds, or, on a CALL entry, the callers of the lanes that leave it wait at the null pc |
| `SimtLanes.LostLane` | src/abstract_hardware_model.cc:1155-1178 | a concrete stack and branch for which a lane ends up owned at a pc that is not its own |
| `SimtLanes.UpdateKeepsLane` | src/abstract_hardware_model.cc:1052-1195 | one update keeps every live lane owned at its own pc with nested reconvergence pcs |
| `SimtRun.UpdateKeepsMasks` | src/abstract_hardware_model.cc:1102-1190 | no entry ever has an empty mask or a lane that was not launched |
| `SimtRun.UpdateKeepsCalls` | src/abstract_hardware_model.cc:1121-1190 | a CALL entry keeps sitting on a caller with the same live lanes |
| `SimtRun.StepKeepsInv` | src/abstract_hardware_model.cc:1197-1240 | fetch, execute and update keep the run invariant |
| `SimtRun.RunInv` | src/abstract_hardware_model.cc:1197-1240 | the invariant holds in every state of every run |
| `SimtRun.OwnersAtLanePc` | src/abstract_hardware_model.cc:1215-1240 | in every state of every run the topmost entry that holds a live lane is at that lane's own pc |
| `SimtRun.LaneMoves` | src/abstract_hardware_model.cc:1197-1208 | a step is one own step for the lanes that run and nothing for the others |
| `SimtRun.LockstepIsSequential` | src/abstract_hardware_model.cc:1197-1240 | projected on any lane, a lockstep run is that lane's sequential run: same fetches, same state |
| `SimtRun.EmptyMeansDone` | src/abstract_hardware_model.cc:1178-1190 | the stack is empty only when every launched lane is done |
| `PostDominance.StrictAtSuccessor` | src/cuda-sim/ptx_ir.cc:732-737 | a strict post-dominator of a pc is a successor or strictly post-dominates it |
| `PostDominance.NoMutualPostDom` | src/cuda-sim/ptx_ir.cc:746-789 | two pcs from which the program can end never post-dominate each other |
| `PostDominance.SuccessorIsReconvergence` | src/cuda-sim/cuda-sim.cc:2795-2818 | a successor that strictly post-dominates a branch is the branch's reconvergence pc |
| `CallFrames.CallingFrame` | src/abstract_hardware_model.cc:1121-1150 | a call gives a lane the outstanding calls of the entry it makes, and a return takes the last one back |
| `CallFrames.UpdateKeepsFrame` | src/abstract_hardware_model.cc:1102-1190 | one update keeps every live lane in an entry that has exactly the lane's own outstanding calls below it |
| `PostDominance.ExitLeavesNoTrace` | src/cuda-sim/cuda-sim.cc:1696-1715 | a lane finishes only where no lower entry holds it but the one parked at the end pc, so no finished lane is executed while a lane is live |
| `PostDominance.UpdatedEntries` | src/abstract_hardware_model.cc:1121-1190 | an update, calls and returns included, leaves every entry of the kernel with no reconvergence pc, the end pc, or one that strictly post-dominates its pc, and every entry of a called function but its CALL entry with one that strictly post-dominates its pc there; only the bottom entry can wait at the end pc |
| `PostDominance.CfgStepOk` | src/abstract_hardware_model.cc:1055-1069 | with immediate post-dominators as reconvergence pcs, the assertions of `update` and the reconvergence condition hold, also for calls and returns |
| `PostDominance.CfgStepKeepsInv` | src/abstract_hardware_model.cc:1102-1190 | and they go on holding after the step, unless a branch that only the end post-dominates leads to the end pc |
| `PostDominance.CfgRunSafe` | src/abstract_hardware_model.cc:1121-1190 | in every state of every run in which a lane is live, no assertion of `update` fails, the reconvergence condition holds and no finished lane is in the executed mask |
| `PostDominance.KernelLanes` | src/abstract_hardware_model.cc:1224-1225 | while the kernel executes no live lane has an outstanding call, so the return pc taken from the first live lane is the kernel's |
| `PostDominance.StackWhenDone` | src/cuda-sim/cuda-sim.cc:2629-2643 | when all lanes are done the stack is empty but for one entry at the end pc |
| `Recursion.RecursionFollows` | src/cuda-sim/instructions.cc:2209-2215 | a program with a recursive function, in which every lane recurses as deep as it likes, meets the hypotheses of the theorems on runs |
| `EndPc.ReconvergenceExists` | src/cuda-sim/ptx_ir.cc:746-789 | every pc has a reconvergence pc: its immediate post-dominator, or the end pc |
| `EndPc.WalkingFollows` | src/cuda-sim/cuda-sim.cc:2795-2818 | for every graph without calls there is a program that follows it and in which every lane takes any way out |
| `Walkers.PlayOut` | src/abstract_hardware_model.cc:1152-1190 | a side of a branch runs on until its lanes finish, or wait at the reconvergence pc if their way out leads through it; no other lane moves |
| `Walkers.ParkingStep` | src/abstract_hardware_model.cc:1160-1190 | a branch with no reconvergence pc but the end pc parks its entry there, with all its lanes, under one entry for each side that does not lead straight there |
| `EndPc.SafeIsClean` | src/abstract_hardware_model.cc:1152-1190 | in a graph without calls in which no branch within reach that only the end post-dominates leads to the end pc, no run of any program executes a finished lane while a lane is live |
| `EndPc.UnsafeFails` | src/abstract_hardware_model.cc:1160-1190 | in every other graph without calls some run does |
| `EndPc.SafeExactly` | src/cuda-sim/ptx_sim.h:195-205 | the iff, for every graph without calls and every start |
| `Callee.CallableIsHealthy` | src/abstract_hardware_model.cc:1121-1190 | with a function whose branches reconverge inside and which returns without a condition, no run gets stuck or executes a finished lane |
| `Callee.ReturnStuck` | src/abstract_hardware_model.cc:1134-1138 | a return that only one of two lanes takes fails an assertion of `update` |
| `Callee.BothReturn` | src/abstract_hardware_model.cc:1152-1190 | lanes that return on different ways leave the CALL entry at the return pc instead of resuming the caller |
| `Callee.FinishInside` | src/abstract_hardware_model.cc:1178-1190 | when they finish there, their caller is executed again while another lane is live |
| `Callee.UncallableFails` | src/abstract_hardware_model.cc:1121-1190 | every other function makes some run get stuck or execute a finished lane |
| `Callee.CallableExactly` | src/cuda-sim/cuda-sim.cc:2788-2793 | the iff, for every function without calls |
| `SimtRestart.FinishedLaneFetched` | src/cuda-sim/cuda-sim.cc:285-292 | a run, with a branch that nothing post-dominates leading to pc 0, whose top entry holds a finished and a live lane |
| `PostDominators.Intersect` | src/cuda-sim/ptx_ir.cc:732-737 | the successor loop computes the data-flow equation of a block |
| `PostDominators.Sweep` | src/cuda-sim/ptx_ir.cc:730-743 | a sweep keeps all post-dominators in the sets; it makes them smaller in all, or reports no change and the equations hold |
| `PostDominators.FindPostdominators` | src/cuda-sim/ptx_ir.cc:709-744 | the iteration ends, and the set of every block is exactly the blocks on all its paths to the exit |
| `PostDominators.PostDomsOrdered` | src/cuda-sim/ptx_ir.cc:780-783 | of two post-dominators of a block that can reach the exit, one post-dominates the other |
| `PostDominators.EraseBehind` | src/cuda-sim/ptx_ir.cc:764-777 | the inner loop erases exactly the other post-dominators of the block it visits |
| `PostDominators.Erase` | src/cuda-sim/ptx_ir.cc:758-779 | for any set of blocks, what is left is blocks none of which is behind another, and everything erased is behind one of them |
| `PostDominators.FindIpostdominators` | src/cuda-sim/ptx_ir.cc:746-779 | every block but the exit is left with such a front of its strict post-dominators, the exit with nothing, on every graph |
| `PostDominators.AssertionExact` | src/cuda-sim/ptx_ir.cc:780-792 | something is left for every block but the exit, and at most one block if and only if the block can reach the exit, or another one cannot either, or all other blocks are ordered by post-dominance |
| `PostDominators.FrontIsImmediate` | src/cuda-sim/ptx_ir.cc:784-789 | what is left for a block that can reach the exit is exactly its immediate post-dominator |
| `PostDominators.Undecided` | src/cuda-sim/ptx_ir.cc:780-783 | a function of five blocks, laid out as the code lays blocks out, on which the assertion fails |
| `BlockCode.PathIsExpand` | src/cuda-sim/ptx_ir.cc:503-554 | every way out through the instructions is the expansion of a way out through the blocks |
| `BlockCode.LowerPostDom` | src/cuda-sim/ptx_ir.cc:909-945 | what strictly post-dominates the last instruction of a block lies in another block that post-dominates it |
| `BlockCode.LiftPostDom` | src/cuda-sim/ptx_ir.cc:909-945 | every instruction of a post-dominating block post-dominates every instruction of the block |
| `BlockCode.TargetIsReconvergence` | src/cuda-sim/ptx_ir.cc:929-939 | the first instruction of the immediate post-dominator, or the end pc for the exit, is the reconvergence pc of the last instruction of the block |
| `BlockCode.CheckSizes` | src/cuda-sim/ptx_ir.cc:780-783 | the assertion loop passes if and only if every block meets the condition |
| `BlockCode.ReconvergencePairs` | src/cuda-sim/ptx_ir.cc:909-945 | a table results if and only if every block meets the condition, and it is right for every block that can reach the exit |
| `BlockCode.TableRight` | src/cuda-sim/cuda-sim.cc:2803-2816 | every instruction with two successors gets its right reconvergence pc from the table; the others may have none |
| `BlockCode.TableFollows` | src/cuda-sim/cuda-sim.cc:2795-2818 | a call-free program whose lanes move along the instructions and whose two-way branches use the table satisfies the hypothesis of the lockstep theorems |
| `Linking.SameReconvergence` | src/cuda-sim/cuda-sim.cc:2795-2802 | a branch reconverges in the whole program where it does in its own function |
| `Linking.LinkedFollows` | src/cuda-sim/cuda-sim.cc:2795-2818 | a program of several functions that call each other, each with a table of its own, satisfies that hypothesis |
| `SimtDepth.UpdateKeepsShallow` | src/abstract_hardware_model.cc:1127-1190 | index plus twice the mask size never exceeds twice the width plus the calls below |
| `SimtDepth.DepthBound` | src/abstract_hardware_model.cc:1127-1190 | at most 2W - 1 entries plus one per outstanding call, in every run |
| `SimtDepth.PeelReconverges` | src/abstract_hardware_model.cc:1160-1190 | in a program of nested ifs, each branch reconverges at its immediate post-dominator |
| `SimtDepth.PeelOnce` | src/abstract_hardware_model.cc:1160-1190 | its branch that peels off one lane makes the stack two entries deeper |
| `SimtDepth.DepthBoundAttained` | src/abstract_hardware_model.cc:1160-1190 | for every width from 1 to 32 a call-free run of a program that follows its control-flow graph reaches exactly 2W - 1 entries |
| `SimtDepth.CallFrame` | src/abstract_hardware_model.cc:1122-1150 | between a call and its return every entry below the CALL entry is unchanged |
| `SimtDepth.ReturnToCaller` | src/abstract_hardware_model.cc:1134-1150 | the return leaves the caller at the return pc, or pops it exactly when that is its reconvergence pc; its live lanes are owned at the return pc either way |
| `SimtTermination.StepDrops` | src/abstract_hardware_model.cc:1073-1100 | (sum of the lanes' remaining instructions, stack depth) drops lexicographically at each update |
| `SimtTermination.StepWarp` | src/cuda-sim/cuda-sim.cc:2562-2643 | one driver round on the mutable stack is one step of the run |
| `SimtTermination.RunWarp` | src/cuda-sim/cuda-sim.cc:2562-2643 | a warp whose lanes halt on their own, calls included, runs until no lane is live, each launched lane in its own final state, all other lanes untouched, and at most an entry at the end pc on the stack |
| `Coalescing.TagExact` | src/abstract_hardware_model.cc:209-213 | the tag is aligned, and is the start of the block of the address if and only if the address has 32 bits |
| `Coalescing.CrossesExactly` | src/abstract_hardware_model.cc:571-573 | for every address the crossing test is true if and only if the access reaches past its segment |
| `Coalescing.AlignedInside` | src/abstract_hardware_model.cc:551-573 | a naturally aligned access stays inside its segment, its chunk and its line |
| `Coalescing.AlignedApart` | src/abstract_hardware_model.cc:652-683 | aligned accesses of one size in one segment share a byte only if they are equal |
| `Coalescing.SetBytes` | src/abstract_hardware_model.cc:564-566 | the marking loop adds exactly the bytes of the access that lie in the line |
| `Coalescing.Reduce` | src/abstract_hardware_model.cc:704-755 | the request serves all touched chunks, lies in the segment, and every other aligned request that serves them is larger; the assertions never fail |
| `Coalescing.ReducedIsLeast` | src/abstract_hardware_model.cc:704-755 | the same of the closed form |
| `PlainCoalescer.MarkAccess` | src/abstract_hardware_model.cc:551-582 | an access marks the segment of its first byte, and that of its last byte if it is another |
| `PlainCoalescer.MarkLane` | src/abstract_hardware_model.cc:545-584 | a lane's addresses up to the first zero are marked |
| `PlainCoalescer.MarkSubwarp` | src/abstract_hardware_model.cc:523-585 | the transaction map of a subwarp is the fold of its active lanes' marks |
| `PlainCoalescer.SubwarpGathers` | src/abstract_hardware_model.cc:523-585 | the map holds, for every touched segment and no other, exactly the chunks, bytes and lanes marked in it |
| `PlainCoalescer.IssuesExactly` | src/abstract_hardware_model.cc:545-549 | an active lane issues its addresses up to the first zero, and at most eight |
| `PlainCoalescer.AllSendable` | src/abstract_hardware_model.cc:704-745 | whatever the addresses, every transaction meets the assertions of the reduction |
| `PlainCoalescer.WarpInst.ReduceAndSend` | src/abstract_hardware_model.cc:704-758 | one reduced request with the transaction's masks goes to the end of the queue |
| `PlainCoalescer.WarpInst.SendAll` | src/abstract_hardware_model.cc:587-595 | one request per segment is queued, in ascending order |
| `PlainCoalescer.WarpInst.Coalesce` | src/abstract_hardware_model.cc:488-597 | the queue grows by the requests of each subwarp in turn, with the segment size that architecture and data size give, as `StreamTheorems` says in numbers |
| `CoalescingTheorems.RequestsApart` | src/abstract_hardware_model.cc:587-595 | requests of one subwarp are in ascending order and disjoint |
| `CoalescingTheorems.Coverage` | src/abstract_hardware_model.cc:523-596 | every access of an active lane has exactly one request of its subwarp with its lane bit and all its bytes |
| `CoalescingTheorems.OneTouch` | src/abstract_hardware_model.cc:571-582 | the crossing branch is unreachable for accesses that stay in a chunk |
| `CoalescingTheorems.ExactLanes` | src/abstract_hardware_model.cc:551-562 | a transaction exists and carries a lane if and only if that lane touches the segment |
| `CoalescingTheorems.ExactChunks` | src/abstract_hardware_model.cc:553-561 | the sector mask is exactly the touched chunks |
| `CoalescingTheorems.ExactBytes` | src/abstract_hardware_model.cc:563-566 | the byte mask is exactly the touched bytes modulo 128 |
| `CoalescingTheorems.SmallestRequest` | src/abstract_hardware_model.cc:704-757 | each queued request is the smallest aligned block of 32, 64 or 128 bytes in its segment that serves what was touched |
| `CoalescingTheorems.LaneOrderIndependence` | src/abstract_hardware_model.cc:523-596 | subwarps that issue the same addresses from any lanes queue the same requests, lane masks aside |
| `WarpTheorems.WarpCoverage` | src/abstract_hardware_model.cc:520-597 | of all requests that a warp queues, exactly one carries a lane's bit and holds all bytes of its access |
| `StreamTheorems.SectorRequests` | src/abstract_hardware_model.cc:495-519 | on architectures from 40 on, on 20 to 38 with the L1 skipped or a cache-global load, and for bytes always, every added request has 32 bytes |
| `StreamTheorems.StreamRequests` | src/abstract_hardware_model.cc:509-519 | otherwise 32 lanes that read consecutive data from a line start need one request of 32, 64 or 128 bytes for 1, 2 or 4 bytes a lane, and two or four of 128 for 8 or 16 global bytes, with full byte and sector masks |
| `StreamTheorems.MaskedByte` | src/abstract_hardware_model.cc:532-566 | a byte in the mask of a request was issued, with local accesses of 4, 8 and 16 bytes in pieces of four |
| `StreamTheorems.PieceMasked` | src/abstract_hardware_model.cc:532-566 | and every piece that was issued is in the mask of a request that carries its lane |
| `CoverageExact.HeldExact` | src/abstract_hardware_model.cc:704-758 | the request of a segment holds an access of it if and only if the access stays in its chunk or another touched chunk widens the request far enough |
| `CoverageExact.CoverageIff` | src/abstract_hardware_model.cc:523-596 | for every subwarp and access: exactly one request covers it if and only if it has a 32-bit address, stays in its segment, and stays in its chunk or is helped by another mark |
| `CoverageExact.WarpCoverageIff` | src/abstract_hardware_model.cc:520-597 | the same over all requests of a warp |
| `CoverageExact.LoneCoverage` | src/abstract_hardware_model.cc:551-582 | an access that no other address helps is covered if and only if it stays in a 32-byte chunk and has a 32-bit address |
| `CoverageExact.SpilledAccessLost` | src/abstract_hardware_model.cc:551-582 | four bytes at address 30 alone are not covered |
| `CoverageExact.SpilledAccessHelped` | src/abstract_hardware_model.cc:551-582 | with another lane at address 32 they are |
| `WarpTheorems.WarpFootprint` | src/abstract_hardware_model.cc:463-484 | for a warp in any number of parts: every touched byte's window is counted, n128 <= n32 <= 4 n128, and 32 n32 is at most the bytes requested |
| `AtomicCoalescer.TestBytes` | src/abstract_hardware_model.h:1064-1068 | true if and only if one of the bytes is set |
| `AtomicCoalescer.PlaceItem` | src/abstract_hardware_model.cc:652-683 | the list scan is first fit, and the assertion that no byte is set twice holds for any list |
| `AtomicCoalescer.FitAt` | src/abstract_hardware_model.cc:652-683 | the scan stops at the first transaction whose bytes are free, or appends one |
| `AtomicCoalescer.InSegmentExactly` | src/abstract_hardware_model.cc:648-650 | the assertion on an atomic holds if and only if it ends in the segment it starts in |
| `AtomicCoalescer.InSegmentInLine` | src/abstract_hardware_model.cc:648-650 | an atomic that the assertion admits lies in one line |
| `AtomicCoalescer.PlaceSubwarp` | src/abstract_hardware_model.cc:637-684 | the lists of a subwarp are the fold of first fit over its active lanes |
| `AtomicCoalescer.PlaceSends` | src/abstract_hardware_model.cc:686-700 | every transaction of every list meets the assertions of the reduction |
| `AtomicCoalescer.CoalesceAtomic` | src/abstract_hardware_model.cc:599-702 | the queue grows by the lists of each subwarp, segments ascending, transactions in list order, with the segment size that architecture and data size give, as `AtomicStreams` says in numbers |
| `AtomicTheorems.PlaceExact` | src/abstract_hardware_model.cc:637-683 | transaction r of a segment holds exactly the addresses used by more than r lanes, their chunks, bytes and lanes, and there are as many as the most used address has lanes |
| `AtomicTheorems.LandsAtRank` | src/abstract_hardware_model.cc:652-683 | a lane is in transaction r if and only if r earlier lanes use its address |
| `AtomicTheorems.NoSharedByte` | src/abstract_hardware_model.cc:652-683 | lanes of one transaction share no byte |
| `AtomicTheorems.FirstFitOptimal` | src/abstract_hardware_model.cc:652-683 | no assignment that keeps equal addresses of the segment apart uses fewer transactions |
| `AtomicTheorems.AtomicOrderIndependence` | src/abstract_hardware_model.cc:637-683 | equal multiplicities give equal transactions, lane masks aside |
| `AtomicTheorems.AtomicLaneOrder` | src/abstract_hardware_model.cc:637-701 | and equal queues |
| `AtomicStreams.AtomicsAlike` | src/abstract_hardware_model.cc:599-702 | for every configuration, atomics of lanes that each have an aligned address of their own queue what plain global accesses to these addresses queue |
| `AtomicStreams.SectorAtomics` | src/abstract_hardware_model.cc:609-633 | by sectors, and for bytes always, every request of an atomic has 32 bytes |
| `AtomicStreams.AtomicStream` | src/abstract_hardware_model.cc:623-633 | otherwise a stream of atomics needs the requests of a plain stream |
| `AtomicCoverage.AtomicConservation` | src/abstract_hardware_model.cc:637-701 | whatever the addresses, a subwarp adds exactly one request that carries each of its active lanes, and none for other lanes |
| `AtomicCoverage.WarpConservation` | src/abstract_hardware_model.cc:599-702 | the same over all subwarps of a warp, from any queue |
| `AtomicCoverage.WarpServing` | src/abstract_hardware_model.cc:637-758 | from any queue: every request that is added and carries a lane holds all bytes of its access and has them in its byte mask, and what was queued before stays |
| `Footprint.AddWindows` | src/abstract_hardware_model.cc:471-480 | the windows of all sectors of a request are added |
| `Footprint.CountWindows` | src/abstract_hardware_model.cc:463-484 | the counters are the numbers of distinct windows of the requests queued since the start, and of no earlier one |
| `Footprint.WindowBounds` | src/abstract_hardware_model.cc:464-481 | n128 <= n32 <= 4 n128 |
| `Footprint.WindowBytes` | src/abstract_hardware_model.cc:464-481 | 32 n32 is at most the bytes requested, and equal when requests do not overlap |
| `Footprint.PlainFootprint` | src/abstract_hardware_model.cc:289-289 | after plain coalescing in one part, 32 n32 is exactly the bytes newly requested |
| `Footprint.TouchedByteCounted` | src/abstract_hardware_model.cc:463-484 | the window of every touched byte is counted |
| `Footprint.SectorSegmentsExact` | src/abstract_hardware_model.cc:463-484 | with 32-byte segments the counted windows are exactly the touched ones |
| `AtomicCoverage.AtomicFootprint` | src/abstract_hardware_model.cc:463-484 | for the atomics of a whole warp, from any queue: every touched byte's window is counted, n128 <= n32 <= 4 n128, and 32 n32 is at most the bytes requested |
| `SharedMemory.CollectAccs` | src/abstract_hardware_model.cc:335-348 | the per-bank word counts are the fold of the active lanes |
| `SharedMemory.FullBroadcast` | src/abstract_hardware_model.cc:396-401 | the largest number of different words in one bank |
| `SharedMemory.FindBroadcast` | src/abstract_hardware_model.cc:351-371 | the first word of the first bank that is hit more than once, or none if there is none |
| `SharedMemory.LimitedBroadcast` | src/abstract_hardware_model.cc:350-391 | the largest bank count with the broadcast word counted once; the assertions on the broadcast never fail |
| `SharedMemory.CostUnique` | src/abstract_hardware_model.cc:350-405 | the accesses of a subwarp determine its cost, limited broadcast included |
| `SharedMemory.SharedCycles` | src/abstract_hardware_model.cc:325-411 | the cycles are the sum of the subwarps' costs, which `BankTheorems` gives in addresses, and at most the number of active lanes; the assertion on the total holds if and only if an active lane is in some subwarp |
| `SharedMemory.AccsWords` | src/abstract_hardware_model.cc:335-348 | a word is counted in a bank if and only if an active lane hits it |
| `SharedMemory.CostBounds` | src/abstract_hardware_model.cc:350-405 | 1 <= full broadcast <= limited broadcast <= active lanes |
| `SharedMemory.OneCycle` | src/abstract_hardware_model.cc:393-405 | full broadcast costs one cycle if and only if no two active lanes hit different words of one bank, whatever words and banks are |
| `BankTheorems.FullExact` | src/abstract_hardware_model.h:371-373 | for 32-bit addresses full broadcast costs the largest number of active lanes any two of which have different words, of four bytes, whose numbers are equal modulo the number of banks |
| `BankTheorems.OneCycleExact` | src/abstract_hardware_model.h:371-373 | so it is one cycle if and only if no two active lanes do |
| `BankTheorems.ConsecutiveWords` | src/abstract_hardware_model.h:371-373 | consecutive words of no more lanes than banks cost one cycle |
| `BankTheorems.FullStride` | src/abstract_hardware_model.h:371-373 | lanes one word of every bank apart cost one cycle each |
| `BankTheorems.OneWordLimited` | src/abstract_hardware_model.cc:350-391 | with limited broadcast, lanes in one word cost one cycle |
| `BankTheorems.TwoWordsLimited` | src/abstract_hardware_model.cc:350-391 | and lanes in two words of a bank one for the word that is broadcast, the lower one if two lanes are in it, and one for each lane in the other |
| `Checkpoint.PrintLine` | src/abstract_hardware_model.cc:1043-1048 | the line is the entry's tokens joined by blanks, which `CheckpointText.LineShows` gives as text |
| `Checkpoint.PrintCheckpoint` | src/abstract_hardware_model.cc:1039-1050 | the text is the lines of the entries, bottom first, which `CheckpointText.FileShows` gives as text |
| `CheckpointText.LineShows` | src/abstract_hardware_model.cc:1043-1048 | the line is a bit and a blank for each lane, then pc, call depth, reconvergence pc, cycle, kind, warp number and width in decimal notation with a blank between them, and a newline; 32-bit fields are shown as the signed number congruent to them, the cycle as a signed 64-bit one, the kind as 0 or 1 |
| `CheckpointText.FileShows` | src/abstract_hardware_model.cc:1039-1050 | and the file is such lines, bottom first |
| `CheckpointText.LaunchedShows` | src/abstract_hardware_model.cc:1045-1047 | the line of a freshly launched warp shows the reconvergence pc -1 |
| `CheckpointText.NumberReads` | src/abstract_hardware_model.cc:976-982 | a number in decimal notation, with or without a plus sign, is read up to the first character that is no digit |
| `CheckpointText.AtoiReads` | src/abstract_hardware_model.cc:976-982 | `atoi` gives the `int` that is congruent to it |
| `Checkpoint.ReadLine` | src/abstract_hardware_model.cc:965-988 | the entry that the tokens of a line denote |
| `Checkpoint.Resume` | src/abstract_hardware_model.cc:955-991 | the stack becomes the entries of the lines, whatever it was |
| `Checkpoint.JoinTokens` | src/abstract_hardware_model.cc:967-974 | splitting at blanks undoes joining with blanks |
| `Checkpoint.LineFits` | src/abstract_hardware_model.cc:961-961 | every line is shorter than the 200-byte buffer |
| `Checkpoint.LineBack` | src/abstract_hardware_model.cc:967-986 | a line gives back its entry, unsigned -1 included, with its cycle cut to an `int` |
| `Checkpoint.CycleSurvives` | src/abstract_hardware_model.cc:982-982 | a 64-bit cycle survives `atoi` if and only if it fits an `int` |
| `Checkpoint.RoundTrip` | src/abstract_hardware_model.cc:955-991 | `resume` of `print_checkpoint` is the identical stack, at any depth, if and only if every cycle fits an `int` |
| `Checkpoint.LateEntryLost` | src/abstract_hardware_model.cc:982-982 | an entry that diverged at cycle 2 to the 31st comes back with another cycle |
| `Synchronize.SimKeeps` | src/gpgpusim_entrypoint.cc:79-153 | every step of the simulation thread, on every exit of its inner loop, keeps the invariant |
| `Synchronize.HostKeeps` | src/gpgpusim_entrypoint.cc:169-185 | so does every step of a host in `synchronize` |
| `Synchronize.PushKeeps` | src/gpgpusim_entrypoint.cc:169-185 | so does work pushed by other threads at any moment, also during the scan |
| `Synchronize.NextKeeps` | src/gpgpusim_entrypoint.cc:75-194 | so does every step of any thread, `exit_simulation` included |
| `Synchronize.RunInv` | src/gpgpusim_entrypoint.cc:75-194 | the invariant holds after every interleaving |
| `Synchronize.SynchronizeSafe` | src/gpgpusim_entrypoint.cc:169-185 | if `synchronize` returns while the simulation is not done, nothing pushed before the call is queued or running, and the GPU is inactive |
| `Synchronize.HostRound` | src/gpgpusim_entrypoint.cc:169-185 | an undisturbed host returns if all streams are empty and the simulation is idle, or if the simulation is done, and otherwise starts over |
| `Synchronize.WorkCompletes` | src/gpgpusim_entrypoint.cc:75-166 | from every idle state the simulation thread can carry out whatever is queued and go idle again |
| `Sections.Runtime.Capabilities` | libcuda/cuda_runtime_api.cc:3271-3291 | the map holds the highest admissible capability of every identifier |
| `Sections.Runtime.PruneSectionList` | libcuda/cuda_runtime_api.cc:3252-3317 | exactly the sections of the highest admitted capability of their identifier remain, in order, and none is the error case; admitted are PTX sections not above the forced maximum, if it is not zero, nor above 19 with PTXPlus |
| `Sections.Runtime.MergeMatchingSections` | libcuda/cuda_runtime_api.cc:3320-3362 | the other sections stay in order, the last match goes to the end, and texts are carried from match to match |
| `Sections.Runtime.MergeSections` | libcuda/cuda_runtime_api.cc:3365-3391 | every PTX identifier is merged once, in order of first appearance |
| `Sections.HighestIs` | libcuda/cuda_runtime_api.cc:3271-3291 | the kept capability is an admissible one and none is higher |
| `Sections.PruneKeepsHighest` | libcuda/cuda_runtime_api.cc:3293-3305 | an identifier keeps a PTX section if and only if it has an admissible one, and all it keeps have the highest admissible capability |
| `Sections.PruneExact` | libcuda/cuda_runtime_api.cc:3262-3305 | the same for every forced maximum, with and without PTXPlus |
| `Sections.PruneConfigured` | libcuda/cuda_runtime_api.cc:3262-3305 | an identifier keeps a PTX section if and only if it has an admitted one, and all it keeps are admitted and the highest |
| `Sections.MergedText` | libcuda/cuda_runtime_api.cc:3336-3349 | the surviving file is its own text followed by what it inherits, whatever the lengths |
| `Sections.MergedFile` | libcuda/cuda_runtime_api.cc:3336-3349 | that is the texts of its predecessors past 50 characters, newest first, if and only if no text shorter than that comes after a longer one |
| `Sections.ShortTextLoses` | libcuda/cuda_runtime_api.cc:3343-3349 | three sections, the middle one empty, of which the first one's text is lost |
| `Sections.TwoSections` | libcuda/cuda_runtime_api.cc:3336-3349 | of two sections the second ends up with its own text and that of the first from its 51st character on |
| `Sections.Unmerged` | libcuda/cuda_runtime_api.cc:3384-3388 | merging other identifiers changes neither the sections nor the texts of one |
| `Sections.MergeLeavesOne` | libcuda/cuda_runtime_api.cc:3365-3391 | after merging all, each identifier has exactly its last PTX section with its own and its inherited text |
| `Sections.PruneThenMerge` | libcuda/cuda_runtime_api.cc:3252-3391 | for every forced maximum, with and without PTXPlus, prune then merge leaves one PTX section of the highest admitted capability per identifier that has an admitted one, and none for any other; its text is as it should be if and only if no short text comes after a longer one |
| `AerialVision.AppendRecord` | aerialvision/lexyacc.py:240-253 | a logged record extends the flat list of the records before it; an entry without data changes nothing |
| `AerialVision.OrganizeShader` | aerialvision/organizedata.py:190-222 | the three loops compute the rows by the last run, the fill and the padding, or fail on an index past the last row |
| `AerialVision.LastRunIs` | aerialvision/organizedata.py:194-201 | the number of rows is the length of the last record |
| `AerialVision.ShaderRoundTrip` | aerialvision/organizedata.py:190-222 | organizing flattened records gives their zero-padded transpose if and only if no record is longer than the last; otherwise it fails |
| `AerialVision.RowLength` | aerialvision/organizedata.py:203-216 | each row has a leading 0 and then one entry per record, 0 where the record is too short |
| `AerialVision.OrganizeDram` | aerialvision/organizedata.py:261-284 | the mode-flag loop reads chip, bank and values as the reader function says |
| `AerialVision.KeyInjective` | aerialvision/organizedata.py:278-278 | a chip.bank key names one chip and one bank |
| `AerialVision.KeyNames` | aerialvision/organizedata.py:278-278 | the key is the chip, a dot and the bank, both in decimal notation |
| `AerialVision.DramRoundTrip` | aerialvision/organizedata.py:261-284 | for every chip and bank, the series is a leading 0 and all its logged values in log order, and absent if it has none |

## Left out

- Finding the basic blocks and connecting them, break targets included: `PostDominators` starts from the successors of each block and `BlockCode` from the pcs of its instructions.
- Indirect branches with more than two targets, which break the assertion on two paths, indirect calls, and calls under a condition, which break the assertion on calls.
- PostDominance.CfgRunSafe: asks that lanes finish in the kernel and not inside a function that is called.
- EndPc.SafeExactly: is for graphs without calls; that a safe graph is enough is proved with calls too.
- Callee.CallableExactly: is for functions that call no other and of which every instruction can be reached, with one kernel that calls them. The model gives a branch that reconverges at the return pc that of the function, where the program takes that of the first live lane of the warp; they agree in the runs that fail, in which lane 0 is inside the function.
- Live lanes whose next pc is -1: `update` would take them for finished lanes.
- Finished lanes in the top mask do not execute in the model, where the program stops on an assertion; for programs that follow their graph there are none while a lane is live.
- SimtTermination.RunWarp: does not model barriers, which delay a warp until the others arrive, nor the interleaving of the warps of a thread block.
- Memory shared between lanes: a lane's state is of any type and includes what it reads, so a lane's next state depends on that lane alone.
- Data sizes other than 1, 2, 4, 8 and 16, and the wrap-around of 64-bit addresses.
- Exact masks of accesses that span two chunks: the crossing branch is modelled as it is, but its byte mask starts at the last byte of the access.
- CoalescingTheorems.LaneOrderIndependence: is for one subwarp, as is AtomicTheorems.AtomicLaneOrder, because moving an address to another subwarp does change the queue.
- The constant, texture and kernel-parameter paths of `generate_mem_accesses`, and all calls into the statistics.
- Streams created or destroyed while a host waits, restarting the simulation thread, the sequential simulation thread, semaphores, and liveness of `synchronize`. The steps of the simulation thread allow more than the stream manager does, so safety carries over.
- File handles, missing PTX files, NUL characters in PTX texts, two sections that name one file, ELF and SASS sections beyond being passed through, and the message with the lowest capability.
- Checkpoint.RoundTrip: `atoi` of numbers beyond an `int` is undefined in C; the model reads a 64-bit `long` and cuts it, as GNU libc does on 64-bit systems.
- The other organizers of aerialvision/organizedata.py, sparse statistics, and floating-point statistics.
- `register_set`, kernel dimensions and CTA streams, caches, scheduling and timing, the CUDA and OpenCL entry points, the graphical interface and `cuobjdump_to_ptxplus`.

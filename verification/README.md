# Verification of the GPU functional simulator

This project models the parts of the simulator where state is hardest to follow and proves what the
rest of the simulator relies on. It has four parts.

**The reconvergence stack.** A warp executes one instruction for many lanes at once. When lanes branch
different ways, `Warp::update` splits the top entry of a stack of (program counter, reconvergence
counter, lane mask) entries, and merges the lanes again later. `SimtStack.dfy` states one update as a
function, `Warp.dfy` proves the loops of the method against it, and the other `Simt*.dfy` files prove
what the stack is for: as long as each lane decides by its own history, it executes exactly the sequence
of program counters it would execute alone. (One kind of instruction makes lanes decide otherwise; see
below.) `ThreadBlock.dfy` adds the loop over lanes that drives the update and shows that it always
satisfies what the update asserts. `KernelRun.dfy` joins the two: the code of a warp instruction is a
step of the whole-run model, and a kernel run to its end leaves every lane with what it does alone.
`LaneMachine.dfy` adds the registers: over kernels of vector instructions, compares and branches on what
they have left in the condition register, it says when every register of every lane ends as it would alone.

**The launch.** The grid counter is a mixed-radix counter in 32-bit fields (`Grid.dfy`). The launch
thread, the running-block slots and the thread pool form a small concurrent protocol (`Launch.dfy`,
`LaunchRuns.dfy`, `LaunchOrder.dfy`), modelled as atomic steps between lock operations, with spurious wake-ups, for any
number of workers and any schedule.

**Shared ownership.** `smart_ptr` keeps the owners of an object in a circular list instead of counting
them (`OwnerRings.dfy`, `SmartPtr.dfy`).

**Instructions.** Register files, operand buffers and the collect / execute / write-back pipeline
(`Registers.dfy`, `VectorStep.dfy`), multi-limb addition through the carry register (`CarryChain.dfy`),
generic addresses (`AddressWindows.dfy`), field extraction (`BitFields.dfy`) and power-of-two arithmetic
(`PowersOfTwo.dfy`). `Words.dfy` holds 32-bit wrap-around and powers of two.

Lanes are natural numbers, masks are sets of lanes, and program counters of lanes are 32 bits wide while
the null counter of the stack is the 64-bit all-ones value, so the two never meet. Behaviour that comes
from outside (what a branch decides, the reconvergence counter of an instruction, which waiting thread is
notified) is a parameter, and the results hold for all its values.

## What the proofs found

- The stack is right exactly when the reconvergence counter is well formed: if, while diverging, a path
  starts at the reconvergence counter of the top entry, that must also be the counter the instruction
  names. Otherwise `Warp::update` drops that path's lanes (`AgreementIff`, `IllFormedRecvgLosesALane`);
  `IllFormedIsMet` is a run of three lanes and two instructions in which this happens.
- A reconvergence entry keeps its full mask. A lane that exits inside the branch is still in it when it
  resumes, and `ThreadItem::Execute` asserts that no active lane is done. `FinishedLaneIsMet` is a run of
  two lanes and two instructions that gets there. An exit is safe when the
  exiting lanes lie in no entry that the update leaves in place (`SafeExitIff`). In every run, with calls
  and returns anywhere, the stack is free of finished lanes if and only if all exits were safe
  (`CleanRunIff`), and after an unsafe exit the warp cannot empty its stack (`CompletedRunExitedSafely`).
- An entry keeps its reconvergence counter as long as it is on the stack (`UpdateKeepsRpc`). So the update
  that resolves a divergence is exactly the one by which the last branch has no lane left or has all its
  lanes at that counter (`ReconvergesIff`), and a warp that has run to its end has resolved every divergence
  (`DivergenceIsResolved`).
- The two runs above need counters that the repository does not set: the only one an instruction is given
  is the null one (isa/inc/Instruction.h:759), and the other write, in `updateSIMTStack`, needs a counter
  that nothing sets. With null counters every argument is well formed, calls included
  (`NullKeepsNoneRejoin`). A finished lane can still be met, under a call: `ExitInCalleeIsMet` is a run of two
  lanes and four instructions in which a lane exits inside the callee and the caller resumes with it. With
  null counters an exit is safe exactly when the exiting lanes lie in no entry below the top and the
  instruction is not a call that leaves lanes to go on (`NullExitIff`, and `NullRunCleanIff` over whole runs).
  Without calls all exits are safe, the masks on the stack share no lane, and there is at most one entry a
  lane (`NullRunRefines`, `RunKernel`). The price is that lanes which have diverged are brought together again
  by returns only.
- `executeInstruction` collects the operands before it sets the active mask, so under the mask of the
  instruction before (model/ThreadBlock.cpp:57-61). A lane that was not active then is given zeros for its
  vector registers. The active lanes get what they would compute alone, whatever the opcode computes, exactly
  when each was active before or its vector sources are zero (`OwnDataIff`, `GatheredIsCurrentIff`);
  `SwitchedLaneReadsZero` is a branch after which it fails. If the first instruction, and the one that waits
  when a conditional branch splits the warp, read no vector register, then a whole kernel leaves every lane
  with the vector registers, and every bit of the condition and carry registers, that it computes alone
  (`RunMachine`).
- `S_CBRANCH_SCCZ` and `S_CBRANCH_SCCNZ` are executed by the leading lane only and move only that lane; the
  others fall through, whatever their own bit says. So a lane under such a branch does not do what it does
  alone, where it leads (`SccMovesTheLeaderOnly`). A warp instruction takes every lane where it would go
  alone exactly unless it is such a branch and another lane was to take it to a different place
  (`AsAloneIff`).
- A launch completes exactly when the grid is empty, or its blocks use fewer barriers than are free (the
  wait in `allocRunningBlock` compares strictly) and the number of blocks is not a multiple of 2^32 (the
  pool is created with a 32-bit worker count) (`GridLaunchCompletesIff`).
- Tasks are begun in the order in which they were handed over (`FirstInFirstOut`), so without re-queued blocks
  the blocks of a grid begin in the order of their ids (`BlocksBeginInOrder`).
- A finished block gives barrier slots back, but no block takes any: nothing calls `allocBarSlot`. After a
  launch the free count is higher by the demand of all its blocks (`ReturnedRaisesBars`).
- Linear block ids are distinct exactly when the grid has at most 2^32 points (`LinearIdsDistinctIff`).
- Assigning a `smart_ptr` to itself releases it first and then finds nothing to copy, so it ends null
  (`Assign`). `reset_all(other)` works exactly when `other` is another node that owns another object;
  otherwise null nodes end up linked or a deleted object keeps its owners (`ResetAllFrom`).
- A generic address round-trips exactly when the successor of the id does not wrap
  (`SharedRoundTripIff`, `LocalRoundTripIff`).
- `V_BFE_I32` is the sign extension of `V_BFE_U32` exactly when the field lies within the register or the
  register is not negative (`ExtractSignedIff`).

## Model

| member | source | states |
|---|---|---|
| `WarpDevice.Warp.Launch` | model/Warp.cpp:15-23 | launching leaves one entry with the start counter and the whole mask |
| `WarpDevice.GroupPaths` | model/Warp.cpp:157-185 | the grouping loop ends with one entry for each different next counter of the active lanes that are not done, holding exactly the lanes with that counter, and the count is their number |
| `WarpDevice.ExtractGroup` | model/Warp.cpp:159-184 | one round removes the lanes of the first lane's counter and every finished lane it passes, and at least one lane |
| `WarpDevice.Warp.Update` | model/Warp.cpp:138-280 | the loops over paths, with their pushes, pops and early returns, leave the stack that the specification function gives, in every case the assertions admit |
| `WarpDevice.Warp.TakePath` | model/Warp.cpp:192-204 | the path handled first is the fall-through one when some lane takes it, otherwise the one with the least counter |
| `WarpDevice.Warp.NextPath` | model/Warp.cpp:189-272 | one round of the path loop: a call or return ends it with the specified stack, any other path advances the walk over the paths |
| `WarpDevice.Warp.WalkPaths` | model/Warp.cpp:189-275 | the whole path loop with its final pop leaves the specified stack |
| `WarpDevice.WalkTwo` | model/Warp.cpp:192-280 | the loop over two paths pushes the reconvergence entry once and places or discards each path |
| `SimtAgreement.StandingPc` | model/Warp.cpp:138-280 | a lane's own counter is the one in the topmost entry that holds the lane |
| `SimtAgreement.UpdateKeepsStanding` | model/Warp.cpp:138-280 | for each lane that is not done, an update leaves the topmost entry of the lane at the lane's new counter, and every entry it waits in at the point it will reach |
| `SimtAgreement.CallKeeps` | model/Warp.cpp:206-217 | a call does so |
| `SimtAgreement.ReturnKeeps` | model/Warp.cpp:218-235 | a return to the caller does so |
| `SimtAgreement.AdvanceKeeps` | model/Warp.cpp:260-275 | an update without divergence does so |
| `SimtAgreement.SplitKeeps` | model/Warp.cpp:243-272 | a divergence that opens a reconvergence entry does so |
| `SimtAgreement.ReplaceKeeps` | model/Warp.cpp:237-272 | a divergence whose reconvergence counter is the top's own does so |
| `SimtAgreement.IllFormedRecvgLosesALane` | model/Warp.cpp:237-241 | whenever the reconvergence counter is not well formed, some live lane is lost by the update |
| `SimtAgreement.IllFormedIsMet` | model/Warp.cpp:237-272 | an ill-formed counter can be met: a run from launch after which the stack and a lane disagree |
| `SimtAgreement.AgreementIff` | model/Warp.cpp:138-280 | stack and lanes agree after an update if and only if the reconvergence counter is well formed |
| `SimtAgreement.UpdateKeepsCallsNeverRejoin` | model/Warp.cpp:206-235 | a call entry never has a reconvergence counter |
| `SimtShape.UpdateKeepsShape` | model/Warp.cpp:138-280 | every update keeps masks non-empty, different and nested or disjoint within a call frame, and no branch entry stands at its own reconvergence counter |
| `SimtParents.UpdateKeepsNesting` | model/Warp.cpp:138-280 | any two masks on the stack, in whatever call frames, are nested or disjoint, and every update keeps this |
| `SimtParents.UpdateKeepsParents` | model/Warp.cpp:206-272 | every update, calls and returns included, keeps that below a branch entry the nearest entry sharing a lane with it holds all its lanes and stands at its reconvergence counter |
| `SimtParents.ParentMatches` | model/Warp.cpp:243-272 | that nearest entry is the one waiting for the branch |
| `SimtParents.DivergeParented` | model/Warp.cpp:243-272 | a divergence keeps it, with or without a new reconvergence entry |
| `SimtShape.FullBound` | model/Warp.cpp:243-275 | a laminar family of distinct non-empty subsets of n lanes has at most 2n-1 members |
| `SimtShape.HeightBound` | model/Warp.cpp:138-280 | with calls, the height is at most 2n-1 for each call frame |
| `SimtFrame.UpdateKeepsBelow` | model/Warp.cpp:206-275 | while an ordinary entry is on top of height h, no update changes what is below h |
| `SimtFrame.DivergeOpens` | model/Warp.cpp:243-258 | a divergence turns the top into (reconvergence counter, old mask, old reconvergence counter) and pushes only ordinary entries |
| `SimtFrame.RunKeepsBelow` | model/Warp.cpp:206-275 | until then the reconvergence entry and everything below it stay as they are |
| `SimtFrame.ReconvergenceRestores` | model/Warp.cpp:206-275 | when the stack first returns to the height it had at the divergence, it is exactly the old stack with that entry on top, whatever happened in between, calls included |
| `SimtRejoin.DivergePaths` | model/Warp.cpp:237-275 | a divergence gives each path that is not at a reconvergence point one entry, with exactly its lanes and the instruction's reconvergence counter; of two, the one handled first lies below |
| `SimtRejoin.UpdateKeepsRpc` | model/Warp.cpp:206-275 | no update, calls and returns included, changes the reconvergence counter or the kind of an entry that stays |
| `SimtRejoin.RunKeepsRpc` | model/Warp.cpp:206-275 | nor does a run of updates |
| `SimtRejoin.BranchKeepsTarget` | model/Warp.cpp:260-275 | until a divergence is resolved its lowest branch is bound for the reconvergence counter of the instruction that diverged |
| `SimtRejoin.DroppedIff` | model/Warp.cpp:230-275 | an ordinary entry on top is dropped if and only if it has no lane left or all its lanes reach its reconvergence counter by an instruction that is no call |
| `SimtRejoin.ReconvergesIff` | model/Warp.cpp:206-275 | the exact update by which a divergence is resolved, over any run of updates |
| `SimtRejoin.UpdateKeepsBound` | model/Warp.cpp:237-275 | if divergences name a counter, every branch entry has one |
| `SimtRejoin.RunBranchesBound` | model/Warp.cpp:206-275 | in every reachable state, if divergences name a counter, each branch above the bottom entry has a counter to reach, and the nearest entry sharing lanes with it waits there with all of them |
| `SimtRejoin.DivergenceIsResolved` | model/ThreadBlock.cpp:542-553 | a run that has emptied its stack has at some step come back from every divergence to the stack before it |
| `SimtFrame.SafeExitIff` | model/Warp.cpp:206-275 | one step of any operation type: no stored mask holds a finished lane afterwards if and only if the exiting lanes lie in no entry that the update leaves in place |
| `SimtFrame.CallExitIff` | model/Warp.cpp:206-217 | a call keeps the whole stack under the callee, so an exit with it is safe only if no lane is left or none of the stack's lanes has exited |
| `SimtFrame.ReturnExitIff` | model/Warp.cpp:218-235 | a return leaves every finished lane that is stored below the callee, also when it drops the caller |
| `SimtFrame.CallerDropped` | model/Warp.cpp:228-233 | dropping a branch entry drops no finished lane that is not held below it as well |
| `SimtFrame.NoExitKeepsClean` | model/Warp.cpp:138-280 | without new exits a clean stack stays clean |
| `SimtFrame.FinishedLaneIsMet` | model/ThreadItem.cpp:21-34 | a call-free run, with a reconvergence counter that the decoder does not set today, in which a finished lane becomes active again |
| `SimtRun.LaunchInv` | model/Warp.cpp:15-23 | the run invariant holds after launch |
| `SimtRun.IssuableIff` | model/Warp.cpp:138-235 | in a reachable state the assertions of the update come down to the number of paths |
| `SimtRun.StepInv` | model/ThreadBlock.cpp:542-553 | one warp instruction keeps the run invariant |
| `SimtRun.RunRefinesLanes` | model/ThreadBlock.cpp:542-553 | over every run, calls and exits included, of lanes that decide by their own history, each lane has executed exactly a prefix of what it executes alone, is done exactly when it has exited alone, and otherwise stands where it would stand alone, which is what the stack says |
| `SimtRun.EmptyStackMeansAllExited` | model/ThreadBlock.cpp:542-553 | when the stack is empty every lane has run its program to its exit |
| `SimtRun.RunTerminates` | model/ThreadBlock.cpp:542-553 | if each lane alone exits within b instructions, no run of n lanes has more than n*b steps |
| `SimtRun.RunHeight` | model/Warp.cpp:138-280 | the height bound in every reachable state |
| `SimtRun.CallFreeHeight` | model/Warp.cpp:243-275 | in call-free runs masks are non-empty and pairwise different and the stack has at most 2n-1 entries |
| `SimtRun.RunReconverges` | model/Warp.cpp:206-275 | when a divergence has been resolved, all lanes of the old entry that are not done stand at the reconvergence counter |
| `SimtRun.RunNestsAndMatches` | model/Warp.cpp:138-280 | in every reachable state any two masks are nested or disjoint, and the nearest entry sharing a lane with a branch entry stands at its reconvergence counter, which the branch entry itself does not |
| `SimtExits.SafeRunMeetsNoFinishedLane` | model/ThreadItem.cpp:21-34 | in runs whose exits are safe, with calls or without, the next instruction meets no finished lane |
| `SimtExits.FinishedLaneStays` | model/Warp.cpp:206-275 | a finished lane once stored is stored from then on, calls and returns included |
| `SimtExits.CleanRunIff` | model/ThreadItem.cpp:21-34 | over every run, calls and returns included, the stack is free of finished lanes if and only if every exit was safe |
| `SimtExits.CompletedRunExitedSafely` | model/ThreadItem.cpp:21-34 | a run that has emptied its stack had safe exits only |
| `SimtNull.NullKeepsNoneRejoin` | isa/inc/Instruction.h:759 | with null counters no entry ever has a reconvergence counter and every argument is well formed, calls included |
| `SimtNull.NullKeepsApart` | model/Warp.cpp:237-272 | without calls the masks then share no lane and hold no finished lane |
| `SimtNull.NullNext` | model/Warp.cpp:237-275 | a null update without calls puts entries for lanes of the top in its place, and of two paths the one handled first waits under the other |
| `SimtNull.NullExitIff` | model/Warp.cpp:206-275 | with null counters, one step of any operation type: the stack is free of finished lanes afterwards if and only if the exiting lanes lie in no entry below the top and the instruction is no call that leaves lanes live |
| `SimtNull.ExitInCalleeIsMet` | model/ThreadItem.cpp:21-34 | with null counters a run with a call in which a finished lane becomes active again |
| `SimtNull.NullRunCleanIff` | model/ThreadItem.cpp:21-34 | over whole runs with null counters, calls included, the stack is free of finished lanes if and only if every exit was of that kind |
| `SimtNull.NullRunIsRun` | model/ThreadBlock.cpp:542-553 | a call-free run with null counters, of which nothing is asked but two-way branching, meets every condition of a step |
| `SimtNull.NullRunRefines` | model/ThreadBlock.cpp:542-553 | in such a run each lane executes what it executes alone, no stored lane is done, and there is at most one entry a lane |
| `SimtNull.ApartBound` | model/Warp.cpp:243-275 | non-empty masks that share no lane are at most as many as the lanes |
| `ThreadBlock.WarpThreads.constructor` | model/ThreadBlock.cpp:263-290 | lanes start at counter 0 and none is done |
| `ThreadBlock.WarpThreads.IncWarpPC` | model/WarpState.cpp:404-419 | every active lane's pending counter is set from the given lane |
| `ThreadBlock.WarpThreads.IncThreadPC` | model/WarpState.cpp:421-424 | only the given lane's pending counter changes |
| `ThreadBlock.WarpThreads.ExecuteOpcode` | isa/InstructionSOPP.cpp:67-160 | branch and exit opcodes |
| `ThreadBlock.WarpThreads.ExecuteItem` | model/ThreadItem.cpp:21-51 | one lane's turn |
| `ThreadBlock.WarpThreads.MoveLane` | model/ThreadItem.cpp:21-44 | a turn moves its lane by its own decision, or, after the leading lane of a warp instruction, by what that lane has prepared |
| `ThreadBlock.WarpThreads.Turn` | model/ThreadBlock.cpp:63-79 | the body of the lane loop; the done lanes and the live count stay those of the exited lanes |
| `ThreadBlock.WarpThreads.Retire` | model/ThreadBlock.cpp:574-579 | an exited lane leaves the live count once |
| `ThreadBlock.WarpThreads.ExecuteInstruction` | model/ThreadBlock.cpp:54-84 | every active lane ends at its own target or fall-through although each turn rewrites all pending counters; inactive lanes do not move |
| `ThreadBlock.AtMostTwoPaths` | model/Warp.cpp:188 | straight-line, branch and exit instructions never give more than two next counters, so the assertion holds |
| `ThreadBlock.UniformIsOnePath` | model/Warp.cpp:206-211 | straight-line code, unconditional branches and exits keep lanes together, so they may call and return |
| `ThreadBlock.TccMovesByOwnBit` | isa/InstructionSOPP.cpp:86-125 | a branch on condition bits takes exactly the lanes l whose bit at position l is set, or clear |
| `ThreadBlock.SccMovesTheLeaderOnly` | isa/InstructionSOPP.cpp:127-160 | a scalar conditional branch that a lane takes alone and not in its warp |
| `ThreadBlock.AsAloneIff` | model/ThreadItem.cpp:36-40 | every lane goes where it would go alone if and only if the instruction is not a scalar conditional branch that a lane other than the leading one is to take elsewhere |
| `ThreadBlock.IssueIsAccepted` | model/Warp.cpp:138-190 | every assertion of the update holds for what the lane loop produces |
| `ThreadBlock.MovedIsCollected` | model/ThreadBlock.cpp:91-108 | the collected vectors are the lanes' done flags and counters |
| `ThreadBlock.StepAgrees` | model/ThreadBlock.cpp:542-553 | after the update stack and lanes agree again |
| `ThreadBlock.WarpUnit.constructor` | model/ThreadBlock.cpp:430-458 | a new warp satisfies the invariant |
| `ThreadBlock.WarpUnit.UpdateSimtStack` | model/ThreadBlock.cpp:91-108 | collects the lanes' counters and done flags and updates the stack by them, for every operation type |
| `ThreadBlock.WarpUnit.ExecuteWarp` | model/ThreadBlock.cpp:542-553 | one instruction keeps the warp's invariant, never fails an assertion of the update, moves the lanes and leaves the specified stack |
| `KernelRun.SameUpdate` | model/ThreadBlock.cpp:91-108 | an update depends on the collected vectors for the top entry's lanes only |
| `KernelRun.MovedIsStep` | model/ThreadBlock.cpp:542-553 | what the lane loop and the update leave is the state after the step of the whole-run model |
| `KernelRun.InstructionReachesStack` | model/ThreadBlock.cpp:91-108 | an instruction's own reconvergence counter and operation type decide where a diverged top waits, and whether a call entry is added or dropped |
| `KernelRun.ExecuteStep` | model/ThreadBlock.cpp:542-553 | executing a warp instruction is a step of the whole-run model, for every program whose lanes decide as the instruction does |
| `KernelRun.DecodedFollows` | isa/InstructionSOPP.cpp:67-125 | straight-line code, branches on a lane's own condition bit and exits decide for each lane as they do for the lane alone |
| `KernelRun.ReachedCanStep` | model/ThreadItem.cpp:21-34 | with null counters the next instruction of a reached state meets no done lane and a well-formed argument |
| `KernelRun.IssueStep` | model/ThreadBlock.cpp:542-553 | with the condition register as the lanes have left it, a decoded instruction extends the run by one step |
| `KernelRun.RunStep` | model/ThreadBlock.cpp:478-491 | a turn of the block's loop continues the run |
| `KernelRun.RunKernel` | model/ThreadBlock.cpp:478-491 | for one warp and kernels without calls and scalar conditional branches: if every lane alone exits, the loop ends, all lanes are done, the stack is empty, and each lane has executed exactly what it executes alone |
| `LaneMachine.AloneIsLane` | model/ThreadBlock.cpp:54-84 | the program counters a lane executes alone, deciding by its condition bit, are those of the lane with its registers |
| `LaneMachine.FlagsAreOwn` | isa/InstructionSOPP.cpp:86-125 | the bit a branch tests for a lane is the one the lane's own instructions have left |
| `LaneMachine.ColdValuesIff` | isa/inc/Instruction.h:379-414 | a lane's sources, collected while it was not active, are its own exactly when its vector sources are zero |
| `LaneMachine.OwnDataIff` | model/ThreadBlock.cpp:57-61 | for every opcode function the active lanes get what they compute alone if and only if each was active before or its vector sources are zero |
| `LaneMachine.SwitchedLaneReadsZero` | model/ThreadBlock.cpp:57-61 | a branch and an exit after which a lane computes from 0 where its register holds 7 |
| `LaneMachine.ComputeStep` | model/ThreadBlock.cpp:54-84 | a vector instruction decoded from its sources changes the destination, and the carry bits, of the active lanes |
| `LaneMachine.CompareStep` | isa/InstructionVOPC.cpp:174-340 | a compare decoded from its sources changes the active lanes' bits |
| `LaneMachine.DataStep` | model/ThreadBlock.cpp:54-84 | an instruction on the register files is carried out by each active lane on its own registers, with zeros for lanes not active before; other lanes and scalar registers keep theirs |
| `LaneMachine.TwoWays` | model/Warp.cpp:192-204 | only a conditional branch splits lanes that stand together, and the waiting path is the fall-through one unless it wraps |
| `LaneMachine.NextReady` | model/Warp.cpp:237-275 | after an instruction every entry whose lanes are not active begins at a waiting path |
| `LaneMachine.MachineStep` | model/ThreadBlock.cpp:542-553 | one instruction on registers and stack keeps every lane at its own state of the same number of instructions alone |
| `LaneMachine.RunMachine` | model/ThreadBlock.cpp:478-491 | when each lane alone exits, and the first and the waiting instructions read no vector register, the warp runs to its end, and every vector register of every lane and its bit of every mask register are what the lane computes alone |
| `Grid.KernelInfo.IncrementInPlace` | model/KernelInfo.cpp:10-22 | the carry chain of the counter |
| `Grid.KernelInfo.IncrementCtaId` | model/KernelInfo.cpp:113-118 | advances the block counter and restarts the thread counter |
| `Grid.KernelInfo.IncrementThreadId` | model/KernelInfo.cpp:120-122 | advances the thread counter |
| `Grid.KernelInfo.EnumerateBlocks` | model/Executor.cpp:170-195 | the launch loop runs once for each point of the grid, in order, with its linear id, and stops; with an empty grid not at all |
| `Grid.CounterCounts` | model/KernelInfo.cpp:10-22 | the k-th state of the counter is the mixed-radix form of k |
| `Grid.ExhaustedIff` | model/inc/KernelInfo.h:73-76 | no blocks are left exactly from the state after the last point on, and it stays so |
| `Grid.StaysExhausted` | model/inc/KernelInfo.h:73-76 | once no blocks are left, further increments change nothing about that |
| `Grid.EachPointOnce` | model/KernelInfo.cpp:10-22 | every point of the box is visited at one step and at no other |
| `Grid.LinearIdIs` | model/inc/KernelInfo.h:69-72 | the linear id of the k-th state is k modulo 2^32 |
| `Grid.LinearIdWraps` | model/inc/KernelInfo.h:69-72 | 32-bit wrap-around in the middle of the formula does not matter |
| `Grid.LinearIdsDistinctIff` | model/inc/KernelInfo.h:69-72 | no two blocks share an id if and only if there are at most 2^32 |
| `LaunchProtocol.InitInv` | common/ThreadPool.h:15-24 | the protocol's invariant holds when the pool has been created |
| `LaunchProtocol.NextInv` | common/ThreadPool.h:25-60 | every step of launcher or worker, and every spurious wake-up, keeps the protocol's invariant |
| `LaunchProtocol.WorkerConserves` | common/ThreadPool.h:44-60 | a worker's step loses and duplicates no task |
| `LaunchProtocol.LauncherConserves` | model/Executor.cpp:180-192 | nor does the launcher's, and the running count stays exact |
| `LaunchProtocol.WorkerKeepsCount` | model/inc/CUResource.h:37-41 | slots are given back exactly by blocks that finish |
| `LaunchProtocol.WorkerKeepsWakeups` | common/ThreadPool.h:46-55 | a worker falls asleep only when nothing is pending |
| `LaunchProtocol.LauncherKeepsWakeups` | common/ThreadPool.h:25-42 | adding and stopping wake someone who is needed |
| `LaunchRuns.ReturnedMeansExactlyOnce` | model/Executor.cpp:167-196 | when the pool's destructor has returned, each block has been executed exactly once, nothing is pending and all slots are back |
| `LaunchRuns.AlwaysAccounted` | common/ThreadPool.h:36-60 | at every moment each queued task is pending, held or finished once; the running count is within bounds and exact; a non-empty queue has an awake worker or a notification under way |
| `LaunchRuns.AllGoneMeansEmptyQueue` | common/ThreadPool.h:44-60 | stopped with no worker left, the queue is empty |
| `LaunchRuns.FullMeansAwake` | model/inc/CUResource.h:27-36 | while the launcher waits for a slot, some worker is awake |
| `LaunchRuns.NoDeadlock` | model/Executor.cpp:180-196 | until the launch returns some ordinary step is possible |
| `LaunchRuns.RunLength` | model/Executor.cpp:69-77 | a run's length is linear in blocks, workers and the number of spurious wake-ups and re-queued tasks |
| `LaunchRuns.FinishRun` | model/Executor.cpp:167-196 | every run can be carried on to the return of the launch |
| `LaunchRuns.NoStepLeftIffReturned` | model/Executor.cpp:167-196 | under every schedule, a run can go on by no ordinary step if and only if the launch has returned |
| `LaunchRuns.TooManyBarsBlock` | model/inc/CUResource.h:27-36 | with too high a barrier demand no block ever starts |
| `LaunchRuns.NoWorkersBlock` | common/ThreadPool.h:15-24 | without workers more blocks than slots are never all started |
| `LaunchRuns.LaunchCompletesIff` | model/inc/CUResource.h:27-36 | a launch can return if and only if there is nothing to do, or there are workers and the barrier demand is below what is free |
| `LaunchRuns.EveryPointOnce` | model/Executor.cpp:167-196 | grid and protocol together, for grids of any size: each point of the grid is executed exactly once |
| `LaunchRuns.GridLaunchCompletesIff` | model/Executor.cpp:167-196 | the exact condition in terms of the grid |
| `LaunchRuns.PoolSizes` | common/ThreadPool.h:15-24 | at most two workers a processor and one a block, below 2^32 blocks as many as that allows, and none exactly for a multiple of 2^32 blocks |
| `LaunchOrder.StepQueue` | common/ThreadPool.h:34-53 | each step begins a task at the front of the queue or hands one over at its back, or leaves it alone |
| `LaunchOrder.FirstInFirstOut` | common/ThreadPool.h:34-53 | under every schedule, re-queued blocks included, the tasks begun so far are the first of those handed over, in the same order, and the queue holds the rest |
| `LaunchOrder.HandedInOrder` | model/Executor.cpp:170-192 | without re-queued blocks the blocks are handed over in the order of their ids |
| `LaunchOrder.BlocksBeginInOrder` | model/Executor.cpp:167-196 | without re-queued blocks the m blocks begun are 0 to m - 1 in order, the queue holds the next ones in order, and every running or finished block is one of the m |
| `LaunchOrder.FreeBarsGrow` | model/BlockState.cpp:25-28 | after k blocks the free barrier count is k times the demand above what it was |
| `LaunchOrder.ReturnedRaisesBars` | model/BlockState.cpp:25-28 | a launch that has returned has raised it by the demand of all its blocks |
| `LaunchOrder.BarsFit` | model/inc/CUResource.h:50-53 | in every reachable state it is at most the count before plus the demand of all blocks |
| `SmartPointers.World.Create` | common/string_utils.h:537 | construction |
| `SmartPointers.World.LastOwnerIff` | common/string_utils.h:644-662 | a null link means the only owner |
| `SmartPointers.World.AllReleasedAllDeleted` | common/string_utils.h:644-662 | when no node owns anything, every object ever owned has been deleted exactly once |
| `SmartPointers.World.BrokenIsInvalid` | common/string_utils.h:609-623 | a linked null node or an owned deleted object cannot be part of a valid state |
| `SmartPointers.SmartPtr.LastBefore` | common/string_utils.h:649-651 | the walk to the node linked to this one ends there |
| `SmartPointers.SmartPtr.Release` | common/string_utils.h:644-662 | leaves the ring, deletes the object exactly when this was the last owner, changes no other owner |
| `SmartPointers.SmartPtr.Assign` | common/string_utils.h:547-556 | shares the other's object and drops its own; from itself it ends null |
| `SmartPointers.SmartPtr.Reset` | common/string_utils.h:584-587 | takes a new object and drops its own |
| `SmartPointers.SmartPtr.UseCount` | common/string_utils.h:570-582 | the walk ends and counts the owners |
| `SmartPointers.SmartPtr.ResetAll` | common/string_utils.h:589-607 | all owners follow to the new object, or become null, and the old one is deleted once |
| `SmartPointers.SmartPtr.ReleaseOthers` | common/string_utils.h:597-603 | the walk that resets the other owners survives the unlinking it causes |
| `SmartPointers.SmartPtr.ResetAllFrom` | common/string_utils.h:609-623 | merges two rings into one, use counts add up and the old object is deleted once, exactly when the nodes own different objects; otherwise the state is broken |
| `SmartPointers.SmartPtr.Destroy` | common/string_utils.h:543-545 | the destructor |
| `OwnerRings.LeaveOk` | common/string_utils.h:648-658 | unlinking one owner leaves one ring of the rest |
| `OwnerRings.JoinOk` | common/string_utils.h:549-554 | linking after an owner gives one ring with the new node second |
| `OwnerRings.RetargetOk` | common/string_utils.h:592-596 | a ring pointed at a new object is the new object's ring |
| `OwnerRings.SpliceOwnedOk` | common/string_utils.h:609-623 | two rings are spliced into one whose members are exactly theirs |
| `OwnerRings.SplicedMembers` | common/string_utils.h:609-623 | no owner is lost or doubled |
| `OwnerRings.RingUnique` | common/string_utils.h:644-662 | the links determine the ring |
| `OwnerRings.NextLeaves` | common/string_utils.h:597-603 | what is left of the ring when the next owner leaves |
| `LaneBits.BitOfWithBit` | model/WarpState.cpp:70-88 | writing one lane's bit changes that bit only |
| `LaneBits.BitIs` | isa/inc/Instruction.h:279-295 | lane l has the bit at position l |
| `LaneBits.UnsignedOfWithBit` | isa/inc/Instruction.h:379-387 | the number a register holds: zero for no bits, and each bit adds its power of two, over all 32 |
| `LaneBits.UnsignedDigit` | isa/inc/Instruction.h:379-387 | bit l is binary digit l of the number |
| `Registers.WarpState.GetVreg` | model/WarpState.cpp:46-53 | reads a lane's vector register |
| `Registers.WarpState.SetVreg` | model/WarpState.cpp:55-62 | writes it and no other register of any lane |
| `Registers.WarpState.GetSreg` | model/WarpState.cpp:98-133 | reads a scalar register around the constant window, and the k-th constant inside it |
| `Registers.WarpState.SetSreg` | model/WarpState.cpp:135-147 | outside the window and its boundary a write reads back and shows through no other register |
| `Registers.WarpState.SetBit` | model/WarpState.cpp:78-88 | one lane's bit of a scalar register |
| `Registers.WarpState.SetActiveMask` | model/inc/WarpState.h:175-177 | a new mask changes no register |
| `Registers.SregRoundTripIff` | model/WarpState.cpp:98-147 | reads and writes use the same slot if and only if the register is outside the window and its end boundary |
| `Registers.WindowInOrder` | model/WarpState.cpp:98-133 | the constant window shows the constants in order, and around it registers are consecutive slots |
| `Registers.VectorLayout` | model/WarpState.cpp:46-53 | the place of a lane's vector register in the flat array |
| `VectorSteps.Operand.ReadReg` | isa/inc/Instruction.h:379-414 | the buffers hold what the registers hold for lanes of the mask in force, and zeros in vector buffers for the others |
| `VectorSteps.Operand.GetValueX` | isa/inc/Instruction.h:223-243 | immediates, scalars and lanes of vectors |
| `VectorSteps.Operand.SetValueX` | isa/inc/Instruction.h:297-316 | fills one lane's buffers only |
| `VectorSteps.Operand.SetBitmask` | isa/inc/Instruction.h:279-295 | one lane's bit of the buffer |
| `VectorSteps.Operand.WriteVector` | isa/inc/Instruction.h:415-428 | writes back active lanes only; the ready assertion holds |
| `VectorSteps.Operand.WriteScalar` | isa/inc/Instruction.h:415-421 | writes back the operand's scalar registers |
| `VectorSteps.VectorInstruction.OperandCollect` | isa/inc/Instruction.h:701-728 | sources, and a compare's destination, are collected |
| `VectorSteps.GatheredIsCurrentIff` | isa/inc/Instruction.h:379-414 | a lane is given its own registers' values if and only if it was active already or its vector sources are zero |
| `VectorSteps.VectorInstruction.Step` | model/ThreadBlock.cpp:54-84 | the whole instruction, collected under the mask of the one before, is a simultaneous map of what was gathered for the active lanes, also on overlap; nothing else changes but the active lanes' carry bits |
| `VectorSteps.VectorInstruction.CompareStep` | isa/InstructionVOPC.cpp:174-340 | a compare, collected under the mask of the instruction before, changes only the active lanes' bits of its destination |
| `CarryChain.AddcoStep` | isa/InstructionVOP2.cpp:582-597 | sum and carry of the active lanes from what was gathered for them, for a vector first source and an immediate, scalar or vector second one |
| `VectorSteps.DecodeSource` | isa/InstructionVOP2.cpp:50-65 | the operand gathers the source the decoder names |
| `CarryChain.Addc` | isa/InstructionVOP3B.cpp:28-55 | one lane of the add with carry |
| `CarryChain.CarryWordBits` | isa/InstructionVOP3B.cpp:28-55 | each lane's bit of the carry register is that lane's carry, other bits stay |
| `CarryChain.AddcStep` | isa/InstructionVOP3B.cpp:28-55 | over all active lanes, with carry-in and carry-out in any scalar registers; where the scalar addend is the carry-out register, each lane adds what the lanes before it left there |
| `CarryChain.LimbsAreDigits` | isa/InstructionVOP3B.cpp:28-55 | the number that limbs stand for determines them |
| `CarryChain.RippleIsSum` | isa/InstructionVOP3B.cpp:28-55 | rippled limbs and the last carry are the exact sum, for any number of limbs |
| `CarryChain.AddChain` | isa/InstructionVOP3B.cpp:28-55 | the instruction chain adds numbers of any length exactly in every active lane and leaves inactive lanes' registers and carry bits alone |
| `AddressWindows.Boundaries` | isa/MemCommon.cpp:7-42 | the boundaries of the spaces and the strides of the windows in numbers |
| `AddressWindows.ConversionFailsIff` | isa/MemCommon.cpp:7-56 | a conversion's assertion fails exactly for addresses out of range |
| `AddressWindows.SharedRoundTripIff` | isa/MemCommon.cpp:7-36 | shared to generic and back, exactly |
| `AddressWindows.GenericSharedRoundTrip` | isa/MemCommon.cpp:33-36 | generic to shared and back |
| `AddressWindows.LocalRoundTripIff` | isa/MemCommon.cpp:38-56 | local to generic and back, exactly |
| `AddressWindows.GenericLocalRoundTrip` | isa/MemCommon.cpp:52-56 | generic to local and back |
| `AddressWindows.WindowsTile` | isa/MemCommon.cpp:12-50 | an address is shared, local or global exactly when the corresponding window test holds; the windows fill the gap below the heap |
| `AddressWindows.WindowsDisjoint` | isa/MemCommon.cpp:12-50 | no address lies in two windows |
| `AddressWindows.SharedIsSharedIff` | isa/MemCommon.cpp:7-31 | converted shared addresses classify as shared exactly for ids the device has |
| `AddressWindows.LocalIsLocalIff` | isa/MemCommon.cpp:23-42 | converted local addresses classify as local exactly below the device's thread count |
| `BitFields.ExtractSignedIff` | isa/InstructionVOP3A.cpp:366-434 | the exact condition under which the two extractions agree up to sign extension |
| `BitFields.UnsignedDigits` | isa/InstructionVOP3A.cpp:366-391 | digit k of the unsigned field is digit offset + k of the register up to the width, and 0 above |
| `BitFields.NoWidth` | isa/InstructionVOP3A.cpp:366-434 | a field of no width is 0, signed or not |
| `BitFields.SignedShift` | isa/InstructionVOP3A.cpp:419-430 | an arithmetic shift leaves the top bits, signed by the first |
| `BitFields.SignExtendField` | isa/inc/OperandUtil.h:66-72 | sign extension of a field subtracts its range when its top bit is set |
| `PowersOfTwo.NextPow2` | common/intmath.h:120-129 | the least power of two not below the argument, up to 2^31, and zero above |
| `PowersOfTwo.Logb2` | common/intmath.h:211-224 | the position of the highest bit |
| `PowersOfTwo.LogOfLeastPower` | common/intmath.h:120-224 | together they give the ceiling logarithm |

## Left out

- Memory and scalar registers shared between lanes: in `SimtRun` a lane's behaviour is any function of the lane and its own history, so a lane whose branches depend on what other lanes wrote is outside the whole-run results; that includes scalar registers, which a warp instruction writes once for the whole warp, so that a lane on one path may read what another path wrote. The per-update results do not need this.
- KernelRun.RunKernel: one warp; kernels with calls, returns or scalar conditional branches are not covered, and the loop over the warps of a block is not modelled.
- LaneMachine.RunMachine: instructions have sources and a destination of one register, scalar registers other than the masks are only read, and the condition on the first and waiting instructions is sufficient for the whole run; the exact condition is for one instruction (`OwnDataIff`).
- The setting of `g_debug_exec`: operands are collected and written back only above 1 (model/ThreadBlock.cpp:57, 79); the register results are about that setting.
- Scalar conditional branches (`S_CBRANCH_SCCZ`, `S_CBRANCH_SCCNZ`): the lane loop has them, but a lane under one is not a function of its own history, so the whole-run results and `RunKernel` do not cover kernels that use them; `AsAloneIff` says which instructions they do cover.
- ThreadBlock.WarpUnit.UpdateSimtStack: the reconvergence counter is taken as given; the replacement of the special return counter is not modelled, because nothing sets that counter.
- The return-address stack: `m_callstack` is never pushed in the repository, so there is no return counter to put in its place.
- Call and return instructions: an instruction of the lane loop may call or return, but `S_SWAPPC_B64`'s jump to an absolute address is not one of its opcodes; in `SimtRun` lanes may go anywhere.
- ThreadBlock.WarpThreads.constructor: the exit flags start clear; `m_status` is not initialised in the code.
- The objects `ThreadItem`: one class keeps their fields as columns, so aliasing between thread objects is not modelled.
- The cycle stamp of divergent entries, statistics, dumping and printing: they decide nothing here.
- Several warps of a block: `RunKernel` runs one warp; the order of a block's warps matters only through memory and barriers.
- Barriers: `BlockState` and `BAR_SYNC` are not modelled; a block runs until `execute` returns.
- `ThreadBlock::execute` always returns true; the branch that queues the task again is modelled all the same.
- `allocRunningBlock` has no return statement; it is modelled as succeeding once it has taken a slot.
- LaunchRuns.RunLength: fairness of the scheduler is not modelled; the bound counts spurious wake-ups and re-queued tasks as given.
- LaunchProtocol.NextInv: lock operations are atomic steps, so the memory model below them is not covered; the free barrier count is an unbounded number, which is what the 32-bit one is as long as that can hold the bound of `BarsFit`.
- Several launches at once on one compute unit: one launch at a time, starting with no running block.
- SmartPointers.SmartPtr.Reset: the raw pointer must be one that no owner has held, as its callers must ensure; the same holds for construction and `reset_all` with a raw pointer.
- `refcounted_ptr` and the string helpers of common/string_utils.h: not modelled.
- VectorSteps.VectorInstruction.Step: operands in data memory, scalar destinations of per-lane opcodes and warps of more than 32 lanes are not modelled.
- The opcode functions are arbitrary functions of one lane's sources; floating point and special functions have no definition of their own.
- Scalar registers inside the constant window: reads are modelled, writes there only as far as the slot they hit (`SregRoundTripIff`).
- CarryChain.AddChain: the active mask is the one already in force when the chain starts; a limb of the sum must not overwrite a later limb of an addend or another limb of the sum, and above the lowest limb the scalar addend must not be the carry register; the steps themselves are stated without this.
- The address constants come from the layout written out in isa/inc/ExecContext.h; coasm_define.h is not part of this model.
- BitFields.ExtractSignedIff: shifts and masks are stated as division and remainder by powers of two; the operand fetch around them is left out.
- The 64-bit `NextPow2`, alignment helpers and the other conversions of isa/inc/OperandUtil.h: they would add only easy members.
- Checkpoint and resume, environment variables, streams, the device library and opcode tables from generated files: outside the model.

# KVBM, verified

A Dafny model of the parts of KVBM (a KV-cache block manager for LLM serving) where a wrong
step is hard to see: the event consolidator's tracker, the TinyLFU frequency sketch, the branch
tracker, the prefill router's exclusion protocol, the labelled tensor layouts and the copy
planner built on them, and the hub's feature resolution and configuration rendering.

`dafny verify dfyconfig.toml` checks everything.

| files | what they hold |
|---|---|
| `Outcome`, `Arithmetic` | options and results; the few product and quotient facts the layout proofs use |
| `Lineage` | positional lineage hashes over arbitrary hash functions |
| `Tracker`, `TrackerCalls`, `TrackerReplay`, `TrackerHolders`, `TrackerChains` | the consolidator's tracker: what each call does and answers, replay of its events, agreement with a holder relation, streams stored block by block |
| `SketchBits`, `Sketch`, `SketchRuns`, `SketchDecay` | packed four-bit counters, the sketch over them, what its estimates mean over whole runs, and when it decays |
| `BranchTracker`, `BranchRuns` | fan-out records per parent, and their invariants over whole runs |
| `PrefillRouter`, `PrefillSafety`, `PrefillProgress` | any number of dispatch and calibrate handlers as a state machine, safety in every interleaving, and what the handlers get done |
| `Tensor`, `Strides`, `Slices`, `BlockLayout` | labelled layouts, contiguity, sharding and resharding, flat copies between axis orders |
| `CopyPlan`, `CopyEmit`, `CopyBytes`, `CopyMerge`, `CopyApart`, `CopyPlanner`, `CopyResult`, `CopyOrder` | the copy planner: which bytes its copies move, what that does to memory, how few copies it needs, and which source wins where several write |
| `CopyViews`, `CopyTransfer`, `CopyFill` | sliced views of layouts, a transfer between two of them end to end, and one view filled from the shards of many sources |
| `Features`, `Json`, `Overrides`, `Render`, `RenderInstances` | feature closure, JSON merging and dotted overrides, and the rendered connector configuration |

Objects that the program updates in place are classes whose methods are proved against a
specification function on values (`Step`, `Increment`, `Merged`, `SetAt`); the theorems about whole
runs are then about that function. Hash functions, decay policies, resolvers of calibration
requests, the JSON text parser and the connector's configuration parsers are function-valued
parameters, so every statement holds for all of them, collisions included.

## What the code does not promise

Some statements one might expect do not hold of the code. Each has a concrete case, or a whole
family of them, and the exact condition under which it does hold.

- The tracker does not count how often a source names a block. A source that stores one block
  under two names and removes one loses the block (`SecondNameIsLost`). The tracker agrees with
  the plain holder relation exactly through runs whose calls are all clean (`RunAgrees`).
- A prefill can run beside a calibration sweep (`OverlapHappens`), exactly through the window
  between a dispatch handler's flag check and its count (`OverlapIffWindow`).
- Fan-out counts and record ownership are not exact in every run (`ParentRemovedFirst`,
  `OrphanLeavesRecord`). They are all through a run exactly if it removes children before parents,
  and registers no orphan (`ExactThroughoutIff`, `OwnedThroughoutIff`). For the same reason, removing
  every resident need not empty the records; it does exactly if every record's key is that of a
  removed block (`DrainIff`).
- A layout transform may be asked for where a flat copy would do (`TransformCanBeCautious`); the
  exact condition is agreement on the dimensions wider than one (`CopyIffSameWide`).
- A copy plan is accepted but copies nothing when the innermost axis does not fold into a
  contiguous copy (`NothingFolds`); it delivers its selection exactly if it does, or no block is
  asked for (`DeliversIff`). The innermost axis folds exactly if it is the same on both sides, no
  block or region axis, not sliced, of one size, and stored element by element (`InnermostFoldsIff`).
- So a transfer between two views moves nothing, though they share bytes and the request is
  accepted, when either restricts the innermost axis: any layout sliced along it is a case
  (`SlicedInnermostMovesNothing`). A transfer moves exactly what the views share if and only if the
  innermost axis folds or no block is asked for (`TransferEndToEnd`, `SharedEligibleIff`).
- A copy plan is accepted also when a destination block has two sources, and then merging its
  copies can change what ends up there (`MergingChangesResult`). In a destination whose elements
  share no byte, without merging the last pair wins (`LastPairDecides`), with merging the one whose
  source lies highest (`HighestPairDecides`); so merging changes nothing exactly if these are the
  same for every element, or nothing is moved or merged anyway (`MergingKeepsIff`).
- Between layouts whose elements share no byte, a plan copies its selection, merged or not, exactly
  if no destination block has two sources, and the innermost axis folds or no block is asked for
  (`PlanCopiesIff`). Neither alone is enough (`MergingChangesResult`, `BlockAloneNotCopied`).
- Merging copies is said to reach the smallest number of descriptors. It need not when a source
  block is read twice (`PlanNotMinimal`), or when nothing folds and the plan holds empty copies
  (`BlockAloneNotCopied`). Where the innermost axis folds, a merged plan reaches it exactly if, in
  source order, its copies touch only within unbroken chains; where it does not, exactly if no block
  is asked for (`PlanMinimalIff`). With distinct source blocks in a layout whose elements share no
  byte it reaches it exactly if the innermost axis folds or no block is asked for (`PlanMinimal`).
- A dotted override is dropped silently when its last parent exists and is no object, and only
  then (`NumberInTheWay`, `SetGet`).
- The resolver takes any dependency lists. With one that makes disagg depend on the prefill router,
  which no manager of the repository declares, dropping the router for another role leaves the
  dependency unmet (`RouterDroppedFromUnderDisagg`, `EffectiveDependencies`). With the repository's
  own lists every dependency is always met (`OwnHubDependenciesMet`).
- A rendered configuration can hold a role though disagg is not effective, if a blob, an override or
  the base configuration sets one (`StrayRole`). It holds one exactly if disagg is effective or the
  tuning set one (`RoleIff`); where none of the three comes near the role's path it holds none
  (`RoleAbsent`).

## Model

| member | source | states |
|---|---|---|
| `Lineage.ComputePlhLinks` | crates/kvbm-consolidator/src/tracker.rs:99-116 | a hash is computed iff the request is accepted and holds a whole block (block size taken modulo 2^32); it is the first block's root hash, or the parent extended by it |
| `Lineage.LinkPositions` | crates/kvbm-consolidator/src/tracker.rs:381-397 | in the reference chain every block sits one position past, and extends, the one before |
| `Lineage.FragmentWidths` | crates/kvbm-logical/src/branch_tracker.rs:43-46 | 54 bits of the parent below position 2^8, 46 below 2^16 and 38 from there on: with the position always 62 |
| `KvTracker.Tracker.constructor` | crates/kvbm-consolidator/src/tracker.rs:86-93 | a new tracker is the empty state |
| `KvTracker.Tracker.HandleStore` | crates/kvbm-consolidator/src/tracker.rs:122-212 | new state and returned flag of a named store: repeats ignored, an unknown parent treated as root, first publication queued |
| `KvTracker.Tracker.HandleRemove` | crates/kvbm-consolidator/src/tracker.rs:218-251 | new state and flag of a named removal |
| `KvTracker.Tracker.DropSource` | crates/kvbm-consolidator/src/tracker.rs:228-250 | forgetting a source removes the block with the last one, queueing a removal only for a published block |
| `KvTracker.Tracker.HandleKvbmStore` | crates/kvbm-consolidator/src/tracker.rs:262-315 | new state and flag of a store by hash; without tokens or block size nothing is published |
| `KvTracker.Tracker.HandleKvbmRemove` | crates/kvbm-consolidator/src/tracker.rs:319-342 | new state and flag of a removal by hash |
| `KvTracker.Tracker.HandleClearAll` | crates/kvbm-consolidator/src/tracker.rs:345-349 | blocks and names are gone, one clear event is queued |
| `KvTracker.Tracker.DrainEvents` | crates/kvbm-consolidator/src/tracker.rs:352-354 | the queue is handed out whole and in order, and emptied |
| `KvTrackerCalls.StoreCall` | crates/kvbm-consolidator/src/tracker.rs:118-212 | for every state: a store that cannot be hashed changes nothing; any other gives its name the first block's hash after the parent its source knows, or at the root if it knows none; the source joins the block's, which is published, and a store is queued and reported exactly if it was not |
| `KvTrackerCalls.UnknownParentIsRoot` | crates/kvbm-consolidator/src/tracker.rs:131-144 | a store under an unknown parent is the announced store of a root block |
| `KvTrackerCalls.KvbmStoreCall` | crates/kvbm-consolidator/src/tracker.rs:253-315 | a store by hash adds KVBM; the block is published, and a store queued and reported if that is news, exactly if it was or tokens and a block size are given |
| `KvTrackerCalls.RemoveCall` | crates/kvbm-consolidator/src/tracker.rs:214-251 | a named removal drops the name, and its source lets go: the last source takes the block with it, and a removal is queued and reported exactly if that block was published |
| `KvTrackerCalls.KvbmRemoveCall` | crates/kvbm-consolidator/src/tracker.rs:317-342 | a removal by hash: KVBM lets go in the same way |
| `KvTrackerCalls.ClearAndDrainCalls` | crates/kvbm-consolidator/src/tracker.rs:344-354 | a clear leaves nothing and queues one event; draining keeps all but the queue |
| `KvTrackerCalls.AnswerIffLogged` | crates/kvbm-consolidator/src/tracker.rs:118-342 | the answer of a store or removal is true exactly if an event was queued |
| `KvTrackerReplay.StepConsistent` | crates/kvbm-consolidator/src/tracker.rs:122-354 | one call keeps the event log replayable to the published blocks |
| `KvTrackerReplay.RunConsistent` | crates/kvbm-consolidator/src/tracker.rs:122-354 | in every run the events replay with no duplicate store and no stray removal, to exactly the published blocks; every block has a source, and an unpublished block only KVBM |
| `KvTrackerReplay.StepChained` | crates/kvbm-consolidator/src/tracker.rs:131-157 | one call keeps every engine store extending a hash stored since the last clear |
| `KvTrackerReplay.RunChained` | crates/kvbm-consolidator/src/tracker.rs:131-211 | in every run each engine store past the root extends a hash stored since the last clear, even through stale parent names |
| `KvTrackerHolders.StepAgrees` | crates/kvbm-consolidator/src/tracker.rs:159-250 | one call keeps the tracker in agreement with the holder relation, events included, if and only if the call is clean |
| `KvTrackerHolders.RunAgrees` | crates/kvbm-consolidator/src/tracker.rs:159-250 | agreement throughout a run if and only if all its calls are clean |
| `KvTrackerHolders.CleanRunHolders` | crates/kvbm-consolidator/src/tracker.rs:13-16 | after clean calls a block is present iff some source holds it, its sources are the holders, and every name leads to a present block |
| `KvTrackerHolders.RemoveOnLastHolder` | crates/kvbm-consolidator/src/tracker.rs:218-250 | under clean calls a removal is queued exactly when a published block loses its last holder |
| `KvTrackerHolders.SecondNameIsLost` | crates/kvbm-consolidator/src/tracker.rs:159-164 | the case of one source with two names for a block: after removing one, the block is gone while the other name lives, and storing it again is swallowed |
| `KvTrackerChains.StoreNthResolves` | crates/kvbm-consolidator/src/tracker.rs:131-157 | a source's next store under its own parent name resolves to the stream's own hash |
| `KvTrackerChains.TokenStream` | crates/kvbm-consolidator/src/tracker.rs:381-397 | the chunks of a token sequence and the hashes of the whole form a stream, each hash its chunk under the one before |
| `KvTrackerChains.TokenStreamStored` | crates/kvbm-consolidator/src/tracker.rs:122-212 | storing the chunks one by one through parent links, by any sources in any interleaving, gives every name the hash that hashing the whole sequence gives its block, announced once each |
| `KvTrackerChains.InterleavedStream` | crates/kvbm-consolidator/src/tracker.rs:122-212 | in any interleaving of sources storing one stream under their own names, every name leads to the stream's hash and each hash is announced exactly once, in order |
| `SketchBits.CounterBound` | crates/kvbm-logical/src/tinylfu.rs:218-222 | a counter is at most fifteen, and the room test is exactly being below it |
| `SketchBits.BumpCounter` | crates/kvbm-logical/src/tinylfu.rs:188-198 | an increment adds one to its own counter, saturating, and carries into no other, for every word and slot |
| `SketchBits.HalveCounter` | crates/kvbm-logical/src/tinylfu.rs:224-230 | one shift and mask halves all sixteen counters independently |
| `SketchBits.OnesAreOddCounters` | crates/kvbm-logical/src/tinylfu.rs:227-229 | the bits counted at a reset are exactly the odd counters |
| `SketchBits.HalveTotal` | crates/kvbm-logical/src/tinylfu.rs:224-235 | conservation: twice the total after a reset plus the odd counters is the total before |
| `SketchBits.BumpWord` | crates/kvbm-logical/src/tinylfu.rs:188-198 | the packed increment refines the list of counters, and reports whether there was room |
| `SketchBits.HalveWord` | crates/kvbm-logical/src/tinylfu.rs:227-230 | the packed reset of a word refines halving the list, and counts its odd counters |
| `Sketch.TinyLfuSketch.constructor` | crates/kvbm-logical/src/tinylfu.rs:141-150 | a new sketch has all counters zero |
| `Sketch.CellOf` | crates/kvbm-logical/src/tinylfu.rs:168-174 | a key's cell in a row is inside the table, whatever the hash |
| `Sketch.TinyLfuSketch.IncrementAt` | crates/kvbm-logical/src/tinylfu.rs:188-198 | exactly one counter of the table changes, and the flag says whether it had room |
| `Sketch.TinyLfuSketch.BumpAllRows` | crates/kvbm-logical/src/tinylfu.rs:168-178 | the four cells of a key are counted in turn, also where they coincide |
| `Sketch.TinyLfuSketch.IncrementKey` | crates/kvbm-logical/src/tinylfu.rs:163-186 | the new table and size of a touch: the size grows by one, modulo 2^32, if some counter had room, and a decay may follow; an empty table stays as it is |
| `Sketch.TinyLfuSketch.DecayIfDue` | crates/kvbm-logical/src/tinylfu.rs:180-185 | a reset follows a counted touch iff the policy says so of the new size |
| `Sketch.TinyLfuSketch.ResetCounters` | crates/kvbm-logical/src/tinylfu.rs:224-235 | every counter is halved, and the size becomes half of itself less a quarter of the odd counters, not below zero |
| `Sketch.TinyLfuSketch.HalveTable` | crates/kvbm-logical/src/tinylfu.rs:226-231 | the loop over the words halves every counter of the table and totals the odd ones |
| `Sketch.TinyLfuSketch.EstimateKey` | crates/kvbm-logical/src/tinylfu.rs:200-216 | the least counter of the key's four cells |
| `SketchRuns.CellTally` | crates/kvbm-logical/src/tinylfu.rs:163-235 | in every run a counter holds exactly its cell's hits, capped at fifteen and halved at each decay |
| `SketchRuns.EstimateAtLeastIdeal` | crates/kvbm-logical/src/tinylfu.rs:163-235 | in every run, for any hash functions and collisions, the estimate is at least the key's ideal decayed count |
| `SketchRuns.EstimateExact` | crates/kvbm-logical/src/tinylfu.rs:163-235 | it equals the ideal count when one of the key's cells is hit by one of its rows and no other touched key |
| `SketchRuns.SizeStaysBelowSample` | crates/kvbm-logical/src/tinylfu.rs:56-66 | under a fixed threshold the increment counter stays below it and never overflows |
| `SketchRuns.CapacityNeverOverflows` | crates/kvbm-logical/src/tinylfu.rs:56-60 | with the threshold taken from any capacity the increment counter never overflows |
| `SketchDecay.AnyRoomIff` | crates/kvbm-logical/src/tinylfu.rs:168-178 | counting a key's cells in turn, coinciding ones included, meets room iff one of them had room to begin with |
| `SketchDecay.DecaysIff` | crates/kvbm-logical/src/tinylfu.rs:180-185 | a touch decays iff some counter of its key was below fifteen and the policy finds the new size due |
| `SketchDecay.RunDecaysIff` | crates/kvbm-logical/src/tinylfu.rs:62-66 | in every run under a fixed threshold: iff some counter had room and the size plus one reaches the threshold |
| `SketchDecay.SizeCountsTouches` | crates/kvbm-logical/src/tinylfu.rs:180-185 | as long as nothing decayed, the size is the number of counted touches, below the threshold |
| `SketchDecay.FirstDecay` | crates/kvbm-logical/src/tinylfu.rs:62-66 | the first decay of a run is exactly the touch that brings the counted ones to the threshold, or to one |
| `SketchDecay.FirstDecayOfCapacity` | crates/kvbm-logical/src/tinylfu.rs:56-60 | with the threshold of a capacity: ten counted touches per block, at most 2^32 - 1, at least one |
| `SketchDecay.EstimateUndecayed` | crates/kvbm-logical/src/tinylfu.rs:200-216 | before any decay a key with a cell of its own is estimated at its touches, up to fifteen, and every key at no less |
| `SketchDecay.SharedCellIff` | crates/kvbm-logical/src/tinylfu.rs:170-174 | two rows meet in one cell iff their hashes agree modulo the table length and modulo sixteen |
| `SketchDecay.ResetIs` | crates/kvbm-logical/src/tinylfu.rs:224-235 | a reset halves every counter and leaves half the size less a quarter of the odd counters, counted in 32 bits, not below zero |
| `SketchDecay.NoTable` | crates/kvbm-logical/src/tinylfu.rs:163-166 | without a table a touch changes nothing and every estimate is zero |
| `BranchTracker.BranchPointTracker.constructor` | crates/kvbm-logical/src/branch_tracker.rs:217-222 | a new tracker has no parents and no records |
| `BranchTracker.BranchPointTracker.OnBlockRegistered` | crates/kvbm-logical/src/branch_tracker.rs:225-249 | the new maps after a registration; a root or a repeat changes no record |
| `BranchTracker.BranchPointTracker.OnBlockRemoved` | crates/kvbm-logical/src/branch_tracker.rs:251-268 | the new maps after a removal: the parent's live count falls, saturating, and the block's own record goes |
| `BranchTracker.BranchPointTracker.MaxFanout` | crates/kvbm-logical/src/branch_tracker.rs:270-273 | the recorded peak of the block's key, if it has a record |
| `BranchTracker.KeysMeet` | crates/kvbm-logical/src/branch_tracker.rs:98-157 | a child's key for its parent is the parent's own key, across all fragment widths; so defined here, the bit packing is not modelled |
| `BranchRuns.RunParents` | crates/kvbm-logical/src/branch_tracker.rs:225-268 | in every run the parent map's keys are exactly the resident non-root blocks |
| `BranchRuns.RunFanoutBounded` | crates/kvbm-logical/src/branch_tracker.rs:225-268 | in every run a live count is at most the resident children of its key |
| `BranchRuns.ExactIffChildrenGoFirst` | crates/kvbm-logical/src/branch_tracker.rs:251-268 | counts stay exact under a call iff it removes no block that still has a resident child |
| `BranchRuns.RunFanoutExact` | crates/kvbm-logical/src/branch_tracker.rs:225-268 | runs that remove children first keep every count exact |
| `BranchRuns.ExactThroughoutIff` | crates/kvbm-logical/src/branch_tracker.rs:225-268 | counts are exact all through a run iff it removes children before parents |
| `BranchRuns.ParentRemovedFirst` | crates/kvbm-logical/src/branch_tracker.rs:261-266 | a run in which a parent goes first and its resident child is no longer counted |
| `BranchRuns.ExactNeverSaturates` | crates/kvbm-logical/src/branch_tracker.rs:257-264 | with exact counts a removal never meets a missing record or a zero count |
| `BranchRuns.OwnedIffParentsComeFirst` | crates/kvbm-logical/src/branch_tracker.rs:58-71 | records stay owned by residents under a call iff it registers no orphan |
| `BranchRuns.RunOwned` | crates/kvbm-logical/src/branch_tracker.rs:58-71 | with parents registered first, every record belongs to a resident |
| `BranchRuns.OwnedThroughoutIff` | crates/kvbm-logical/src/branch_tracker.rs:58-71 | records are owned by residents all through a run iff it registers no orphan |
| `BranchRuns.OrphanLeavesRecord` | crates/kvbm-logical/src/branch_tracker.rs:66-71 | a lone orphan leaves a record for a parent that is not there |
| `BranchRuns.RunBounded` | crates/kvbm-logical/src/branch_tracker.rs:15-33 | with parents registered first, neither map outgrows the residents |
| `BranchRuns.RemovalsLeave` | crates/kvbm-logical/src/branch_tracker.rs:251-268 | after any run, removals leave exactly the residents they do not name and the records whose key is no removed block's |
| `BranchRuns.DrainIff` | crates/kvbm-logical/src/branch_tracker.rs:251-268 | after any run, removing every resident empties the parent map, and the records iff every record's key is that of a removed block |
| `BranchRuns.DrainEmpties` | crates/kvbm-logical/src/branch_tracker.rs:251-268 | after a run with parents registered first, removing every resident, in any order and with repeats, empties both maps |
| `BranchRuns.RecordStep` | crates/kvbm-logical/src/branch_tracker.rs:225-268 | a record goes only with a block of its key; otherwise its peak never falls |
| `BranchRuns.RunRecord` | crates/kvbm-logical/src/branch_tracker.rs:225-273 | in every run a record's maximum is the peak of its live count over its life, and its observations the registrations, capped at 32 bits |
| `PrefillSafety.FlagStep` | src/hub/prefill_router.rs:122-129 | any step keeps the flag up iff exactly one calibrate holds it |
| `PrefillSafety.CounterStep` | src/hub/prefill_router.rs:113-120 | any step keeps the in-flight counter equal to the live guards |
| `PrefillSafety.OverlapStep` | src/hub/prefill_router.rs:348-359 | any step keeps every overlap explained by a flag read before the sweep's compare-and-swap |
| `PrefillSafety.RepliesStep` | src/hub/prefill_router.rs:431-444 | any step keeps every reply and the cache the results of a sweep for the same resolved request |
| `PrefillSafety.AlwaysSafe` | src/hub/prefill_router.rs:421-504 | in every interleaving of any number of handlers: flag, counter, overlaps and replies are all as above |
| `PrefillSafety.OverlapIffWindow` | src/hub/prefill_router.rs:348-359 | once a sweep runs alone, a prefill can join it iff some handler is between its flag check and its count |
| `PrefillSafety.OverlapHappens` | src/hub/prefill_router.rs:348-359 | a run in which a prefill runs beside a sweep |
| `PrefillSafety.QuiescentIsClean` | src/hub/prefill_router.rs:113-129 | when no handler is mid-way the flag is down and the counter zero, however they ended |
| `PrefillProgress.CacheIsLastSweep` | src/hub/prefill_router.rs:490-497 | in every run the cache is the last sweep whose handler wrote its results down, and empty before the first |
| `PrefillProgress.RepliesAreSweeps` | src/hub/prefill_router.rs:430-504 | in every run each reply is a completed sweep of that run |
| `PrefillProgress.ServedIff` | src/hub/prefill_router.rs:421-441 | in every run a request that resolves is answered from the cache iff it does not force and the last completed sweep was for the same resolved request; flag, counter and cache stay |
| `PrefillProgress.RepeatIsServed` | src/hub/prefill_router.rs:430-441 | a run in which a repeated request is served from the cache without the flag, and a forced one goes on to sweep |
| `PrefillProgress.DispatchAnswer` | src/hub/prefill_router.rs:349-358 | in every run a dispatch is refused at the flag iff some calibrate holds it |
| `PrefillProgress.DispatchRuns` | src/hub/prefill_router.rs:358-360 | one that got through is counted while it runs, and the count is back when it ends |
| `PrefillProgress.TakesIff` | src/hub/prefill_router.rs:443-450 | in every run the flag goes to a handler that asks for it iff none holds it |
| `PrefillProgress.PollsFifty` | src/hub/prefill_router.rs:452-458 | while prefills run the drain polls fifty times, neither fewer nor more |
| `PrefillProgress.PollsOnce` | src/hub/prefill_router.rs:452-458 | with none running it stops at once |
| `PrefillProgress.SweepsIff` | src/hub/prefill_router.rs:459-461 | in every run the sweep then starts iff no prefill is running, and is given up otherwise |
| `PrefillProgress.SweepFinishes` | src/hub/prefill_router.rs:484-504 | a sweep that is delivered and written down is answered with its results, becomes the cache, and lowers the flag |
| `PrefillProgress.FailureReleases` | src/hub/prefill_router.rs:450-491 | a handler that fails anywhere in its hold ends without a reply, lowers the flag and leaves the cache |
| `Tensor.NewLayout` | crates/kvbm-common/src/tensor.rs:83-158 | a layout is accepted iff its labels are distinct with one block axis, sizes positive, head size and payload not both, payload last, outer axis one or two |
| `Tensor.WellLabelledIff` | crates/kvbm-common/src/tensor.rs:83-158 | the acceptance condition in the code's own counts: one block axis, at most one of each other label, head size and payload sharing one place |
| `Tensor.CountLabels` | crates/kvbm-common/src/tensor.rs:104-122 | the loop counts every label |
| `Tensor.CountDistinct` | crates/kvbm-common/src/tensor.rs:104-135 | counts of at most one are exactly distinct labels |
| `Tensor.FirstAtFinds` | crates/kvbm-common/src/tensor.rs:171-173 | a label's position is where it stands, and there is none iff it is absent |
| `Tensor.TotalByLabel` | crates/kvbm-common/src/tensor.rs:182-184 | the element count is a product over labels, whatever the axis order |
| `Tensor.TotalFactors` | crates/kvbm-common/src/tensor.rs:182-249 | for every accepted layout with a page and a head-size or payload axis: blocks times layers times outer times page times per-token elements |
| `Strides.ContiguousFor` | crates/kvbm-common/src/strides.rs:92-102 | the strides are the row-major strides of the sizes |
| `Strides.ContiguousTailBytes` | crates/kvbm-common/src/strides.rs:114-141 | the bytes of the longest row-major tail, zero if the innermost axis breaks the rule |
| `Strides.IsFullyContiguous` | crates/kvbm-common/src/strides.rs:147-157 | true iff the strides are row-major; an error iff the ranks differ |
| `Strides.TailMaximal` | crates/kvbm-common/src/strides.rs:114-141 | every axis of the tail keeps the stride rule and the next one breaks it |
| `Strides.TailIsContiguous` | crates/kvbm-common/src/strides.rs:114-141 | over the tail's axes the offsets are a bijection onto the element slots of the reported bytes |
| `Strides.RowMajorBijection` | crates/kvbm-common/src/strides.rs:92-102 | row-major strides number a box of coordinates without gap or repeat, with an explicit inverse |
| `Strides.RowMajorIffWholeTail` | crates/kvbm-common/src/strides.rs:147-157 | fully contiguous iff all axes are in the tail |
| `Strides.WholeTailBytes` | crates/kvbm-common/src/strides.rs:114-157 | the tail spans the tensor iff the axes outside it hold one element; so it implies full contiguity when all sizes are two or more, and follows from it always |
| `Slices.Shard` | crates/kvbm-common/src/slice.rs:68-88 | accepted iff the rank is in the world and the world divides the axis; the window is inside the axis |
| `Slices.NewSlice` | crates/kvbm-common/src/slice.rs:92-111 | accepted iff not empty and inside the axis |
| `Slices.IntersectExact` | crates/kvbm-common/src/slice.rs:250-280 | an intersection is exactly the shared global coordinates, seen from both sides, and an error exactly between different axes or axis lengths |
| `Slices.OwnerExact` | crates/kvbm-common/src/slice.rs:68-88 | every coordinate is in exactly one shard |
| `Slices.OverlapsTile` | crates/kvbm-common/src/slice.rs:250-280 | for any two world sizes, the overlaps of a destination shard with all source shards tile it, each pairing equal global coordinates |
| `Slices.PulledIsGlobal` | crates/kvbm-common/src/slice.rs:250-280 | pulling from all source shards finds the element at the same global coordinate |
| `Slices.Reshard` | crates/kvbm-common/src/slice.rs:250-280 | the resharded tensor holds the same axis |
| `Slices.ReshardRoundTrip` | crates/kvbm-common/src/slice.rs:250-280 | resharding there and back is the identity |
| `BlockLayout.NamedLayoutsKnown` | crates/kvbm-common/src/block.rs:89-98 | the named layouts are permutations of the four dimensions |
| `BlockLayout.NamedIndex` | crates/kvbm-common/src/block.rs:89-98 | where an element sits in a block of each of the three named layouts |
| `BlockLayout.TransformTable` | crates/kvbm-common/src/block.rs:109-119 | a transform is asked for between any two different named layouts, against a custom order iff it differs, and against an unknown layout iff the other is known |
| `BlockLayout.CopyIffSameWide` | crates/kvbm-common/src/block.rs:89-119 | a flat copy keeps all coordinates iff the orders agree on the dimensions wider than one, for all permutations and extents |
| `BlockLayout.TransformIffMoved` | crates/kvbm-common/src/block.rs:109-119 | no transform means a flat copy is right for all extents; for extents of two and more, a transform is asked for iff a flat copy is wrong |
| `BlockLayout.TransformCanBeCautious` | crates/kvbm-common/src/block.rs:109-119 | with one head a transform is asked for though a flat copy moves nothing |
| `CopyPlan.NewAnnotated` | crates/kvbm-physical/src/transfer/plan.rs:81-124 | accepted iff ranks agree and there is one region per region-axis coordinate, or one in all; the layout carries what was given |
| `CopyPlan.AddrOf` | crates/kvbm-physical/src/transfer/plan.rs:197-224 | the region base plus the strided offset, with absent axes zero; an error iff the region coordinate is missing or a coordinate is out of range |
| `CopyPlanner.ValidateAxisSlices` | crates/kvbm-physical/src/transfer/plan.rs:610-671 | accepted iff every slice names a shared axis other than the block axis, once, with equal non-empty ranges inside both sides |
| `CopyPlanner.CheckLabels` | crates/kvbm-physical/src/transfer/plan.rs:549-603 | accepted iff both sides have the same labels and, block and sliced axes aside, the same sizes |
| `CopyPlanner.MatchingSuffix` | crates/kvbm-physical/src/transfer/plan.rs:687-719 | the longest suffix of axes eligible for one contiguous copy |
| `CopyPlanner.RegionCapBytes` | crates/kvbm-physical/src/transfer/plan.rs:795-813 | the bytes of one region |
| `CopyPlanner.ComputeInnerBytes` | crates/kvbm-physical/src/transfer/plan.rs:738-786 | how many eligible axes fold under both sides' strides and the region cap, and the bytes they span |
| `CopyPlanner.CapNeverBinds` | crates/kvbm-physical/src/transfer/plan.rs:738-813 | the region cap never shortens a copy: axes that fold always lie within a region on both sides |
| `CopyPlanner.InnerBytesExact` | crates/kvbm-physical/src/transfer/plan.rs:738-786 | so the accepted axes are exactly the innermost ones that are eligible and row-major on both sides |
| `CopyPlanner.BuildOuter` | crates/kvbm-physical/src/transfer/plan.rs:490-523 | the outer axes are the others, in source order, each with its range |
| `CopyEmit.EmitOuter` | crates/kvbm-physical/src/transfer/plan.rs:879-935 | one copy per choice of outer coordinates, in order, and no address lookup fails |
| `CopyEmit.EmitSound` | crates/kvbm-physical/src/transfer/plan.rs:879-935 | every emitted copy belongs to a choice of outer coordinates |
| `CopyEmit.EmitComplete` | crates/kvbm-physical/src/transfer/plan.rs:879-935 | every choice of outer coordinates has its copy |
| `CopyEmit.EmitCount` | crates/kvbm-physical/src/transfer/plan.rs:879-935 | there are as many copies as the walked lengths of the outer axes multiplied |
| `CopyBytes.ChoicesAddressable` | crates/kvbm-physical/src/transfer/plan.rs:197-224 | for accepted requests every outer coordinate has an address on both sides |
| `CopyBytes.EmittedBytes` | crates/kvbm-physical/src/transfer/plan.rs:490-539 | for any two layouts, axis orders, strides, region splits and selections: the emitted copies bring byte x to byte y iff some selected element has its byte there on the two sides |
| `CopyMerge.SortSorts` | crates/kvbm-physical/src/transfer/plan.rs:945 | the sort puts the copies in source order |
| `CopyMerge.SortStable` | crates/kvbm-physical/src/transfer/plan.rs:945 | copies from one source address keep their order |
| `CopyMerge.Coalesce` | crates/kvbm-physical/src/transfer/plan.rs:941-959 | the merged list: a stable sort by source, then one pass joining neighbours |
| `CopyMerge.CoalescedKeeps` | crates/kvbm-physical/src/transfer/plan.rs:941-959 | merging moves exactly the same bytes, with no more copies, and leaves no neighbours that could be joined |
| `CopyMerge.MinimalIff` | crates/kvbm-physical/src/transfer/plan.rs:937-940 | a list of copies is as short as any that moves the same bytes iff every copy moves something and no two touch |
| `CopyMerge.CoalescedMinimalIff` | crates/kvbm-physical/src/transfer/plan.rs:937-959 | merging reaches the smallest number iff no merged copy is empty, as none is when no copy was, and, in source order, copies touch only within unbroken chains |
| `CopyMerge.CoalescedMinimal` | crates/kvbm-physical/src/transfer/plan.rs:937-959 | merging reaches the smallest number when every copy moves something and the copies read disjoint source bytes |
| `CopyMerge.SharedSourceNotMinimal` | crates/kvbm-physical/src/transfer/plan.rs:937-959 | three copies sharing source bytes that stay three though two would do |
| `CopyApart.NestedApart` | crates/kvbm-physical/src/transfer/plan.rs:197-224 | no two elements share a byte when every stride steps over what is inside it and the regions are a region's span apart |
| `CopyApart.RowMajorApart` | crates/kvbm-physical/src/transfer/plan.rs:197-224 | in particular in a row-major tensor |
| `CopyApart.RowMajorRegionsApart` | crates/kvbm-physical/src/transfer/plan.rs:197-224 | and in row-major regions at least a region's size apart |
| `CopyApart.UnambiguousIff` | crates/kvbm-physical/src/transfer/plan.rs:399-423 | between such layouts every destination byte has one selected source byte iff no destination block has two source blocks |
| `CopyApart.EmittedDisjoint` | crates/kvbm-physical/src/transfer/plan.rs:879-935 | copies of distinct source blocks read disjoint bytes, if the source's elements share no byte |
| `CopyPlanner.PlanCopy` | crates/kvbm-physical/src/transfer/plan.rs:377-547 | a plan is made iff the request fits both layouts; it is direct iff its copies reach the threshold, moves exactly the selected bytes iff the innermost axis folds or no block is asked for and else nothing, and is the merged list of its copies where the policy says so; else it has copies of one size, one for every choice of the axes that do not fold, and a batch holds no empty copy and none at all where nothing folds |
| `CopyPlanner.DeliversIff` | crates/kvbm-physical/src/transfer/plan.rs:429-488 | the exact condition, which a caller can check, for a plan to deliver its selection |
| `CopyPlanner.InnermostFoldsIff` | crates/kvbm-physical/src/transfer/plan.rs:687-786 | the condition spelled out: the innermost axis is eligible and both sides store it element by element |
| `CopyPlanner.CopiesIff` | crates/kvbm-physical/src/transfer/plan.rs:490-539 | there is a copy to plan iff some block is asked for |
| `CopyPlanner.CopiesCount` | crates/kvbm-physical/src/transfer/plan.rs:490-539 | one copy per block pair and choice of the axes that do not fold, each of all the bytes of those that do |
| `CopyPlanner.BytesConserved` | crates/kvbm-physical/src/transfer/plan.rs:490-539 | conservation: where the innermost axis folds the planned copies span as many bytes as the selected elements |
| `CopyPlanner.WholeBlocks` | crates/kvbm-physical/src/transfer/plan.rs:429-539 | between row-major tensors with the blocks outermost and nothing sliced, every pair is one copy of a whole block |
| `CopyPlanner.NothingFolds` | crates/kvbm-physical/src/transfer/plan.rs:429-439 | a request that is accepted and selects bytes, and whose plan moves none |
| `CopyResult.PlanPerforms` | crates/kvbm-physical/src/transfer/plan.rs:377-547 | if the destination's elements share no byte and no destination block has two sources, performing a plan, merged or not, gives each selected destination byte its source byte where the innermost axis folds, and leaves every other byte, and every byte where it does not fold |
| `CopyResult.PlanCopiesIff` | crates/kvbm-physical/src/transfer/plan.rs:377-547 | between layouts whose elements share no byte, a plan copies its selection iff no destination block has two sources, and the innermost axis folds or no block is asked for |
| `CopyResult.MergingChangesResult` | crates/kvbm-physical/src/transfer/plan.rs:541-546 | an accepted request with two sources for one block, whose result depends on merging |
| `CopyResult.PlanMinimalIff` | crates/kvbm-physical/src/transfer/plan.rs:541-546 | where the innermost axis folds, a merged plan has as few copies as can be iff, in source order, its copies touch only within unbroken chains; where it does not, iff no block is asked for |
| `CopyResult.PlanMinimal` | crates/kvbm-physical/src/transfer/plan.rs:541-546 | when the source's elements share no byte and no source block is read twice, a merged plan has as few copies as can be iff the innermost axis folds or no block is asked for |
| `CopyResult.BlockAloneNotCopied` | crates/kvbm-physical/src/transfer/plan.rs:429-439 | an accepted request with one source per block and no shared bytes that is not copied, and whose merged plan holds an empty copy |
| `CopyResult.PlanNotMinimal` | crates/kvbm-physical/src/transfer/plan.rs:541-546 | an accepted request whose merged plan has three copies where two would do |
| `CopyOrder.MergePerforms` | crates/kvbm-physical/src/transfer/plan.rs:946-957 | joining neighbours changes nothing in memory, for any list of copies |
| `CopyOrder.HighestDecides` | crates/kvbm-physical/src/transfer/plan.rs:941-959 | in a merged list a byte is decided by the copy whose source address is above that of every other copy covering it |
| `CopyOrder.EmitDecides` | crates/kvbm-physical/src/transfer/plan.rs:879-935 | in the list as emitted, the copy of the last choice of outer coordinates that covers a byte decides it |
| `CopyOrder.LastPairDecides` | crates/kvbm-physical/src/transfer/plan.rs:377-547 | in a plan that is not merged, whose innermost axis folds, into elements that share no byte, the last pair naming a destination block decides every selected byte of it |
| `CopyOrder.HighestPairDecides` | crates/kvbm-physical/src/transfer/plan.rs:541-546 | in a merged one, of the pairs naming the block the one whose source element lies highest does |
| `CopyOrder.MergingKeepsIff` | crates/kvbm-physical/src/transfer/plan.rs:541-546 | merging changes nothing in memory iff nothing folds, the copies are below the threshold, or for every element the last pair naming a block is also the highest, into elements that share no byte |
| `CopyViews.FullView` | crates/kvbm-physical/src/layout/view.rs:111-168 | accepted iff ranks and regions agree |
| `CopyViews.FullViewShowsAll` | crates/kvbm-physical/src/layout/view.rs:111-168 | an accepted full view is a view of its own layout, every axis whole |
| `CopyViews.SliceView` | crates/kvbm-physical/src/layout/view.rs:179-219 | accepted iff the axis is there, not yet sliced, and the window not empty and inside it |
| `CopyViews.SliceShowsWindow` | crates/kvbm-physical/src/layout/view.rs:179-219 | slicing narrows the window of that axis and no other, regions included |
| `CopyViews.InsertKeepsOrder` | crates/kvbm-physical/src/layout/view.rs:205-213 | however axes are sliced one after the other, the slices stay in label order |
| `CopyViews.ShardViewIff` | crates/kvbm-physical/src/layout/view.rs:218-230 | sharding a view is accepted iff the axis is there, not yet sliced and divided by the world, and the rank is in it; it then slices out the shard's window |
| `CopyViews.FromView` | crates/kvbm-physical/src/transfer/plan.rs:142-178 | the projection: every base address moved by the in-tensor starts |
| `CopyViews.ProjectedAddress` | crates/kvbm-physical/src/transfer/plan.rs:127-178 | a projected view addresses the allocation's own elements: a local coordinate has the address of the global coordinate behind it |
| `CopyViews.ViewAddrOf` | crates/kvbm-physical/src/layout/view.rs:324-379 | the view's own address lookup agrees with it, and fails iff a label is missing or out of range |
| `CopyViews.IntersectViews` | crates/kvbm-physical/src/layout/view.rs:402-457 | overlaps exist iff labels and extents agree and the windows meet on every axis, and are one per restricted axis; never an error when labels and extents agree |
| `CopyTransfer.SharedCompatibleIff` | crates/kvbm-physical/src/transfer/plan.rs:345-352 | the planner takes the overlaps of two views iff neither restricts the block axis, element sizes agree and the blocks exist |
| `CopyTransfer.TransferEndToEnd` | crates/kvbm-physical/src/layout/view.rs:381-457 | views intersected, projected and planned: the bytes moved are exactly those of the elements at one global coordinate that both views show, in the two blocks of a pair, iff the innermost axis folds or no block is asked for; else nothing is moved |
| `CopyTransfer.SharedEligibleIff` | crates/kvbm-physical/src/transfer/plan.rs:687-719 | an axis may be part of one copy iff it is in one place on both sides, no block or region axis, and restricted by neither view |
| `CopyTransfer.SlicedInnermostMovesNothing` | crates/kvbm-physical/src/layout/view.rs:179-219 | any layout taken whole and sliced along its innermost axis: the view and itself share bytes of every block, the request is accepted, and nothing is moved |
| `CopyTransfer.ProjectedApart` | crates/kvbm-physical/src/transfer/plan.rs:127-178 | a view's elements share no byte if those of its allocation do not |
| `CopyTransfer.TransferPerforms` | crates/kvbm-physical/src/transfer/plan.rs:345-547 | what a transfer does to the destination allocation, if its elements share no byte and no block has two sources: each byte at a shared coordinate becomes the source's where the innermost axis folds, and every other byte, and every byte where it does not fold, stays |
| `CopyFill.PulledGiven` | crates/kvbm-physical/src/layout/view.rs:10-25 | pulled from many sources that show no coordinate of the destination twice, each with one source per block, into elements that share no byte: a byte becomes that of the one source that gives to it if the innermost axis folds for that source, and else stays |
| `CopyFill.PulledNone` | crates/kvbm-physical/src/layout/view.rs:10-25 | a byte that no source gives to stays |
| `CopyFill.FillsIff` | crates/kvbm-physical/src/layout/view.rs:10-25 | for such sources and destination, every byte a source gives to ends up as that source's, whatever the memories hold, iff the innermost axis folds for every source that meets the destination and gives a block |
| `CopyFill.ShardViewShows` | crates/kvbm-physical/src/layout/view.rs:218-230 | sharding the view of a whole layout shows that shard of the axis and every other axis whole |
| `CopyFill.ShardsFill` | crates/kvbm-physical/src/layout/view.rs:381-457 | pulled from all shards of an axis into any view of elements that share no byte: at every global coordinate the view shows, the destination block holds what the shard owning the coordinate has there, if the innermost axis folds for it, and else what was there |
| `Features.FromLabel` | crates/kvbm-hub/src/protocol.rs:329-338 | the inverse of the label function, and nothing else |
| `Features.LabelTable` | crates/kvbm-hub/src/protocol.rs:329-338 | the five labels, and no other text is one |
| `Features.EnabledIff` | crates/kvbm-hub/src/render.rs:86-91 | enabled means offered by the hub and selectable |
| `Features.BringsIff` | crates/kvbm-hub/src/render.rs:124-155 | a feature brings another iff its first descriptor lists it as a dependency, or implies it and the hub offers it |
| `Features.OutputOrder` | crates/kvbm-hub/src/render.rs:33-38 | the selectable features and their order |
| `Features.Select` | crates/kvbm-hub/src/render.rs:93-122 | fails iff a label is unknown or not enabled; else the requested features, or all enabled ones |
| `Features.Close` | crates/kvbm-hub/src/render.rs:124-155 | the worklist ends with exactly what is reachable, and fails iff a reachable feature has a dependency that is not enabled |
| `Features.ReachableIsLeast` | crates/kvbm-hub/src/render.rs:73-81 | what is reachable is the least set with the selection in it and closed under dependencies and enabled implied features |
| `Features.Dedup` | crates/kvbm-hub/src/render.rs:156-160 | in selectable order each feature appears once |
| `Features.OrderIsUnique` | crates/kvbm-hub/src/render.rs:156-160 | there is only one such list for a set of features |
| `Features.ResolveFeatures` | crates/kvbm-hub/src/render.rs:82-161 | the least closed set in selectable order without repeats; fails iff a label is bad or a reachable feature has a dependency that is not enabled |
| `Json.DeepMerge` | crates/kvbm-config/src/overrides.rs:59-68 | objects merge key by key, anything else is replaced |
| `Json.MergedGet` | crates/kvbm-config/src/overrides.rs:57-68 | what every path reads after a merge, in terms of both values |
| `Json.MergedIdempotent` | crates/kvbm-config/src/overrides.rs:59-68 | merging the same value again changes nothing |
| `Json.SetPath` | crates/kvbm-config/src/overrides.rs:71-89 | the cursor walk sets the path, creating and replacing on the way |
| `Json.SetGet` | crates/kvbm-config/src/overrides.rs:71-89 | the value can be read back iff no last parent was in the way, and otherwise nothing changed |
| `Json.NumberInTheWay` | crates/kvbm-config/src/overrides.rs:76-79 | a value set below a number is dropped |
| `Json.SetFrame` | crates/kvbm-config/src/overrides.rs:71-89 | every diverging path reads as before |
| `Overrides.SplitJoin` | crates/kvbm-config/src/overrides.rs:73 | the pieces of a dotted path join to it again |
| `Overrides.SplitPieces` | crates/kvbm-config/src/overrides.rs:73 | no piece holds a dot |
| `Overrides.SplitOnce` | crates/kvbm-config/src/overrides.rs:40-42 | path and value are what stands before and after the first equals sign |
| `Overrides.Config.Merge` | crates/kvbm-config/src/overrides.rs:59-68 | the configuration becomes the merged value |
| `Overrides.Config.SetDotted` | crates/kvbm-config/src/overrides.rs:71-89 | the configuration becomes the value with the dotted path set |
| `Overrides.Config.ApplyOverrides` | crates/kvbm-config/src/overrides.rs:27-49 | blob, then overrides in order; fails iff the blob is no object or an override lacks a path or an equals sign |
| `Overrides.LastOverrideWins` | crates/kvbm-config/src/overrides.rs:19-49 | an override that later ones diverge from is read back, whatever came before, iff its last parent was not in the way |
| `Overrides.OverrideReads` | crates/kvbm-config/src/overrides.rs:39-55 | after `path=text` and diverging overrides the path reads what the text parses to, or the text itself where it does not parse, and every path below it what that value has there, iff no last parent was in the way; else it reads as before |
| `Render.BuildExtraConfig` | crates/kvbm-hub/src/render.rs:165-214 | built iff a role is given exactly when disagg is effective |
| `Render.BuiltReads` | crates/kvbm-hub/src/render.rs:184-213 | what a built configuration says at each path: the hub's fields, role, sequence length, and the host cache by block count where known and else by size |
| `Render.TuningPrecedence` | crates/kvbm-hub/src/render.rs:49-57 | where no override reaches, the blob wins over the base configuration and that over what was built |
| `Render.OverlayWins` | crates/kvbm-hub/src/render.rs:233-250 | whatever the configuration was, layout, hub address, features and role come out as the hub's |
| `Render.OverlayLeavesFree` | crates/kvbm-hub/src/render.rs:216-232 | every path neither on, above nor below the hub's own paths keeps its value |
| `Render.EffectiveFeatures` | crates/kvbm-hub/src/render.rs:261-273 | the resolved features, without the router unless the role is prefill or it was asked for |
| `Render.EffectiveIff` | crates/kvbm-hub/src/render.rs:262-273 | with the role prefill the router is in iff reachable, with any other or none iff also asked for by its label; every other feature iff reachable |
| `Render.EffectiveDependencies` | crates/kvbm-hub/src/render.rs:262-273 | they hold all their dependencies iff the router was kept or no other reachable feature depends on it |
| `Render.OwnHubDependenciesMet` | crates/kvbm-hub/src/features/disagg/manager.rs:207-220 | with the dependency lists of the repository's managers the effective features hold all their dependencies, for every request and role |
| `Render.RouterDroppedFromUnderDisagg` | crates/kvbm-hub/src/render.rs:262-273 | descriptors, which no manager of the repository declares, and a decode role for which a dependency is left unmet |
| `Render.RenderConfig` | crates/kvbm-hub/src/render.rs:256-297 | for any base configuration, blob and overrides: succeeds iff the features resolve and the one configuration they determine exists and is accepted, and that configuration has the hub's fields |
| `Render.RenderedReads` | crates/kvbm-hub/src/render.rs:216-297 | a configuration is rendered only with a role given exactly when disagg is effective; the hub's fields are the hub's, the given role among them, and every free path reads as the tuning left it |
| `Render.RenderedFields` | crates/kvbm-hub/src/render.rs:233-250 | the hub's fields spelled out: the layout's name, the address, the label of every effective feature in order, and the given role |
| `RenderInstances.DisaggInstance` | crates/kvbm-hub/src/render.rs:261-297 | asked for disagg alone at a hub with the repository's descriptors, a prefill instance lists p2p, disagg and the router, any other role p2p and disagg |
| `Render.RoleIff` | crates/kvbm-hub/src/render.rs:216-297 | a rendered configuration has a role iff disagg is effective or the tuning set one |
| `Render.RoleAbsent` | crates/kvbm-hub/src/render.rs:49-57 | without disagg it has none if base configuration and blob say nothing of one and every override diverges from its path |
| `Render.StrayRole` | crates/kvbm-hub/src/render.rs:233-250 | a hub that offers nothing, no role given and a blob that sets one: the rendered configuration has it |

## Left out

- HTTP, ZMQ, gRPC and velo plumbing, Python bindings and logging: input and output only.
- `BlockRegistry`, block managers, inactive pools, peer registry: the tracker's optional registry handle does not change its events.
- Hash quality and the packing of lineage hashes into 128 bits: hashes are arbitrary functions, and a lineage hash is a record with the fragment widths of `branch_tracker.rs`.
- Memory ordering of the `Relaxed` atomics: the prefill router's atomics are sequentially consistent steps, and its in-flight counter does not wrap.
- Calibration analysis and request resolution: a resolver is any function, results are opaque.
- 64-bit overflow of sizes, strides, offsets and addresses, including the planner's overflow errors: these are natural numbers.
- KvDimStrides constructors, layout signatures and the storage kinds of a view: checks and copies of fields.
- Who asks which shards for which blocks: CopyFill takes the sources, their views and their block pairs as given, each with a memory of its own.
- The permutation a transform plan carries for the kernels, and the kernels: only its copies are modelled.
- CopyEmit.EmitOuter: passes coordinates by value, where the code sets them in place and leaves stale inner entries that are always overwritten before use.
- Json.DeepMerge: works on values, where the code rewrites a uniquely owned tree in place; field order of objects is not kept.
- Json.SetPath: rebuilds the path it walked instead of writing through a mutable cursor, for the same reason.
- CopyResult.PlanPerforms: source and destination are separate memories, here as in CopyOrder, CopyTransfer and CopyFill, so copies whose source overlaps another copy's destination are not covered.
- JSON text, the command line string and its quoting: the parser is a parameter, the rendered result is the configuration value.
- Render.RenderConfig: the figment parsers that validate the result are an arbitrary predicate.
- CopyApart.NestedApart: a sufficient condition; strides that interleave axes without sharing bytes are not covered.
- BranchTracker.KeysMeet: holds by the model's definition of extending a hash, because the packing of hashes into 128 bits is left out.
- Branch tracker: the live count does not wrap at 32 bits; fragment collisions are allowed for and the statements are over keys.

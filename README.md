# OgarX physics core in Dafny

A model of the physics core of OgarX, an agar.io-style game server. The model covers:

- **The JavaScript engine** (`src/physics/engine.js`):
  - the slot allocator `newCell` over a fixed arena of cell records;
  - the per-type entity directory (`counters`, one insertion-ordered set of slot ids per cell type);
  - the delayed kill and spawn queues;
  - `kill` with and without dead-cell replacement;
  - the index buffer written by `updateIndices` and `sortIndices`;
  - the removal bookkeeping of `postResolve`;
  - `splitFromCell`;
  - the mass arithmetic of `distributeCellMass` and of the autosplit;
  - `clamp`, `range` and `randomPoint`.
- **The C kernel** (`src/c/core.c`):
  - the record layout and flag bits;
  - `clear_cell`;
  - the per-tick `update` pass;
  - the heapsort `sort_indices`;
  - the merge-bit rules of `update_player_cells`;
  - the per-cell and per-pair decisions of `resolve`;
  - the item test of `select`.
- **The game's player slots** (`src/game/index.js`): `addHandler`, `removeHandler` and `isFull`.

Files:

- `cells.dfy`: the record layout and constants.
- `directory.dfy`: the sets and their concatenation.
- `engine.dfy`: the `Engine` class, including the allocator, `kill`, the buffers and `postResolve`.
- `kernel_update.dfy`, `kernel_sort.dfy`, `kernel_resolve.dfy`, `kernel_select.dfy`: one file per kernel routine.
- `mass.dfy`: the mass arithmetic.
- `spawn_point.dfy`: the spawn-point arithmetic.
- `game.dfy`: the `Game` class.

Floats are modelled as `real` and the arena as an `array` of records. Slot 0 is never handed out; the allocator and the index buffer both depend on that. A record's address shifted right by five is its slot id, because records are 32 bytes and the arena starts at offset 0. That is why `eatenBy` holds the eater's slot id.

Notes on the code as written:

- In the greedy branch of `distributeCellMass`, the equal shares that fill the remaining free cells can be smaller than the minimum split mass.
- In the low-mass branch of `distributeCellMass`, the pieces returned can also be smaller than the minimum: the loop computes the piece for the doubled count before it stops, and returns that one. A mass of 100 with 16 free cells and a minimum of 30 gives four pieces of 20.
- The call to `update` at `src/physics/engine.js:465-472` passes twelve values, while `src/c/core.c:60-63` declares eleven parameters. The first five line up: `0`, `indicesPtr`, `dt`, `EJECT_MAX_AGE` and `PLAYER_AUTOSPLIT_SIZE`. After that, `decay_multi` receives `DECAY_MIN`, `decay_min` receives `STATIC_DECAY` and `l` receives `DYNAMIC_DECAY`. The box then receives `r = -MAP_HW`, `b = MAP_HW` and `t = -MAP_HH`, and `MAP_HH` is dropped. The model uses `core.c`'s parameters (`UpdateParams`).
- The call to `resolve` at `src/physics/engine.js:555-560` passes eleven values, while `src/c/core.c:288-292` declares ten parameters. The pellet count comes third, so `root` receives it and every later value lands one parameter further on. The model uses `core.c`'s parameters (`ResolveParams`).
- The call to `update_player_cells` at `src/physics/engine.js:483-488` passes sixteen values, while `src/c/core.c:237-240` declares twelve. `lockDir` and the three line coefficients come before `dt`, so `dt` receives `lockDir` and the merge parameters are shifted. The model uses `core.c`'s parameters (`MergeParams`).

## Model

| member | source | states |
|---|---|---|
| PhysicsEngine.Step | src/physics/engine.js:662 | the allocator's next slot stays in 1..limit-1: the successor, wrapping from the last slot back to 1 |
| PhysicsEngine.DistInjective | src/physics/engine.js:661-663 | two slots the same number of probe steps from the start are the same slot |
| PhysicsEngine.Probe | src/physics/engine.js:660-668 | the slot found is the first free one in probe order from the start; giving up after 65536 tries happens only when every slot but 0 holds a live record |
| PhysicsEngine.Engine.NewCell | src/physics/engine.js:653-687 | the limit case refuses and stops the engine exactly when the cell count is at least CELL_LIMIT - 1; running out of tries exits only when every slot but 0 holds a live record; otherwise the first free slot in probe order gets the new record, joins its type's set, becomes the allocator position and is counted when inserted; failures leave the arena, the sets and the count alone; slot 0 stays clear, every set member stays a live record of its set's type, the sets grow by exactly one entry, and the freed slots stay apart from the sets |
| PhysicsEngine.Engine.Place | src/physics/engine.js:670-686 | writing the record to a free slot other than 0 changes that slot only, adds the slot to its type's set, counts it when inserted, and keeps slot 0 clear, the sets typed, the set total within the count and the freed slots apart |
| PhysicsEngine.PlaceKeeps | src/physics/engine.js:670-685 | a live record written to a free slot other than 0 and added to its type's set keeps slot 0 clear, the sets typed and the freed slots apart, and adds one entry to the sets |
| PhysicsEngine.Placed | src/physics/engine.js:670-678 | the placed record is live, with the given type, radius and position |
| Directory.Add | src/physics/engine.js:685 | `Set.add`: adds exactly the id, keeps the set free of duplicates, keeps the old order as a prefix, and grows the set only for a new id |
| Directory.Delete | src/physics/engine.js:570 | `Set.delete`: removes exactly the id, keeps the rest, shrinks the set by one when the id was present, and changes nothing otherwise |
| PhysicsEngine.Engine.DelaySpawn | src/physics/engine.js:437-439 | appends the controller id to the spawn queue; the kill queue, the sets, the count, the allocator and the buffers stay as they were, and so does every engine invariant |
| PhysicsEngine.Engine.DelayKill | src/physics/engine.js:441-444 | appends `[id, replace]` exactly when the controller is alive, and otherwise changes nothing; the spawn queue, the sets, the count, the allocator and the buffers stay as they were, and so does every engine invariant |
| PhysicsEngine.ReplaceRoundEffect | src/physics/engine.js:538-542 | one replacement round zeroes the killed slot, leaves a dead copy of it (same place, size and boost) in the new slot, and changes no other slot |
| PhysicsEngine.ReplacedInv | src/physics/engine.js:536-543 | after any number of rounds, each into a slot that was free: each handled killed cell has its dead copy (same place, size and boost) in its own dead slot; no dead slot is a killed slot still to be handled; the killed cells still to be handled are untouched; a handled killed slot is zero unless a later round put a dead copy there; every other slot is unchanged |
| PhysicsEngine.Engine.KillReplace | src/physics/engine.js:535-548 | `kill(id, true)`: when every round finds a slot, the arena is the rounds' result over the controller's set, each dead copy in a slot that was free, as `ReplacedInv` describes; the dead slots join the dead-cell set and the controller's set is emptied; it fails only when the process exits, or at the first round when the count is at least CELL_LIMIT - 1, then with the engine stopped and the arena and sets unchanged; the queues and the count never change, and slot 0, the sets' types and the count bound are kept |
| PhysicsEngine.Engine.ReplaceAll | src/physics/engine.js:537-542 | the loop over the killed slots: either every slot gets its dead copy in a free slot other than 0, added to the dead-cell set in order, or it stops at the first failure, which leaves everything unchanged unless the process exited |
| PhysicsEngine.Engine.ReplaceOne | src/physics/engine.js:538-542 | one round: a dead copy goes to a slot that was free and joins the dead-cell set, and the victim's record is zeroed; when the count is at the limit the engine stops and nothing else changes; the count is never changed |
| PhysicsEngine.RoundStep | src/physics/engine.js:537-542 | one more round into a free slot extends the state after the earlier rounds: the arena, the dead-cell set and the list of dead slots |
| PhysicsEngine.Engine.ClearKilled | src/physics/engine.js:547 | `counters[id].clear()` after the rounds: the sets are the old ones with the killed set empty and the dead slots added, nothing else changes, and slot 0, the sets' types and the count bound hold again |
| PhysicsEngine.ReplaceMembers | src/physics/engine.js:536-547 | after a complete replacement, slot 0 is still clear and every member of the new sets is a live record of its set's type; the dead copies are dead cells |
| PhysicsEngine.ReplaceTyped | src/physics/engine.js:536-547 | the sets with the killed set emptied and the dead slots added are typed in the arena after the rounds |
| PhysicsEngine.ReplaceTotal | src/physics/engine.js:536-547 | emptying the killed set and adding one dead slot per killed cell does not grow the number of set entries, so the count bound holds though the count is unchanged |
| Directory.AddAllMembers | src/physics/engine.js:537-540 | after the rounds, the dead-cell set holds exactly its old members and the new dead slots, once each |
| PhysicsEngine.Engine.KillRemove | src/physics/engine.js:545-547 | `kill(id, false)` as written: exactly the controller's cells get the REMOVE bit, the set is emptied, so the sets lose that many entries while the count stays; nothing else changes |
| PhysicsEngine.UnlistedNeverFreed | src/physics/engine.js:565-571 | a live slot in no set is never listed by a buffer of set members, so `postResolve` never frees it |
| PhysicsEngine.Engine.KillMark | src/physics/engine.js:545 | the corrected `kill(id, false)`: exactly the controller's cells get the REMOVE bit and stay in its set; the engine invariants hold |
| PhysicsEngine.MarkedFreed | src/physics/engine.js:565-571 | a set member carrying REMOVE, listed by a buffer of every member, is freed by `postResolve` |
| PhysicsEngine.MarkedRemoved | src/physics/engine.js:545 | `cell.remove()` sets the REMOVE bit and no other field or bit |
| PhysicsEngine.WriteLayout | src/physics/engine.js:446-457 | the loop writes the layout: the freed slots, then the sets of types 1 to 255 in type order, then the sentinel 0 |
| PhysicsEngine.LayoutMembers | src/physics/engine.js:446-457 | the sentinel is the buffer's only 0, and a slot is listed exactly when it was freed or belongs to a set of types 1 to 255 |
| PhysicsEngine.Engine.UpdateIndices | src/physics/engine.js:446-462 | the index buffer becomes that layout, with `indices` its length including the sentinel; nothing else changes; while the freed slots are apart from the sets, the buffer is one the kernel's `update` accepts |
| PhysicsEngine.LayoutIndexBuffer | src/physics/engine.js:446-457 | with typed sets and freed slots distinct, live and in no set, the layout's entries before the sentinel are distinct slot ids other than 0 |
| PhysicsEngine.WriteAll | src/physics/engine.js:744-756 | the buffer written by `sortIndices` is every type's set laid end to end in type order |
| Directory.ConcatMembers | src/physics/engine.js:744-751 | a slot is in the concatenation exactly when some set holds it |
| Directory.ConcatNoDup | src/physics/engine.js:744-751 | duplicate-free, pairwise disjoint sets concatenate without duplicates |
| Directory.ReplaceSegment | src/physics/engine.js:758-763 | rearranging one set's segment changes only that stretch of the buffer |
| PhysicsEngine.SortSegments | src/physics/engine.js:758-763 | after the sorting loop, each type's segment holds the same slot ids as its set; the segments of types 0 to 250 are ordered by non-increasing radius; those of 251 to 255 are untouched |
| PhysicsEngine.Engine.SortIndices | src/physics/engine.js:742-767 | the index buffer is the sorted segments plus the sentinel, each segment holding its set's slot ids, the player segments by non-increasing radius; nothing else changes; the buffer lists every set member exactly once |
| PhysicsEngine.SegmentsNoDup | src/physics/engine.js:744-763 | segments that rearrange duplicate-free typed sets lie end to end without duplicates |
| PhysicsEngine.SegmentsMembers | src/physics/engine.js:744-763 | a slot is in the segments exactly when some set holds it |
| KernelSort.SortIndices | src/c/core.c:185-235 | the heapsort leaves the segment a permutation of itself, ordered by non-increasing radius |
| KernelSort.Parent | src/c/core.c:193-201 | C's truncating `(j - 1) / 2`: a child's parent precedes it and the root is its own parent |
| KernelSort.HeapRootMin | src/c/core.c:206-211 | the root of a min-heap on the radius is its smallest entry, so swapping it to the end extends the sorted tail |
| KernelSort.SiftUp | src/c/core.c:191-204 | inserting entry i by swapping it up keeps the first i + 1 entries a min-heap and the segment a permutation |
| KernelSort.BuildHeap | src/c/core.c:190-204 | the build loop makes the whole segment a min-heap, permuted |
| KernelSort.SiftDown | src/c/core.c:214-233 | sifting the swapped-in root down restores the heap over the first i entries, keeps them at least the extracted radius, and leaves the sorted tail alone |
| KernelSort.DrainHeap | src/c/core.c:206-234 | the drain loop leaves the segment sorted by non-increasing radius and permuted |
| PhysicsEngine.Prune | src/physics/engine.js:565-572 | the freed list is exactly the listed entries whose records carry REMOVE, in buffer order; each set loses exactly its freed members; on distinct member entries the freed slots are distinct and the sets lose one entry per freed slot |
| PhysicsEngine.PruneStateStep | src/physics/engine.js:566-571 | one entry of the loop: a flagged entry leaves its set and joins the freed list, any other changes nothing |
| PhysicsEngine.PruneCountStep | src/physics/engine.js:566-571 | on distinct member entries, a flagged entry is still in its set, so freeing it removes exactly one set entry |
| PhysicsEngine.PrunedApart | src/physics/engine.js:565-572 | after pruning the sets stay typed, and each freed slot is a live record in no set |
| Directory.FlaggedMembers | src/physics/engine.js:565-571 | a slot is freed exactly when it is listed and its record carries REMOVE |
| PhysicsEngine.Engine.PostResolve | src/physics/engine.js:562-572 | `removedCells` becomes that list, the sets are pruned, and the cell count drops by the number freed; on the buffer `sortIndices` wrote, the sets stay typed within the count and the freed slots are distinct, live and in no set |
| PhysicsEngine.Engine.SplitFromCell | src/physics/engine.js:602-608 | the parent shrinks to `sqrt(r² - size²)` and is marked updated; a child of its type and radius `size` is placed `PLAYER_SPLIT_DIST` along the boost, in another slot, joins the set and is counted; the two carry the parent's area; `newCell` refuses exactly when the count is at the limit, and when it fails only the parent changed; the queues stay and the engine invariants hold |
| PhysicsEngine.Shrunk | src/physics/engine.js:603-604 | the shrunk parent keeps everything but its radius and gains the UPDATE bit |
| Mass.MonotonePieces | src/physics/engine.js:620-624 | `min(floor(M / splitMin), cellsLeft)` pieces, each of mass `M / (amount + 1)` |
| Mass.SharesLeaveOne | src/physics/engine.js:622-623 | those pieces and the popped cell's remaining share add up to the whole mass |
| Mass.LowMassPiecesAsWritten | src/physics/engine.js:625-630 | the low-mass branch as written: a power of two of at least two pieces, each `M / (amount + 1)`; every doubling it made passed the loop's test (the count before it was within the budget and its piece reached the minimum), and it stops when a piece falls below the minimum or doubling would pass the budget |
| Mass.LowMassOverrun | src/physics/engine.js:625-630 | with one free cell and mass 10 under a minimum of 36, the branch as written returns two pieces |
| Mass.LowMassPieces | src/physics/engine.js:625-630 | the corrected branch never returns more pieces than free cells, and otherwise keeps the same rule: every doubling passed the loop's test, and the loop stopped at the first test that failed |
| Mass.GreedyPieces | src/physics/engine.js:631-643 | the greedy branch: `cellsLeft` pieces summing to half the mass; the pushed pieces halve from M/4, with the last free cell taking the rest; every push passed the loop's test (its share `M / 2^(k+1) / (cellsLeft - k)` reached the minimum), and the loop stopped at the first push whose share fell below it; then equal shares of what is left |
| Mass.PushesPassedStep | src/physics/engine.js:634-641 | a push whose share reaches the minimum extends the run of passed tests by one |
| Mass.PushesDetermined | src/physics/engine.js:634-641 | two runs of the greedy loop whose pushes all passed and that both stopped at a failing test pushed the same number of pieces |
| Mass.Pow2Gap | src/physics/engine.js:626-628 | of two distinct powers of two the larger is at least twice the smaller, so the doubling loop's counts are spaced by doubling |
| Mass.EarlierPassed | src/physics/engine.js:626-628 | if a later doubling passed the low-mass loop's test, every earlier count passed it too |
| Mass.LowMassCountDetermined | src/physics/engine.js:625-630 | two results of the low-mass loop that both satisfy its stop clause and its last-doubling clause have the same count: the contract determines the result |
| Mass.DistributeCellMass | src/physics/engine.js:614-644 | the corrected `distributeCellMass`, with the low-mass branch starting from `min(2, cellsLeft)` pieces: no pieces without free cells, never more pieces than free cells, never more mass than the cell's; the monotone branch gives `MonotonePieces`; the greedy branch gives the halving pieces and equal shares, summing to half the mass; the low-mass branch gives a power of two of equal pieces `M / (n + 1)`, at least two from two free cells, doubled until a piece falls below the minimum or the budget is reached; in both loop branches every earlier test passed, so the count is determined |
| Mass.DistributeCellMassAsWritten | src/physics/engine.js:614-644 | the same with the low-mass branch as written, whose bound on the count holds only from two free cells |
| Mass.AutosplitCount | src/physics/engine.js:504 | `ceil(r² / A²)`, as an integer bounding the quotient from above within one |
| Mass.AutosplitPieces | src/physics/engine.js:504-510 | an oversized cell splits into at least two pieces, each no larger than the autosplit size, which together carry its area |
| SpawnPoint.Clamp | src/physics/engine.js:14 | the result is the value or one of the bounds, within bounds that are in order, and equals the value strictly inside them |
| SpawnPoint.ClampIdempotent | src/physics/engine.js:14 | clamping twice is clamping once, and a value inside is unchanged |
| SpawnPoint.Range | src/physics/engine.js:20 | `range(min, max)` is `u · (max - min) + min` for the random value `u`; its bounds are stated by `RangeBounds` |
| SpawnPoint.RangeBounds | src/physics/engine.js:20 | for a random value in [0, 1), `range(min, max)` lies in [min, max] and below max when min < max |
| SpawnPoint.RandomPoint | src/physics/engine.js:690-700 | the requested bounds of each axis are clamped so that a cell of radius `size` fits, then a point is drawn in them; `RandomPointInside` states where it lands |
| SpawnPoint.RandomPointInside | src/physics/engine.js:690-700 | a point drawn for a cell no larger than the half extents lies at least `size` from every border |
| KernelUpdate.NextAge | src/c/core.c:82 | `age++` on an unsigned 32-bit field wraps to 0 |
| KernelUpdate.BoostStep | src/c/core.c:89-95 | a boosted cell moves a ninth of its boost along its boost vector on both axes, scaled by the tick, and loses that much boost; others stay |
| KernelUpdate.ClampAxis | src/c/core.c:116-137 | the two tests on one axis, in the source's order, bring the centre within bounds that are in order, and leave a centre inside alone |
| KernelUpdate.ClampStep | src/c/core.c:115-137 | the clamp keeps everything but position and boost direction, brings the centre within the box shrunk by half the radius, and leaves a cell already inside alone |
| KernelUpdate.DecayFactor | src/c/core.c:101-103 | the multiplier is `(score - 0.01·decayMin²)·0.00005`, raised to 1 |
| KernelUpdate.TickFlags | src/c/core.c:83-111 | the mask keeps EXIST and MERGE and drops INSIDE and POP; REMOVE, UPDATE and AUTOSPLIT are set exactly under their conditions |
| KernelUpdate.UpdateOne | src/c/core.c:80-139 | one listed record after the main loop's body: boost step, decay, flags and clamp in the source's order; `UpdateOneFlags` and `UpdateOneInBox` state what it keeps and sets |
| KernelUpdate.UpdateOneFlags | src/c/core.c:82-137 | one listed record: same type and eater, age stepped, radius decayed; REMOVE exactly for expired ejected mass, AUTOSPLIT exactly for an oversized player cell, UPDATE exactly when boosted, decayed or clamped |
| KernelUpdate.UpdateOneInBox | src/c/core.c:115-137 | afterwards the centre is within the world box shrunk by half the decayed radius: on the right and bottom always, on the left and top whenever the box is wide enough |
| KernelUpdate.LeadingRemoved | src/c/core.c:68-72 | the run of leading buffer entries whose records carry REMOVE, ending at the first that does not |
| KernelUpdate.ClearFreed | src/c/core.c:65-72 | the clearing loop zeroes exactly that run of records and returns its length, which stops before the sentinel |
| KernelUpdate.CacheStep | src/c/core.c:97-104 | the cached player and multiplier change only for a player cell of a new type, and the multiplier then held is the one the cell's player gets |
| KernelUpdate.UpdateListed | src/c/core.c:76-140 | the main loop writes each listed record's update, with the multiplier of its player, in buffer order |
| KernelUpdate.AppliedAt | src/c/core.c:80-139 | since listed slots are distinct, each listed record ends up as its own update |
| KernelUpdate.Update | src/c/core.c:60-141 | `update` leaves the arena as the clearing loop followed by the main loop, returning early when only the sentinel follows the freed run |
| KernelUpdate.UpdatedFreed | src/c/core.c:68-72 | after `update` the records freed last tick are zero |
| KernelUpdate.UpdatedListed | src/c/core.c:76-140 | after `update` every later listed record is the update of its old value; clearing first does not affect it |
| KernelUpdate.UpdatedUntouched | src/c/core.c:60-141 | after `update` an unlisted slot is unchanged |
| KernelUpdate.ClearCell | src/c/core.c:56-58 | `clear_cell` zeroes one record and no other |
| KernelResolve.StartOf | src/c/core.c:300-314 | a record is skipped exactly when it carries REMOVE, POP or INSIDE; a cell that searches is neither dead nor marked |
| KernelResolve.ResolveStart | src/c/core.c:298-314 | a dead cell older than `removeTick` gets REMOVE and no eater; nothing else changes |
| KernelResolve.LooksOnce | src/c/core.c:340-342 | every pair of distinct cells is looked at from exactly one of its two sides |
| KernelResolve.ActionOf | src/c/core.c:348-372 | a player eats other types and its own cells only to merge; collisions happen only within a type; pellets never act; a virus acts only on ejected mass; a mother cell always eats |
| KernelResolve.CanEat | src/c/core.c:414-416 | the eat test: same type or larger by `eatMulti`, and the distance below `r1 - r2 / eatOverlap`, compared on squares; `RulesOnDistance` relates it to the source's test on the distance |
| KernelResolve.FarApartSound | src/c/core.c:380 | the cheap rejection never drops a pair that overlaps or could eat |
| KernelResolve.RulesOnDistance | src/c/core.c:386-416 | the squared forms used by the model agree with the source's tests on the distance: eat, overlap, and INSIDE with the distance raised to 1 at 0 |
| KernelResolve.Eaten | src/c/core.c:418-423 | the eaten record gets REMOVE and names its eater, except that a virus or mother cell names none |
| KernelResolve.Eater | src/c/core.c:417-439 | the eater takes the combined radius and keeps its type, position, age and eater; a player eating ejected mass gains its share of the mass's boost, and no other eater's boost changes; a virus grown to the maximum size by ejected mass takes the mass's direction |
| KernelResolve.EaterPops | src/c/core.c:433-436 | the eater is marked POP exactly when it ate a virus or mother cell, or is a virus grown to the maximum size by ejected mass; its other bits stay |
| KernelResolve.EatConservesArea | src/c/core.c:417 | eating conserves area |
| KernelResolve.CollideFlags | src/c/core.c:399-411 | a collision marks both records updated, and the other INSIDE exactly when it lies within this one |
| KernelResolve.ResolvePair | src/c/core.c:337-441 | a pair is counted exactly when it gets past the side, skip, table and cheap tests; a successful eat writes eater and eaten; an overlapping collision writes its flags; anything else changes nothing, and no third slot ever changes |
| KernelResolve.RoundF | src/c/core.c:248 | C's `roundf`: the nearest integer, halves away from zero |
| KernelResolve.MergeReady | src/c/core.c:244-265 | the three readiness rules of the merge loop: the new rule, the old rule, and `noMergeDelay` alone without a merge time; `MergeReadyMonotone` and `MergeWaitsForDelay` state its properties |
| KernelResolve.MergeReadyMonotone | src/c/core.c:244-265 | a cell ready to merge stays ready as it ages |
| KernelResolve.MergeWaitsForDelay | src/c/core.c:244-265 | every rule waits longer than `noMergeDelay` |
| KernelResolve.WithMerge | src/c/core.c:250-263 | the MERGE bit is added exactly when the cell is ready, and nothing else changes |
| KernelResolve.WithMergeIdempotent | src/c/core.c:250-263 | setting the merge bit twice is setting it once |
| KernelResolve.UpdateMergeBits | src/c/core.c:242-265 | the merge loop applies that to exactly the listed cells and leaves every other record unchanged |
| KernelSelect.FilterMembers | src/c/core.c:482-492 | the listed ids are exactly the visited cells that pass the box test and are not pellets at most one tick old |
| KernelSelect.Selected | src/c/core.c:485-489 | the per-item test of `select`: the cell's box meets the query rectangle and it is not a pellet at most one tick old |
| KernelSelect.CentreInside | src/c/core.c:485-489 | a cell whose centre lies in the query box is listed unless it is a fresh pellet |
| KernelSelect.FilterMonotone | src/c/core.c:485-489 | a larger query box lists at least as many of the visited cells |
| KernelSelect.Select | src/c/core.c:452-496 | `select` writes exactly that filtered list to the front of the output, returns its length and leaves the rest of the output alone |
| GameServer.CountFull | src/game/index.js:22-23 | with slot 0 never used, at most 249 slots are taken, and exactly 249 only when slots 1 to 249 all are |
| GameServer.CountUpdate | src/game/index.js:25-26 | attaching to a free slot or freeing a held one moves the count by exactly one |
| GameServer.Game.IsFullNeverHolds | src/game/index.js:41 | `isFull` as written (`handles == 250`) can never hold |
| GameServer.Game.NoFreeSlotMeans | src/game/index.js:20-28 | the corrected test `handles == 249` holds exactly when no controller from 1 up is free |
| GameServer.Game.AddHandler | src/game/index.js:19-28 | the error is never reported; an attached handle is ignored; otherwise the lowest free id from 1 is taken, linked both ways and counted; the search runs off the table exactly when no slot is free |
| GameServer.Game.RemoveHandler | src/game/index.js:31-39 | an unattached handle changes nothing; otherwise a kill with replacement is queued for its controller when alive, the slot is freed, the handle detached and the count reduced; the engine changes only its kill queue and keeps its invariants |

## Left out

- The quadtree is not part of this model: `tree.insert`, `remove`, `swap`, `update` and `serialize`. So are the index arithmetic of `query` and of the WebAssembly memory, and `is_safe`.
- The quadtree walks of `resolve` and `select` are left as parameters: the visited ids are an input.
- `getPlayerSpawnPoint`, `getSafeSpawnPoint` and the rest of `updateTree` are left out; they need `is_safe` and the quadtree.
- The movement half of `update_player_cells` is left out; it uses `sqrtf` and `powf`.
- Collision displacement in `resolve` is left out; it needs `sqrtf` of the distance. `ResolvePair` models a collision's flags but not the moved positions.
- The pop branch of `postResolve` is left out: random angles, trigonometry, and virus splitting through `newCell` and `splitFromCell`. Its arithmetic is `DistributeCellMass` and `SplitFromCell`.
- `Math.random()` is a parameter in [0, 1).
- PhysicsEngine.Engine.Valid and the constructor require a `CELL_LIMIT` from 2 to 65536. Slot ids are stored in 16-bit fields (`eatenBy`, the index buffer), and the allocator's 65536 tries stop covering the arena beyond that. The model does not state what a larger limit would do.
- `Math.sqrt` is a parameter: the caller supplies `root` with `root * root` equal to the argument. A negative argument, which gives NaN in the source, is excluded by that requirement.
- Floats are reals: there is no rounding, NaN or infinity. Mass.DistributeCellMass requires `splitMin > 0`; with `splitMin` 0 the source divides by zero and gets `Infinity` or `NaN`, which reals cannot express.
- KernelResolve.ResolvePair requires `eatOverlap != 0`, because the eat test divides by it. In the C code a zero `eatOverlap` makes the eat test false for every pair; the model does not cover that case.
- KernelResolve.CanEat requires `eatOverlap != 0` for the same reason; a zero `eatOverlap`, for which the C eat test is false, is not covered.
- KernelResolve.RulesOnDistance requires `eatOverlap != 0` for the same reason; a zero `eatOverlap` is not covered.
- `process.exit` after 65536 tries is modelled as the `SlotsExhausted` result, which sets the engine's `exited` flag. Nothing is promised about the sets after that, since the process has ended. `console.log` is omitted. `stop()` sets a flag.
- `Cell.js`, `Controller.js` and the event emitter are not part of this model:
  - the cell getters are read as the record's flag bits;
  - `resetFlag` leaves only EXIST set;
  - a controller's `alive` flag is a parameter;
  - the `join` and `leave` events and `handle.onError` are observable only as the `errored` result.
- `PhysicsEngine.Engine.KillReplace` requires a controller type below 251; the source's callers only pass controller ids.
- PhysicsEngine.Engine.KillReplace: at the cell limit the model stops at the first refusal of `newCell` and leaves the arena and the sets unchanged, and `ReplaceAll` and `ReplaceOne` stop the same way. The source instead gets `undefined` from `newCell` and passes it to `tree.swap`. If that call returns, the source zeroes every victim, making no dead copies, and then clears the set. `QuadTree.swap` is not part of this model. After `process.exit` nothing runs, so a failure there promises only that the engine stays valid with its queues and count unchanged.
- PhysicsEngine.Engine.ReplaceAll: at the cell limit it stops at the first refusal of `newCell` and leaves the arena and the sets unchanged; the source passes `undefined` on to `tree.swap`, zeroes every victim without dead copies if that returns, and clears the set.
- PhysicsEngine.Engine.ReplaceOne: at the cell limit it stops at the refusal and leaves the arena unchanged; the source passes `undefined` on to `tree.swap` and zeroes the victim without a dead copy if that returns.
- KernelResolve.Eater: the player's new boost direction after eating ejected mass leaves the boost vector as it was. The source normalises it with `sqrt`, which can divide by zero.
- KernelResolve.ResolvePair: the positions after a collision are not stated.
- GameServer.Game.RemoveHandler: frees the controller's slot on the assumption that `Controller.reset` clears its handle; `Controller.reset` is not part of this model.

## Findings

| source | as written | input that shows it | evidently intended | confidence | as-written member | corrected member |
|---|---|---|---|---|---|---|
| src/game/index.js:41 | `isFull` tests `handles == MAX_PLAYER` (250), but ids start at 1, so at most 249 handles attach; `addHandler` also goes on after `onError` | 249 handles attached and a new one arrives: `isFull` is false, the search reaches `controls[250]`, which is undefined, and reading `.handle` throws | full at `MAX_PLAYER - 1` handles, returning after the error | high (not executed) | GameServer.Game.IsFullNeverHolds | GameServer.Game.NoFreeSlotMeans |
| src/physics/engine.js:625-629 | the low-mass branch of `distributeCellMass` starts from two pieces whatever the budget | one free cell, mass 10, minimum split mass 36: two pieces for one free cell | start from `min(2, cellsLeft)` pieces, so a popped cell never exceeds the player's cell limit | medium (not executed) | Mass.LowMassOverrun | Mass.LowMassPieces |
| src/physics/engine.js:544-547 | `kill(id, false)` marks the controller's cells REMOVE and then clears its set | `WORLD_KILL_OVERSIZE` on and a controller whose score passes the oversize limit: `delayKill(id)` at `src/physics/engine.js:417` queues `replace = false`; the sets no longer hold the marked cells, so the next buffer does not list them and `postResolve` never frees them; they stay live and counted | leave the marked cells in the set, so that `postResolve` frees them and lowers the count | medium (not executed) | PhysicsEngine.Engine.KillRemove, PhysicsEngine.UnlistedNeverFreed | PhysicsEngine.Engine.KillMark, PhysicsEngine.MarkedFreed |

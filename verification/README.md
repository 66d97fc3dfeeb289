# A verified model of the demand-paging simulator

The simulator serves memory accesses of several processes through a memory-management
unit. A page table, an array of physical frames, the page records and a replacement policy
(FIFO, LRU, Clock or Optimal) each hold a view of which page is in which frame. This
project models that unit with every branch of its fault handling and rollback, the four
policies, the page-table/frame integration, the address arithmetic, the executor, the
workload generators and iterators and a whole simulation run, and proves what holds of them
in every reachable state and over every run.

## How it is laid out

State that the program updates in place is modelled by classes (`ReplacementPolicies`,
`PhysicalMemory`, `MemoryManagement`, `Execution`, `Workloads`, `SimulationRun`). Each of
their methods is proved equal, from *any* valid state, to a function on values
(`PolicyModel`, `MemoryModel`, `MmuModel`); the theorems are about those functions, hence
about the classes.

| module | what it is about |
|---|---|
| `Core`, `Entries` | options, sequences without duplicates, page/frame associations |
| `Addresses` | 64-bit address decomposition and construction |
| `Paging` | the theory of demand paging: schedules, Belady's theorem, the competitive bound |
| `PolicyModel`, `ClockTheory`, `OrderTheory`, `FifoTheory` | what the policies do; the second-chance ring; LRU and FIFO as orders; when more frames can hurt FIFO |
| `MemoryModel`, `MmuModel` | page table plus frames; the unit as a state machine |
| `MmuInvariant`, `MmuRuns`, `ReachedUnits` | agreement of the four views and its preservation; any sequence of operations; families of states that operations reach |
| `ServedAccesses` | one access and one registration, field by field |
| `AccessRuns`, `PolicyRuns`, `FifoRuns`, `ClockRuns` | access runs as paging schedules; Belady, competitiveness, inclusion, FIFO's anomaly and bounded eviction for the unit itself |
| `PolicyLaws`, `OptimalCursor`, `SecondChance` | the faults of each policy as a law on the trace; where Optimal's cursor stands; what a reference bit remembers |
| `Counters`, `DirtyEpochs`, `Isolation`, `Rollback`, `ResetEquivalence` | conservation of the counters and of writes, absence of aliasing, rollback, reset |
| `ReplacementPolicies`, `PhysicalMemory`, `MemoryManagement` | the state-changing classes |
| `Execution`, `Workloads`, `Configurations`, `SimulationRun` | executor, generators and iterators, what a configuration asks for, a complete run |

A paging *schedule* (`Paging.Schedule`) is any sequence of resident sets a demand pager
could go through; it knows nothing of the unit, so it is an independent reference for the
fault counts.

## Assumptions and findings

- **Addressability.** The path that loads into a free frame computes `frame * size +
  offset` unchecked (MemoryManagementUnit.cpp:921), while the replacement path checks it
  first (:688). Results that need sane addresses assume `frames * pageSize <= 2^64`. The
  condition is exact over the states operations reach, for isolation
  (`Isolation.IsolationIffAddressable`) and for reported faults
  (`Counters.NoFaultHiddenIff`); `Addresses.ThirdHugeFrameWraps` is a concrete memory in
  which the two paths differ.
- **Fault counts.** The unit counts a fault before it finds that the victim is unusable,
  and the failure result does not report it. Executor and unit then differ, exactly when
  some access met a full memory and a victim that cannot be used
  (`Counters.FaultTotalsAgreeIff`). `Counters.HiddenFault` reaches such an access with FIFO
  in every memory beyond 2^64 bytes.
- **Dirty marks on registration.** Dirty marks and dirty evictions follow the writes of a
  run exactly when no page brings a dirty mark into it (`DirtyEpochs.RunExplainedIff`). The
  results on reset assume clean pages, as the page constructor makes them (Page.cpp:6-16).
- **Registration under the page's own identifier** reports success even when that virtual
  page number is taken, and the page can then never be reached
  (`MmuRuns.RegisteredResolvesIff`, `MmuRuns.SecondPageIsUnreachable`).
- **Rollback** restores memory and page records exactly, but FIFO, LRU and Optimal forget
  the victim's place in their order unless it was the newest, and Clock is never as before
  (`Rollback.RollbackKeepsOrderIff`, `Rollback.OptimalRollbackKeepsOrderIff`,
  `Rollback.ClockRollbackNeverKeeps`). From a consistent state rollback never runs, whatever
  the policy answers (`Rollback.RollbackNeverRuns`).
- **FIFO and more frames.** Exchanging `k` frames for `k'` never costs FIFO a fault,
  whatever it serves, exactly when `k' == k` or `k' >= 2k - 1`
  (`FifoRuns.MoreFramesNeverHurtFifoIff`). For every `k'` between, two units reached by
  registrations serve a trace on which the larger faults once more
  (`FifoRuns.AnomalousUnits`). LRU is safe for all sizes.
- **Mixed workloads with a locality segment.** The validator checks the locality parameters
  only when the whole workload is of that kind (SimulationConfigurationValidator.cpp:53-87),
  while every locality generator does (LocalityWorkload.cpp:44-64). A validated mixed
  configuration can therefore abort (`Configurations.ValidatedMixedAborts`); exactly which do
  is `Configurations.CompletesIff`.
- **Fewer accesses than processes.** A validated configuration that is not mixed aborts
  when some process's share is empty (`Configurations.CompletesIff`).
- **Optimal's cursor.** The header (OptimalPageReplacementPolicy.hpp:258) says the next
  matching occurrence is consumed; the code consumes the current position only, and only if
  it names the accessed page. The model follows the code. Optimality holds when the policy
  is loaded with exactly the trace that is served. The standard simulation supplies none, and
  Optimal then is FIFO: it faults at the same references
  (`PolicyLaws.UnsuppliedOptimalIsFifo`).
- **Accesses to unregistered pages** change nothing, so a run leaves the unit where its
  other accesses alone leave it (`AccessRuns.UnknownAccessesVanish`). Results stated for
  runs of registered pages carry over to all runs by this lemma.

## Model

| member | source | states |
|---|---|---|
| `AccessRuns.OptimalIsOptimal` | src/emmus/algorithms/replacement/OptimalPageReplacementPolicy.cpp:102-197 | Belady's theorem for the unit: from empty memory and loaded with exactly the trace it serves, Optimal faults no more than any demand-paging schedule with the same number of frames |
| `AccessRuns.OptimalBeatsEveryPolicy` | src/emmus/algorithms/replacement/OptimalPageReplacementPolicy.cpp:102-197 | hence no more than a unit with any other policy, of the repository or not, that serves the same pages with as many frames |
| `AccessRuns.OptimalIsFarthestFirst` | src/emmus/algorithms/replacement/OptimalPageReplacementPolicy.cpp:113-183 | such a run drops, at every replacement, a resident page whose next reference is farthest away |
| `AccessRuns.VictimIsFarthest` | src/emmus/algorithms/replacement/OptimalPageReplacementPolicy.cpp:274-300 | the frame Optimal names holds a page whose next use, counted from the cursor, no resident page exceeds |
| `AccessRuns.SupplyPrimes` | src/emmus/algorithms/replacement/OptimalPageReplacementPolicy.cpp:11-19 | supplying the trace about to be served puts any ready unit with Optimal into the state the optimality theorem starts from, without disturbing residency |
| `AccessRuns.CursorFollowsRun` | src/emmus/algorithms/replacement/OptimalPageReplacementPolicy.cpp:303-332 | the cursor equals the number of completed accesses at every step, on hits, loads and replacements alike |
| `OptimalCursor.CursorIsLongestServed` | src/emmus/algorithms/replacement/OptimalPageReplacementPolicy.cpp:303-332 | after any run of served accesses and against any reference sequence, the cursor is the length of the longest beginning of the sequence that is a subsequence of the pages accessed |
| `AccessRuns.CursorReplaces` | src/emmus/memory/mmu/MemoryManagementUnit.cpp:780-854 | the order of notifications on a replacement moves the cursor by exactly one although the page is accessed before it is tracked |
| `AccessRuns.RunIsSchedule` | src/emmus/memory/mmu/MemoryManagementUnit.cpp:120-280 | whatever the policy, the resident sets of a run from empty memory whose accesses all succeed form a demand-paging schedule with the unit's frames |
| `AccessRuns.RunCountsFaults` | src/emmus/memory/mmu/MemoryManagementUnit.cpp:487-489 | the unit's fault counter counts exactly the references to pages that were not resident |
| `AccessRuns.AccessIsDemandStep` | src/emmus/memory/mmu/MemoryManagementUnit.cpp:451-875 | one served access brings in its page only, never exceeds the frames, and reports a fault iff the page was out |
| `AccessRuns.ServedResidency` | src/emmus/memory/mmu/MemoryManagementUnit.cpp:498-875 | a served access leaves residency alone, adds the page, or exchanges it for the page in the frame the policy named |
| `AccessRuns.UnknownAccessesVanish` | src/emmus/memory/mmu/MemoryManagementUnit.cpp:143-187 | any run leaves the unit where the run of its accesses to registered pages leaves it |
| `Paging.BeladyOptimality` | src/emmus/algorithms/replacement/OptimalPageReplacementPolicy.cpp:102-197 | any farthest-first schedule faults no more than any schedule with as many frames |
| `Paging.LeadAfterReference` | src/emmus/algorithms/replacement/OptimalPageReplacementPolicy.cpp:135-174 | the exchange step: what an arbitrary schedule gains on a farthest-first one in soon-used pages it has paid for in faults |
| `Paging.ConservativeIsCompetitive` | src/emmus/algorithms/replacement/LRUPageReplacementPolicy.cpp:65-212 | a pager with at most k faults in every window of at most k distinct pages is within k/(k-h+1) of any schedule with h <= k frames, up to a constant that vanishes for h = k |
| `PolicyRuns.UnitIsCompetitive` | src/emmus/algorithms/replacement/LRUPageReplacementPolicy.cpp:65-212 | with LRU or FIFO and k frames the unit's faults are at most k times those of any schedule with k frames on the whole trace, and within the general ratio for fewer |
| `PolicyRuns.UnitIsConservative` | src/emmus/algorithms/replacement/FIFOPageReplacementPolicy.cpp:9-110 | with LRU or FIFO at most k faults happen in any window of a run that touches at most k distinct pages |
| `PolicyRuns.LruListIsMostRecent` | src/emmus/algorithms/replacement/LRUPageReplacementPolicy.cpp:65-115 | after any run the policy's list is, in order, the last min(k, d) of the d distinct pages by last use |
| `PolicyRuns.MoreFramesNeverHurtLru` | src/emmus/algorithms/replacement/LRUPageReplacementPolicy.cpp:163-212 | a unit with LRU and more frames never faults more on the same pages |
| `PolicyRuns.RunFollows` | src/emmus/memory/mmu/MemoryManagementUnit.cpp:593-854 | on any run the policy's list is the list the textbook LRU or FIFO order reaches |
| `PolicyRuns.AccessOrder` | src/emmus/memory/mmu/MemoryManagementUnit.cpp:780-854 | the notifications of one access amount to one step of the textbook order |
| `OrderTheory.LruHoldsMostRecent` | src/emmus/algorithms/replacement/LRUPageReplacementPolicy.cpp:9-156 | the LRU order with k frames is the last k entries of the stack of all referenced pages |
| `OrderTheory.StackIsByLastUse` | src/emmus/algorithms/replacement/LRUPageReplacementPolicy.cpp:97-114 | that stack holds exactly the referenced pages, strictly ordered by last reference |
| `OrderTheory.LruInclusion` | src/emmus/algorithms/replacement/LRUPageReplacementPolicy.cpp:163-212 | what k frames hold, k' >= k frames hold too, after any trace |
| `OrderTheory.LruMonotone` | src/emmus/algorithms/replacement/LRUPageReplacementPolicy.cpp:163-212 | adding frames never adds LRU faults |
| `OrderTheory.LruConservative` | src/emmus/algorithms/replacement/LRUPageReplacementPolicy.cpp:65-212 | LRU faults at most k times in a window of at most k distinct pages |
| `OrderTheory.FifoConservative` | src/emmus/algorithms/replacement/FIFOPageReplacementPolicy.cpp:9-110 | so does FIFO |
| `FifoTheory.FifoMonotoneIff` | src/emmus/algorithms/replacement/FIFOPageReplacementPolicy.cpp:84-110 | for 1 <= k <= k': FIFO with k' frames faults no more than with k on every trace iff k' = k or k' >= 2k - 1 |
| `FifoTheory.FifoMonotoneWhen` | src/emmus/algorithms/replacement/FIFOPageReplacementPolicy.cpp:9-110 | the safe half, on any trace |
| `FifoTheory.TiedStep` | src/emmus/algorithms/replacement/FIFOPageReplacementPolicy.cpp:9-110 | why: with k' >= 2k - 1 frames the larger memory alone faults only on a page that earlier cost only the smaller one a load, and each such load pays once |
| `FifoTheory.ManyFollow` | src/emmus/algorithms/replacement/FIFOPageReplacementPolicy.cpp:9-110 | with k' frames FIFO faults 2k' + 2 times on the anomaly trace of k and k' |
| `FifoTheory.FewFollow` | src/emmus/algorithms/replacement/FIFOPageReplacementPolicy.cpp:9-110 | with k frames, k < k' < 2k - 1, it faults 2k' + 1 times there |
| `FifoRuns.MoreFramesNeverHurtFifoIff` | src/emmus/memory/mmu/MemoryManagementUnit.cpp:498-598 | for the unit: over all pairs of units with FIFO and k and k' frames, k' <= 2^64, that serve the same trace, the larger never faults more iff k' = k or k' >= 2k - 1 |
| `FifoRuns.AnomalousUnits` | src/emmus/memory/mmu/MemoryManagementUnit.cpp:498-854 | for every k < k' < 2k - 1, two units reached by registrations of which the larger faults once more |
| `ClockTheory.SweepSelects` | src/emmus/algorithms/replacement/ClockPageReplacementPolicy.cpp:130-189 | within one inspection more than a revolution the traversal returns the first clear entry in hand order, or the entry under the hand when none is clear, clears exactly the bits it passed and stops behind the victim, so the fall-through return is unreachable |
| `ClockTheory.RemovalKeepsHandOrder` | src/emmus/algorithms/replacement/ClockPageReplacementPolicy.cpp:64-101 | removal, with its adjustment of the hand, deletes the entry from the ring as read from the hand |
| `ClockTheory.ReplacementShortensReprieve` | src/emmus/algorithms/replacement/ClockPageReplacementPolicy.cpp:9-102 | every replacement that spares an entry decreases a measure of that entry bounded by 4n-2, the new entry going to the vector's end |
| `ClockTheory.ReprieveBound` | src/emmus/algorithms/replacement/ClockPageReplacementPolicy.cpp:130-179 | the measure lies between 1 and 4n-2 |
| `ClockTheory.TouchKeepsReprieve` | src/emmus/algorithms/replacement/ClockPageReplacementPolicy.cpp:34-48 | setting the bit of another entry never raises it |
| `ClockRuns.ClockEvictsUnusedPage` | src/emmus/algorithms/replacement/ClockPageReplacementPolicy.cpp:109-190 | with k frames full, a resident page no access names again is evicted within 4k-2 replacements whatever else is accessed, registered or not |
| `ClockRuns.ClockReplaces` | src/emmus/algorithms/replacement/ClockPageReplacementPolicy.cpp:9-102 | choosing, removing, accessing and loading compose to one replacement on the ring |
| `SecondChance.BitsRememberTouches` | src/emmus/algorithms/replacement/ClockPageReplacementPolicy.cpp:9-48 | at every point of any run of operations a reference bit is set iff its page was loaded or accessed since the hand last passed it |
| `SecondChance.AccessGivesSecondChance` | src/emmus/algorithms/replacement/ClockPageReplacementPolicy.cpp:34-48 | right after an access to a page the policy names its frame only if the bit of every tracked page is set |
| `SecondChance.StepBits` | src/emmus/algorithms/replacement/ClockPageReplacementPolicy.cpp:130-178 | over one operation an entry's bit becomes set if its page is touched, stays if the hand does not pass it, and is clear otherwise |
| `PolicyLaws.RunObeysLaw` | src/emmus/memory/mmu/MemoryManagementUnit.cpp:593-854 | on any run from empty memory the resident sets and the faults are those of the policy's law on the trace: FIFO's order, LRU's order, Clock's ring, and FIFO's order for Optimal without a reference sequence |
| `PolicyLaws.ClockAccessFollows` | src/emmus/algorithms/replacement/ClockPageReplacementPolicy.cpp:9-190 | the notifications of one access make one step of the ring that sets a bit, appends, or replaces the first clear entry from the hand |
| `PolicyLaws.UnsuppliedOptimalIsFifo` | src/emmus/algorithms/replacement/OptimalPageReplacementPolicy.cpp:102-197 | without a reference sequence Optimal holds the same pages as FIFO at every reference and faults as often |
| `PolicyModel.VictimIsTracked` | include/emmus/algorithms/replacement/IPageReplacementPolicy.hpp:78-125 | each policy names a victim iff it tracks anything, the victim is a tracked frame, and it stays tracked until removed |
| `PolicyModel.LoadedTracks` | include/emmus/algorithms/replacement/IPageReplacementPolicy.hpp:78-92 | loading adds exactly the association, and nothing when page or frame is already tracked |
| `PolicyModel.RemovedTracks` | include/emmus/algorithms/replacement/IPageReplacementPolicy.hpp:110-125 | removal takes out exactly the named association |
| `PolicyModel.AccessedTracks` | include/emmus/algorithms/replacement/IPageReplacementPolicy.hpp:95-107 | an access never changes what is tracked |
| `PolicyModel.SweepFinds` | src/emmus/algorithms/replacement/ClockPageReplacementPolicy.cpp:135-189 | the traversal finds a victim as soon as its budget exceeds the number of set bits, changing bits only |
| `PolicyModel.OptimalBreaksTiesByAge` | src/emmus/algorithms/replacement/OptimalPageReplacementPolicy.cpp:154-179 | among entries used equally late the victim is the one resident longest |
| `ReplacementPolicies.FifoPolicy.PageLoaded` | src/emmus/algorithms/replacement/FIFOPageReplacementPolicy.cpp:9-41 | appends in load order, ignoring a page or frame already tracked, and keeps the queue one-to-one |
| `ReplacementPolicies.FifoPolicy.PageRemoved` | src/emmus/algorithms/replacement/FIFOPageReplacementPolicy.cpp:55-77 | erases the exact association only |
| `ReplacementPolicies.FifoPolicy.ChooseVictim` | src/emmus/algorithms/replacement/FIFOPageReplacementPolicy.cpp:84-110 | names the oldest load, counting a replacement |
| `ReplacementPolicies.LruPolicy.PageLoaded` | src/emmus/algorithms/replacement/LRUPageReplacementPolicy.cpp:9-62 | adds the new node to list and both lookup tables, keeping them an exact index |
| `ReplacementPolicies.LruPolicy.PageAccessed` | src/emmus/algorithms/replacement/LRUPageReplacementPolicy.cpp:65-115 | splices the node of an exact association to the end with the lookup tables unchanged and still exact |
| `ReplacementPolicies.LruPolicy.PageRemoved` | src/emmus/algorithms/replacement/LRUPageReplacementPolicy.cpp:118-156 | erases node and both index entries of an exact association |
| `ReplacementPolicies.LruPolicy.ChooseVictim` | src/emmus/algorithms/replacement/LRUPageReplacementPolicy.cpp:163-212 | names the front of the list |
| `ReplacementPolicies.LruPolicy.NodePosition` | src/emmus/algorithms/replacement/LRUPageReplacementPolicy.cpp:70-92 | the node a lookup table yields stands where its association stands in the sequence without duplicates the list refines |
| `ReplacementPolicies.LruPolicy.SpliceKeepsIndex` | src/emmus/algorithms/replacement/LRUPageReplacementPolicy.cpp:97-114 | after a splice the same tables index the list exactly |
| `ReplacementPolicies.LruPolicy.EraseKeepsIndex` | src/emmus/algorithms/replacement/LRUPageReplacementPolicy.cpp:149-155 | after an erase the reduced tables index the list exactly |
| `ReplacementPolicies.ClockPolicy.PageLoaded` | src/emmus/algorithms/replacement/ClockPageReplacementPolicy.cpp:9-31 | appends at the vector's end with the bit set, the hand unmoved |
| `ReplacementPolicies.ClockPolicy.PageRemoved` | src/emmus/algorithms/replacement/ClockPageReplacementPolicy.cpp:51-102 | erases the exact association and adjusts the hand, which stays in range |
| `ReplacementPolicies.ClockPolicy.ChooseVictim` | src/emmus/algorithms/replacement/ClockPageReplacementPolicy.cpp:109-190 | the in-place loop computes the second-chance traversal |
| `ReplacementPolicies.OptimalPolicy.SelectFarthest` | src/emmus/algorithms/replacement/OptimalPageReplacementPolicy.cpp:113-183 | the running comparison of optional next uses selects the entry used farthest away, the earliest of equals |
| `ReplacementPolicies.OptimalPolicy.ChooseVictim` | src/emmus/algorithms/replacement/OptimalPageReplacementPolicy.cpp:102-197 | names that entry's frame, counting a replacement |
| `ReplacementPolicies.OptimalPolicy.PageAccessed` | src/emmus/algorithms/replacement/OptimalPageReplacementPolicy.cpp:51-78 | advances the cursor whether or not the page is tracked, and nothing else |
| `ReplacementPolicies.OptimalPolicy.SetReferenceSequence` | src/emmus/algorithms/replacement/OptimalPageReplacementPolicy.cpp:11-19 | replaces the sequence and rewinds the cursor, residency unchanged |
| `MemoryModel.MapPageAllOrNothing` | src/emmus/memory/mmu/PageTablePhysicalMemoryIntegration.cpp:17-133 | from any state mapping succeeds iff neither side knows the page and a frame is free, takes the lowest free frame, is at once consistent, and otherwise changes neither side |
| `MemoryModel.MapPageLeavesOthers` | src/emmus/memory/mmu/PageTablePhysicalMemoryIntegration.cpp:17-133 | from any state mapping leaves the table entry, the frame and the consistency of every other page as they were |
| `MemoryModel.ReleaseFrameLeavesOthers` | src/emmus/memory/mmu/PageTablePhysicalMemoryIntegration.cpp:202-281 | from any state releasing succeeds iff the table maps the frame's page to it, changes nothing otherwise, leaves that page inconsistent and every other page's entry, frame and consistency as they were |
| `MemoryModel.UnmapIsRelease` | src/emmus/memory/mmu/PageTablePhysicalMemoryIntegration.cpp:136-281 | from any state unmapping a consistently mapped page is releasing its frame, and nothing otherwise; when no page is in two frames it succeeds iff the entry's frame holds the page |
| `MemoryModel.UnmapUndoesMap` | src/emmus/memory/mmu/PageTablePhysicalMemoryIntegration.cpp:17-199 | mapping then unmapping (or releasing the frame) restores both sides, from any state |
| `MemoryModel.EvictedFrameIsReused` | src/emmus/memory/physical/PhysicalMemoryManager.cpp:129-231 | after an eviction from full memory the lowest free frame is the one evicted from |
| `MemoryModel.MapUndoesRelease` | src/emmus/memory/physical/PhysicalMemoryManager.cpp:129-231 | mapping the page just released from full memory restores both sides |
| `MemoryModel.ConsistentIffInverse` | src/emmus/memory/mmu/PageTablePhysicalMemoryIntegration.cpp:354-438 | given that no page is in two frames, the consistency check succeeds iff the table is exactly the inverse of the frame contents |
| `PhysicalMemory.PhysicalMemoryManager.AllocateFrame` | src/emmus/memory/physical/PhysicalMemoryManager.cpp:129-188 | puts the page into the lowest free frame unless it has one already; the counter stays exact and no page gets two frames |
| `PhysicalMemory.PhysicalMemoryManager.ReleaseFrame` | src/emmus/memory/physical/PhysicalMemoryManager.cpp:191-231 | empties an occupied frame and nothing else; the counter stays exact |
| `PhysicalMemory.PhysicalMemoryManager.FindFrameOf` | src/emmus/memory/physical/PhysicalMemoryManager.cpp:234-254 | the lowest frame that holds the page, if any |
| `PhysicalMemory.PhysicalMemoryManager.HasFreeFrame` | src/emmus/memory/physical/PhysicalMemoryManager.cpp:44-47 | the counter comparison decides whether some frame is free |
| `PhysicalMemory.PhysicalMemoryManager.Clear` | src/emmus/memory/physical/PhysicalMemoryManager.cpp:295-306 | every frame empty and the counter zero |
| `PhysicalMemory.Integration.MapPage` | src/emmus/memory/mmu/PageTablePhysicalMemoryIntegration.cpp:17-133 | on the mutable table and frames, the all-or-nothing mapping above; the check of the fresh frame and the insertion with its roll-back are proved never to fail |
| `PhysicalMemory.Integration.UnmapPage` | src/emmus/memory/mmu/PageTablePhysicalMemoryIntegration.cpp:136-199 | likewise unmapping, with the entry's restoration after a failed release proved never to run |
| `PhysicalMemory.Integration.ReleaseFrame` | src/emmus/memory/mmu/PageTablePhysicalMemoryIntegration.cpp:202-281 | likewise releasing |
| `PhysicalMemory.Integration.CheckMapping` | src/emmus/memory/mmu/PageTablePhysicalMemoryIntegration.cpp:298-351 | table and frames name the same frame for the page |
| `PhysicalMemory.Integration.CheckAll` | src/emmus/memory/mmu/PageTablePhysicalMemoryIntegration.cpp:354-438 | returns true iff the page table is exactly the inverse of the frame contents |
| `Addresses.DecomposeUnique` | include/emmus/memory/access/MemoryAccessTypes.hpp:201-221 | page number and offset are the only ones that rebuild the address |
| `Addresses.MakePhysicalAddressExact` | include/emmus/memory/access/MemoryAccessTypes.hpp:239-259 | the guard throws iff frame * size + offset is not representable, and otherwise the address is exact |
| `Addresses.TranslateGuarded` | src/emmus/memory/mmu/MemoryManagementUnit.cpp:688-698 | a guarded address is what the unguarded arithmetic computes |
| `Addresses.InjectiveIffAddressable` | src/emmus/memory/mmu/MemoryManagementUnit.cpp:921-924 | the unguarded arithmetic never sends two locations of a memory to one address iff frames * size <= 2^64 |
| `Addresses.ThirdHugeFrameWraps` | src/emmus/memory/mmu/MemoryManagementUnit.cpp:921-924 | a concrete frame the guard refuses and the unguarded arithmetic sends to frame 0 |
| `Isolation.NoAliasing` | src/emmus/memory/mmu/MemoryManagementUnit.cpp:385-412 | in every consistent state distinct (process, address) pairs on resident pages have distinct physical addresses, across all processes |
| `Isolation.TranslationInBounds` | src/emmus/memory/mmu/MemoryManagementUnit.cpp:904-924 | translation keeps the page offset and stays below frames * pageSize |
| `Isolation.IsolationIffAddressable` | src/emmus/memory/mmu/MemoryManagementUnit.cpp:921-924 | isolation holds in every state operations can reach with k frames iff k * pageSize <= 2^64 |
| `Isolation.SharedAddress` | src/emmus/memory/mmu/MemoryManagementUnit.cpp:498-598 | in every larger memory, a reached state in which two processes share a physical address |
| `Isolation.AccessReportsTranslation` | src/emmus/memory/mmu/MemoryManagementUnit.cpp:939-946 | the address a successful access reports is the translation in force afterwards |
| `MmuInvariant.AccessPreserves` | src/emmus/memory/mmu/MemoryManagementUnit.cpp:120-280 | one access keeps table, frames and page records in agreement whatever the policy answers, and the policy's tracked set too when it is one of the repository's |
| `MmuInvariant.ViewsHaveEqualSize` | src/emmus/memory/mmu/MemoryManagementUnit.cpp:451-946 | where the four views agree, table size, allocated frames, resident pages and tracked associations are equally many |
| `MmuInvariant.AccessSucceedsIff` | src/emmus/memory/mmu/MemoryManagementUnit.cpp:120-875 | an access succeeds iff the process has the page registered and it is resident, or a frame is free, or the policy names a frame whose address is representable |
| `MmuInvariant.AccessIsTotal` | src/emmus/memory/mmu/MemoryManagementUnit.cpp:451-875 | with a policy of the repository, a frame and addressable memory every access to a registered page succeeds, so no rollback happens |
| `MmuInvariant.AccessRefused` | src/emmus/memory/mmu/MemoryManagementUnit.cpp:604-698 | exactly what a refused access reports and leaves behind |
| `MmuInvariant.FailedAccessIsAtomic` | src/emmus/memory/mmu/MemoryManagementUnit.cpp:604-698 | whatever the policy answers, a failed access leaves table, frames, page records, virtual pages and what the policy tracks as they were |
| `MmuInvariant.AccessHits` | src/emmus/memory/mmu/MemoryManagementUnit.cpp:414-449 | the whole new state and result of a hit |
| `MmuInvariant.AccessLoads` | src/emmus/memory/mmu/MemoryManagementUnit.cpp:498-598 | the whole new state and result of a fault served from the lowest free frame |
| `MmuInvariant.AccessReplaces` | src/emmus/memory/mmu/MemoryManagementUnit.cpp:600-874 | the whole new state and result of a replacement: victim out of every view, its marks cleared, the requested page in the same frame, the dirty eviction counted and reported |
| `ServedAccesses.ServedAccess` | src/emmus/memory/mmu/MemoryManagementUnit.cpp:414-946 | in literal fields: a served access leaves its page referenced, and dirty if it wrote or was dirty, in the reported frame; the page it evicts without frame or marks; every other record, frame and table entry as it was; and each field of the result accordingly |
| `ServedAccesses.ResultShape` | src/emmus/memory/mmu/MemoryManagementUnit.cpp:976-990 | from any state a failure reports an error and neither frame, address, replacement nor dirty eviction, and a success frame and address and no error |
| `ServedAccesses.EarlyRefusals` | src/emmus/memory/mmu/MemoryManagementUnit.cpp:136-245 | from any state an access to no page or another process's page changes nothing, and one to a mismatched mapping is only recorded, each with its error |
| `ServedAccesses.VictimRefusals` | src/emmus/memory/mmu/MemoryManagementUnit.cpp:604-698 | from any state a frame that cannot be used leaves everything but the policy's decision as it was, with the error of the first reason |
| `ServedAccesses.ReferencedIffResident` | src/emmus/memory/virtual_memory/Page.cpp:70-100 | at every point of any run, with any policy, exactly the resident pages are referenced, iff that is so at its start and no page is registered with the mark |
| `ServedAccesses.RegisterPageExact` | src/emmus/memory/mmu/MemoryManagementUnit.cpp:22-54 | from any state a page registers under its own identifier iff it is in no frame and neither the unit, the table nor any frame knows it, whether or not its number is free; it is stored as given, its number leads to it if free, nothing else changes |
| `ServedAccesses.RegisterPageAtExact` | src/emmus/memory/mmu/MemoryManagementUnit.cpp:56-118 | under a chosen number iff, besides, the number is free; then it is stored as given, the number leads to it, nothing else changes |
| `MmuRuns.RunsAgree` | src/emmus/memory/mmu/MemoryManagementUnit.cpp:22-323 | in every state of every sequence of registrations, accesses, resets and reference-sequence updates the views agree |
| `MmuRuns.ReachedAgrees` | src/emmus/memory/mmu/MemoryManagementUnit.cpp:22-323 | every state reached from a new unit with a policy of the repository has its four views in agreement |
| `ReachedUnits.TraceIsServed` | src/emmus/memory/mmu/MemoryManagementUnit.cpp:56-118 | every trace is the trace of accesses to a unit reached by registrations |
| `ReachedUnits.CycleReached` | src/emmus/memory/mmu/MemoryManagementUnit.cpp:498-854 | the frames and the queue of FIFO after it filled memory and replaced its way through the frames, in closed form |
| `MmuRuns.RegisteredResolvesIff` | src/emmus/memory/mmu/MemoryManagementUnit.cpp:22-118 | a page registered under a number resolves there; registered under its own identifier it resolves iff that number was free, and otherwise nowhere |
| `MmuRuns.SecondPageIsUnreachable` | src/emmus/memory/mmu/MemoryManagementUnit.cpp:47-53 | a concrete successful registration whose page no access can reach |
| `MmuRuns.ResetIsAsNew` | src/emmus/memory/mmu/MemoryManagementUnit.cpp:282-323 | whatever the order in which reset meets the pages, memory is empty, every registered page out and clean, counters and policy as new |
| `ResetEquivalence.ResetEqualsFresh` | src/emmus/memory/mmu/MemoryManagementUnit.cpp:282-323 | after a reset at any point of any run the unit equals a new one with the run's registrations, so it answers every later operation alike |
| `Counters.RunsBalance` | src/emmus/memory/mmu/MemoryManagementUnit.cpp:856-862 | over every run faults = replacements + allocated frames, dirty evictions <= replacements <= faults, and unit, policy and per-process statistics agree |
| `Counters.FaultsConserved` | src/emmus/memory/mmu/MemoryManagementUnit.cpp:487-489 | after any run from empty memory, refused accesses included, faults - replacements = allocated frames = min(frames, distinct registered pages named) |
| `Counters.SumUpdate` | src/emmus/statistics/PageFaultStatistics.cpp:6-18 | recording for one process changes the sum over all processes by that record only |
| `Counters.ProcessCountersCount` | src/emmus/statistics/PageFaultStatistics.cpp:6-18 | over any run, with any policy, each process's counters grow by the numbers of its own accesses to its pages and of those that met their page out of memory |
| `Counters.ExecutorAgrees` | src/emmus/application/MemoryAccessExecutor.cpp:31-76 | executor totals equal the unit's counters, faults up to exactly those the unit counts and the result does not report |
| `Counters.TallyCountsResults` | src/emmus/application/MemoryAccessExecutor.cpp:43-70 | every total of the executor, successes and failures among them, is the number of results that report it |
| `Counters.FailuresAreUnservable` | src/emmus/application/MemoryAccessExecutor.cpp:48-55 | the accesses that fail are exactly those that meet a state in which their page is not registered to them, or memory is full, the page out and the policy names no usable frame |
| `Counters.SilentFaultIff` | src/emmus/memory/mmu/MemoryManagementUnit.cpp:604-698 | an access hides its fault iff, before it, its page has to be loaded, memory is full and the policy names a frame that cannot be used |
| `Counters.FaultTotalsAgreeIff` | src/emmus/application/MemoryAccessExecutor.cpp:57-60 | over a run the executor's and the unit's fault totals are equal iff no access met that condition |
| `Counters.NoFaultHiddenIff` | src/emmus/memory/mmu/MemoryManagementUnit.cpp:684-698 | over all states reached with k frames and a policy of the repository no fault is hidden iff k * pageSize <= 2^64 |
| `Counters.HiddenFault` | src/emmus/memory/mmu/MemoryManagementUnit.cpp:684-698 | in every larger memory, a reached state and an access whose fault is counted and not reported |
| `Counters.ExecutorServesAll` | src/emmus/application/MemoryAccessExecutor.cpp:48-55 | when every page is registered to its accessor and memory is addressable no access fails |
| `DirtyEpochs.DirtyEpochsConserved` | src/emmus/memory/mmu/MemoryManagementUnit.cpp:858-932 | at every point of any run of operations since a reset, with any policy, refused accesses and registrations included, a page is dirty iff it is resident and was written since its last load, and dirty evictions plus dirty pages equal the residency intervals that contain a write |
| `DirtyEpochs.RunExplainedIff` | src/emmus/memory/virtual_memory/Page.cpp:55-94 | that holds at every point of a run iff no page was dirty at its start and no dirty page was registered during it |
| `DirtyEpochs.AccessExplained` | src/emmus/memory/mmu/MemoryManagementUnit.cpp:120-280 | any access, served or refused and whatever the policy answers, keeps marks and counters explained by the history |
| `Rollback.RollbackInvertsEviction` | src/emmus/memory/mmu/MemoryManagementUnit.cpp:700-782 | evicting from full memory and rolling back gives the original table, frames and records with the victim's marks |
| `Rollback.RestoreVictimExact` | src/emmus/memory/mmu/MemoryManagementUnit.cpp:705-753 | from any state the rollback succeeds iff the victim is unknown and its old frame is the lowest free one, and what it leaves in each case, the one in which another frame is taken and stays taken included |
| `Rollback.FailedReplacementRestores` | src/emmus/memory/mmu/MemoryManagementUnit.cpp:795-850 | whatever makes a replacement fail after the eviction, memory and page records end as they began |
| `Rollback.RollbackKeepsTracking` | src/emmus/memory/mmu/MemoryManagementUnit.cpp:747-749 | the policy tracks the same associations after a rollback |
| `Rollback.RollbackKeepsOrderIff` | src/emmus/memory/mmu/MemoryManagementUnit.cpp:747-749 | FIFO and LRU keep their order iff the victim was their newest entry |
| `Rollback.OptimalRollbackKeepsOrderIff` | src/emmus/algorithms/replacement/OptimalPageReplacementPolicy.cpp:29-95 | so does Optimal, its residency counter having advanced in any case |
| `Rollback.ClockRollbackKeepsRingIff` | src/emmus/algorithms/replacement/ClockPageReplacementPolicy.cpp:9-102 | Clock is as before iff the victim was the vector's last entry with its bit set and the hand elsewhere, or alone |
| `Rollback.ClockRollbackNeverKeeps` | src/emmus/algorithms/replacement/ClockPageReplacementPolicy.cpp:109-190 | for the victim Clock has just chosen that is never so |
| `Rollback.RollbackReports` | src/emmus/memory/mmu/MemoryManagementUnit.cpp:498-850 | whatever the state, an access that rolls back ends with one of six errors |
| `Rollback.RollbackNeverRuns` | src/emmus/memory/mmu/MemoryManagementUnit.cpp:120-875 | from a consistent state no access ends with one of them, whatever the policy answers |
| `MemoryManagement.PageFaultStatistics.RecordPageFault` | src/emmus/statistics/PageFaultStatistics.cpp:13-18 | one more fault for the process and in the total, nothing else |
| `MemoryManagement.MemoryManagementUnit.RegisterPage` | src/emmus/memory/mmu/MemoryManagementUnit.cpp:22-54 | from any state, the registration step of the state machine |
| `MemoryManagement.MemoryManagementUnit.RegisterPageAt` | src/emmus/memory/mmu/MemoryManagementUnit.cpp:56-118 | likewise under a chosen number, undoing the insertion when that number is taken |
| `MemoryManagement.MemoryManagementUnit.Access` | src/emmus/memory/mmu/MemoryManagementUnit.cpp:120-280 | from any state, the access step of the state machine, over all collaborators |
| `MemoryManagement.MemoryManagementUnit.HandlePageFault` | src/emmus/memory/mmu/MemoryManagementUnit.cpp:451-598 | the fault path up to the choice between free frame and replacement |
| `MemoryManagement.MemoryManagementUnit.EvictAndLoad` | src/emmus/memory/mmu/MemoryManagementUnit.cpp:700-875 | eviction, loading and, on failure, rollback |
| `MemoryManagement.MemoryManagementUnit.RestoreVictim` | src/emmus/memory/mmu/MemoryManagementUnit.cpp:705-753 | the rollback with each of its early exits |
| `MemoryManagement.MemoryManagementUnit.Reset` | src/emmus/memory/mmu/MemoryManagementUnit.cpp:282-323 | from any consistent state, in whatever order the pages are met, the unit becomes as new |
| `Execution.MemoryAccessExecutor.Execute` | src/emmus/application/MemoryAccessExecutor.cpp:16-89 | records every access with the unit's result for it, in order; every total is the number of records that report it; replacements and dirty evictions equal what the unit counted, and with registered pages and addressable memory nothing fails |
| `Workloads.GenerateSequential` | src/emmus/simulation/workload/SequentialWorkload.cpp:28-138 | refuses exactly the parameters that do not fit; otherwise access i reads page start + i mod pattern at offset zero |
| `Workloads.GenerateLocality` | src/emmus/simulation/workload/LocalityWorkload.cpp:34-141 | refuses exactly the parameters that do not fit; otherwise all accesses stay in one window of the working set's size inside the address space, and each page is one that can be drawn after the sixteen before it |
| `Workloads.GeneratePageIndex` | src/emmus/simulation/workload/LocalityWorkload.cpp:143-212 | a recent page only with positive temporal strength, a page near the last one, or any page, only when the strengths leave that probability |
| `Workloads.FullTemporalRepeats` | src/emmus/simulation/workload/LocalityWorkload.cpp:162-168 | with temporal strength 1 every access repeats the first |
| `Workloads.FullSpatialSteps` | src/emmus/simulation/workload/LocalityWorkload.cpp:173-186 | with temporal strength 0 and spatial strength 1 every page is within two of its predecessor |
| `Workloads.GenerateSpatialPageIndex` | src/emmus/simulation/workload/LocalityWorkload.cpp:215-240 | a page of the working set at most two from the previous one, from a range that is never empty |
| `Workloads.GenerateRandom` | src/emmus/simulation/workload/RandomWorkload.cpp:21-99 | the configured number of reads, each of a page of the address space |
| `Workloads.FlattenPop` | src/emmus/simulation/workload/MixedWorkload.cpp:44-55 | the next access of a concatenation comes from its first part that is not exhausted |
| `Workloads.MixedWorkload.HasNext` | src/emmus/simulation/workload/MixedWorkload.cpp:30-42 | true iff something is still to come |
| `Workloads.MixedWorkload.NextAccess` | src/emmus/simulation/workload/MixedWorkload.cpp:44-55 | takes the first access still to come off the concatenation of the segments |
| `Workloads.MixedWorkload.Reset` | src/emmus/simulation/workload/MixedWorkload.cpp:57-63 | everything is to come again |
| `Workloads.MultiProcessWorkload.HasNext` | src/emmus/simulation/workload/MultiProcessWorkload.cpp:22-29 | true iff something is still to come; it moves the cursor and nothing that can be observed |
| `Workloads.MultiProcessWorkload.NextAccess` | src/emmus/simulation/workload/MultiProcessWorkload.cpp:31-38 | takes the first access still to come off the concatenation of the children |
| `Workloads.MultiProcessWorkload.Reset` | src/emmus/simulation/workload/MultiProcessWorkload.cpp:40-46 | the same sequence is to come again |
| `Workloads.MultiProcessWorkload.Drain` | src/emmus/simulation/Simulation.cpp:432-435 | draining yields exactly what was still to come, from the beginning the whole concatenation, size() accesses |
| `Configurations.SharesAddUp` | src/emmus/simulation/Simulation.cpp:201-218 | the shares of the processes add up to exactly the configured access count |
| `Configurations.SharesAreEven` | src/emmus/simulation/Simulation.cpp:216-218 | no two shares differ by more than one, and earlier ones are not smaller |
| `Configurations.TotalIsConfiguredIff` | src/emmus/simulation/Simulation.cpp:201-371 | the processes make the configured number of accesses in all iff the workload is not mixed or its segments cover the largest share |
| `SimulationRun.RegisterPages` | src/emmus/simulation/Simulation.cpp:133-161 | fails iff an address space is not representable; otherwise every virtual page of every process is registered, under identifiers that run from 1 through the processes in order |
| `SimulationRun.Generate` | src/emmus/simulation/Simulation.cpp:220-268 | fails iff the kind does not fit; otherwise the workload has the configured length and is of the configured kind: round robin for sequential, reads of the address space for random, one window for locality |
| `SimulationRun.CreateSegments` | src/emmus/simulation/Simulation.cpp:282-371 | fails iff a segment that receives accesses does not fit; otherwise the segments joined are the configured ones in order, each of its kind and length, cut where the share ends |
| `SimulationRun.CreateWorkload` | src/emmus/simulation/Simulation.cpp:171-391 | fails iff some process's workload does not fit; otherwise the accesses are those of each process in turn, of its share and the configured kind, to its own pages |
| `SimulationRun.CreatePolicy` | src/emmus/simulation/Simulation.cpp:55-108 | a new policy of the configured type, with no statistics |
| `Configurations.CompletesIff` | src/emmus/infrastructure/configuration/SimulationConfigurationValidator.cpp:17-140 | a validated configuration completes iff its address space fits 64 bits and, if it is mixed, the locality parameters fit or every locality segment comes after the largest share, and otherwise there are at least as many accesses as processes |
| `Configurations.ValidatedMixedAborts` | src/emmus/infrastructure/configuration/SimulationConfigurationValidator.cpp:53-87 | a concrete validated configuration that aborts |
| `SimulationRun.Simulation.Initialize` | src/emmus/simulation/Simulation.cpp:46-131 | completes exactly for the configurations that fit, whatever the random draws and whatever an earlier run left behind; then the unit is new, over empty memory, with the configured policy and every page registered, and the workload is the configured one |
| `SimulationRun.Simulation.Run` | src/emmus/simulation/Simulation.cpp:403-481 | completes exactly when initialization does; then executes the configured accesses in order, records each with the unit's result and totals the records; with addressable memory none fails, faults - replacements are the allocated frames, and the faults, in all and access by access, are those of the configured policy's law on the pages named |

## Left out

- GUI views, the demo program, the activity log and every rendering of text: presentation only.
- Clocks, durations, rates and averages, and the comparison classes: no integer state depends on them.
- Policy factory, configuration and benchmark objects, enumeration helpers: lookups and getters without state of their own that a run depends on. Of the validator only what a run needs is kept (`Configurations.Validated`).
- mt19937 and the probability distributions: a draw is any value of the stated range. Locality strengths are reals; NaN and infinities are not modelled.
- Overflow of counters, of access counts and of composite sizes beyond 64 bits: they are unbounded here. Addresses and page sizes are 64-bit.
- Hash maps and `std::list` internals: maps, and a list as a sequence of node identities. The nested map of virtual pages is one map keyed by process and number.
- Page and Frame objects are values inside their containers, a frame's identifier being its index; mutation through raw accessors is not modelled.
- Runtime polymorphism: the policy interface is a closed choice of the four policies plus `ForeignPolicy`, any other implementation, represented by the answers it will give. What such a policy tracks or counts internally is not modelled.
- The unit's re-checks of a mapping it has just made (MemoryManagementUnit.cpp:517-563, :810-833): by `MemoryModel.MapPageAllOrNothing` a mapping just made is consistent from any state, so their conditions never arise and the branches are not repeated.
- Workloads of kinds other than generated ones inside the composite iterators: a child is one of the repository's workloads, read from before or not.
- Process states and termination, the page table's in-place update of a mapping, utilization snapshots: no operation of the unit uses them.
- Monotonicity of Clock in the number of frames, and the textbook ring in which a new entry goes behind the hand: the vector appends at its end, so neither is claimed.
- Optimality inside the standard simulation: it supplies no reference sequence to Optimal.
- SimulationRun.Generate: for random workloads any reads of the address space, because a draw is any value of its range.

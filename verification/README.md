# Soundness of the timing analyses

LLVMTA computes bounds on the worst-case execution time of programs. Its answers rest on
abstract domains that must be right about every run of a concrete machine. This project models
those domains in Dafny and proves that they are, and where they are not, exactly when.

| component | files |
|---|---|
| the concrete LRU set | `Lru.dfy` |
| must and may analyses of a set: their meaning as age bounds, sorted lists and merges, the objects with their arrays and vectors | `AgeMaps.dfy`, `Entries.dfy`, `Merging.dfy`, `MustCache.dfy`, `MayCache.dfy`, `Reports.dfy` |
| their product, on values and as an object | `CacheSets.dfy`, `CompositionalCache.dfy` |
| caches of many sets, address intervals | `AddressMapping.dfy`, `AbstractCache.dfy` |
| the worklist iteration over a graph, and when it ends | `GraphIterator.dfy`, `Worklist.dfy`, `LatticeHeight.dfy`, `GraphTermination.dfy`, `VisitOrder.dfy`, `WaitingNode.dfy` |
| dirtiness of a write-back cache | `DirtySets.dfy`, `DirtinessAnalysis.dfy` |
| how much of it all is known, exactly | `Precision.dfy`, `DirtyPrecision.dfy` |
| cache levels shared by cores | `SharedCache.dfy` |
| persistence in nested scopes | `Persistence.dfy`, `PersistenceAnalyses.dfy` |
| bus access bounds and the co-runner iteration | `ArrivalCurve.dfy`, `CoRunner.dfy`, `PathAnalysis.dfy` |
| cycle-accurate memory, and the arbiter before it | `CyclingMemory.dfy`, `Arbiter.dfy` |
| information per calling context | `ContextTree.dfy` |

The concrete set is its history without repetitions, most recent block first; a block is cached
while fewer than `ways` blocks are younger. An abstract state *describes* a concrete one if its
bounds hold there. Where the program updates an object in place, the project has a class with the
same fields and loops, proved against a function; soundness is proved of the functions. What they
claim is also shown to be all they should: block by block what an operation does, and, for accesses to
known blocks, that every claim and report is decided and right (`KnownAccessesAreDecided`,
`NothingInvented`, `PersistentExactly`).

## What the code does not quite promise

* The set interval of an imprecise access reaches every set exactly if the interval is `Covered`;
  the byte test alone is not enough (`ImpreciseUpdateSoundIff`, `UncoveredExample`). The program
  asserts that the ends of the set interval differ, which holds exactly of covered intervals
  (`AssertedIffCovered`); so the unsound update happens with assertions off. Covered intervals reach no
  other sets, except in a cache as large as the address space, where the test says all sets
  (`TouchesExactly`).
* Classifying an interval up to the last line of memory never ends if every line of memory claims
  the same, as in every empty cache, because the line address wraps around (`WrappedLoopGoesOn`,
  `EmptyIsUniform`).
* The worklist queues a node again whenever an edge contributes something *different* from its
  state, not only when that rises. So nodes can queue each other for ever around a cycle of strict
  edges, which contribute less than their target holds. Some order of visits comes to an end exactly
  if the least post-fixpoint has no such cycle (`SomeRunEndsIff`); the run of
  the program, which takes the smallest node first and its successors in ascending order, comes to an
  end exactly if it meets no such cycle among settled nodes within a number of visits that is known
  before (`ProgramEndsIff`). The two differ: there are graphs on which the order of the program
  never ends though others do, because the node that would open the cycle keeps waiting
  (`OrderDecides`).
  Where every loop passes through a node that only one node leads to, as through the body of
  an ordinary loop, all orders end (`PlainLoopsEnd`, with `HeadedLoopEnds` and `LoopNeverEnds` for a
  loop with and without such a body). What is found at the end is the least post-fixpoint
  (`FoundIsLeast`).
* A set assumed empty but not clean breaks the invariants of the dirtiness analysis, and only it
  reaches an assertion marked unreachable (`DirtyInitInvariant`, `BranchReachedIff`).
* A hit assumed for a shared level is harmless exactly for blocks that no other core uses
  (`SharedHitIsOwnHitIff`).
* In shared levels, persistence with one conflict set per cache set counts the foreign blocks of the
  set of address 0, so it is right of exactly that set (`CountsTheRightSetIff`, `SharedSetWiseIff`).
* Upwards, the co-runner iteration ends at a solution exactly if there is one; else it ends all the
  same, because it does not believe an unbounded path analysis: -1 looks like a fall
  (`UpwardsEndsAtLeastSolutionIff`, `UnboundedIsNotBelieved`).
* Downwards, a round is skipped because its blocking bound reaches the execution time, though it may
  tighten the bound on concurrent accesses. The comment there says that nothing is lost. That is so,
  among all other cores, exactly if every path that waits for more accesses than fill its time, and can
  come to be the longest one left, is covered by one that stays with it (`SkippingIsHarmlessIff`, where
  the condition is about the paths alone; `TwoPathsIff` is an instance among programs). For any path
  analysis, the end is a solution exactly if no skipped round loses
  (`DownwardsEndsAtGreatestSolutionIff`).
* Concurrent accesses of one cycle are not counted, which goes unnoticed exactly if nothing ever
  blocks (`CountsAccessesIff`).
* Looking up a context that only longer ones extend fails an assertion (`FindAnalysisInfoEarly`,
  `ExtendedContextFails`).

## Model

| member | source | states |
|---|---|---|
| Lru.TouchAge | include/Memory/LruMaxAgeAbstractCache.h:194-200 | the law of LRU every analysis is compared with: an access gives its block age 0 and ages by one exactly the blocks that were younger |
| Lru.HardwareStep | include/Memory/LruMinAgeAbstractCache.h:41-60 | keeping only the first `ways` blocks of the unbounded history is a run of the real, bounded set |
| Lru.CacheBound | include/Memory/LruMaxAgeAbstractCache.h:62-68 | a set holds at most `ways` blocks, exactly those of age below `ways` |
| AgeMaps.MayUpdatePointwise | include/Memory/LruMinAgeAbstractCache.h:189-291 | what an access does to the lower bound of every block: 0 for the accessed block, one more (capped) for blocks that may have been at most as old, nothing for the rest |
| AgeMaps.MustUpdatePointwise | include/Memory/LruMaxAgeAbstractCache.h:195-269 | what an access does to the upper bound of every block: 0 for the accessed block, one more for blocks with a bound below its, which an assumed hit brings below the associativity, nothing for the rest |
| AgeMaps.MustUpdateSound | include/Memory/LruMaxAgeAbstractCache.h:195-269 | after any access every upper bound still bounds the concrete age, if an assumed hit is one |
| AgeMaps.MayUpdateSound | include/Memory/LruMinAgeAbstractCache.h:189-291 | after any access every lower bound still bounds the concrete age |
| AgeMaps.MustPotentialSound | include/Memory/LruMaxAgeAbstractCache.h:166-190 | after an imprecise access the bounds hold whether or not this set was accessed, whatever the block |
| AgeMaps.MayPotentialSound | include/Memory/LruMinAgeAbstractCache.h:294-358 | the same for lower bounds, for any block of the address range, giving up beyond four tags |
| AgeMaps.MustPotentialPointwise | include/Memory/LruMaxAgeAbstractCache.h:166-190 | an imprecise access adds one to every upper bound, up to the associativity |
| AgeMaps.MayPotentialPointwise | include/Memory/LruMinAgeAbstractCache.h:294-358 | it takes the lower bounds of the range to 0, and all of them if the range has more than four tags |
| AgeMaps.InitSound | include/Memory/LruMinAgeAbstractCache.h:135-138 | the initial states describe the empty set, or any set |
| AgeMaps.InitExact | include/Memory/LruMinAgeAbstractCache.h:135-138 | the initial lower bounds describe just the empty set, or all sets |
| AgeMaps.MustJoinIsLub | include/Memory/LruMaxAgeAbstractCache.h:272-337 | join is the pointwise maximum and the least upper bound, and comparing it with the right operand decides the order |
| AgeMaps.MayJoinIsLub | include/Memory/LruMinAgeAbstractCache.h:361-446 | join is the pointwise minimum of lower bounds and the least upper bound, and comparing it decides the order |
| AgeMaps.LeqSound | include/Memory/LruMaxAgeAbstractCache.h:325-337 | going up in the order loses no concrete set |
| AgeMaps.Pigeonhole | include/Memory/LruMaxAgeAbstractCache.h:155-157 | blocks with a bound are cached; `ways` of them leave no other block in the set |
| AgeMaps.ClassifySound | include/Memory/LruMaxAgeAbstractCache.h:126-159 | without other cores, hit and miss claims of both analyses are facts |
| AgeMaps.MustClassifyIs | include/Memory/LruMaxAgeAbstractCache.h:126-159 | hit exactly if bound and foreign blocks stay below the associativity; miss exactly if they do not, for a listed block, or if listed blocks fill the ways |
| AgeMaps.MayClassifyIs | include/Memory/LruMinAgeAbstractCache.h:142-177 | miss exactly if the lower bound, with the foreign blocks, reaches the associativity, listed or not |
| Entries.SortedIsCanonical | include/Memory/LruMaxAgeAbstractCache.h:60-68 | two sorted lists with the same bounds are the same list, so comparing lists compares bounds |
| Entries.ResortSorted | include/Memory/LruMaxAgeAbstractCache.h:220-262 | ageing the younger entries and re-sorting the age class they merge into keeps the list strictly sorted |
| Entries.ResortAges | include/Memory/LruMaxAgeAbstractCache.h:220-262 | and gives every listed block the age the access law demands |
| Merging.MustMergeIsJoin | include/Memory/LruMaxAgeAbstractCache.h:272-322 | the two-finger merge of sorted lists is tag intersection with the greater age |
| Merging.MayMergeIsUnion | include/Memory/LruMinAgeAbstractCache.h:361-432 | the two-finger merge of sorted vectors is the union with the lesser age |
| MustCache.LruMaxAgeAbstractCache.constructor | include/Memory/LruMaxAgeAbstractCache.h:115-122 | no block has a bound |
| MustCache.LruMaxAgeAbstractCache.Update | include/Memory/LruMaxAgeAbstractCache.h:195-269 | the in-place shift, age and re-sort of the arrays is the update of the bounds, keeps age[i] >= i and strict order, and reports exactly the dropped blocks; a promised hit needs room in the list |
| MustCache.LruMaxAgeAbstractCache.PotentialUpdate | include/Memory/LruMaxAgeAbstractCache.h:166-190 | ages all entries in place and reports exactly those dropped |
| MustCache.LruMaxAgeAbstractCache.Classify | include/Memory/LruMaxAgeAbstractCache.h:126-159 | the claim, with the count of foreign blocks |
| MustCache.LruMaxAgeAbstractCache.GetMaxAge | include/Memory/LruMaxAgeAbstractCache.h:405-410 | the bound of a block |
| MustCache.LruMaxAgeAbstractCache.Join | include/Memory/LruMaxAgeAbstractCache.h:272-322 | the in-place two-finger merge computes the join of the bounds |
| MustCache.LruMaxAgeAbstractCache.LessEqual | include/Memory/LruMaxAgeAbstractCache.h:325-337 | joining a copy and comparing decides the pointwise order |
| MustCache.LruMaxAgeAbstractCache.GetMaxConcreteSubStackSize | include/Memory/LruMaxAgeAbstractCache.h:443-455 | the greatest n, up to the limit, such that the n most recent blocks are known in every set described |
| MustCache.TopKnownIff | include/Memory/LruMaxAgeAbstractCache.h:449-452 | the n most recent blocks are known in all described sets exactly if the n-th bound is n-1 |
| MustCache.JoinReach | include/Memory/LruMaxAgeAbstractCache.h:272-322 | a join never overflows the arrays: no entry falls below its position |
| MustCache.TopAges | include/Memory/LruMaxAgeAbstractCache.h:437-453 | if the n-th bound is n-1, every described set has exactly the first n listed blocks on top |
| MayCache.LruMinAgeAbstractCache.constructor | include/Memory/LruMinAgeAbstractCache.h:135-138 | nothing is listed; unlisted blocks have age 0, or are not cached if the set is assumed empty |
| MayCache.LruMinAgeAbstractCache.Update | include/Memory/LruMinAgeAbstractCache.h:189-291 | the in-place shifts, merges and the implicit age are the update of the bounds; the vector stays sorted with explicit ages below the implicit one; the report names the blocks that can no longer be cached |
| MayCache.LruMinAgeAbstractCache.PotentialUpdate | include/Memory/LruMinAgeAbstractCache.h:294-358 | rejuvenates the blocks of the range in the sorted vector, or gives up and says so |
| MayCache.LruMinAgeAbstractCache.Classify | include/Memory/LruMinAgeAbstractCache.h:142-177 | the claim, with the count of foreign blocks |
| MayCache.LruMinAgeAbstractCache.GetMinAge | include/Memory/LruMinAgeAbstractCache.h:509-514 | the bound of a block |
| MayCache.LruMinAgeAbstractCache.Join | include/Memory/LruMinAgeAbstractCache.h:361-432 | merging the vectors and removing redundant entries is the join of the bounds |
| MayCache.LruMinAgeAbstractCache.LessEqual | include/Memory/LruMinAgeAbstractCache.h:435-446 | joining a copy and comparing decides the pointwise order |
| MayCache.RemoveRedundantTags | include/Memory/LruMinAgeAbstractCache.h:179-185 | drops exactly the tail of entries whose age has reached the implicit age |
| MayCache.UpdateReportIs | include/Memory/LruMinAgeAbstractCache.h:189-291 | block by block: reported evicted is exactly what was listed and has left the cache, and the unlisted blocks if they just did |
| CacheSets.SetUpdateSound | include/Memory/CompositionalAbstractCache.h:146-186 | the combined update describes the set after the access, if what the caller assumes of it is true |
| CacheSets.SetPotentialSound | include/Memory/CompositionalAbstractCache.h:188-213 | the combined imprecise update describes the set before and after |
| CacheSets.SetClassifySound | include/Memory/CompositionalAbstractCache.h:117-124 | combined hit and miss claims are facts |
| CacheSets.SetClassifyIs | include/Memory/CompositionalAbstractCache.h:117-124 | hit exactly where the must analysis claims it, miss exactly where one of the two does |
| CacheSets.SetUpdateIs | include/Memory/CompositionalAbstractCache.h:146-186 | bound by bound: a hit promised from outside, or by the level below for a higher level, lets no known block leave; the own claim changes nothing |
| CacheSets.OwnClaimIsHarmless | include/Memory/CompositionalAbstractCache.h:150-155 | a hit the set assumes by itself names a listed block, so the must list cannot overflow |
| CacheSets.TrueIsAdmissible | include/Memory/CompositionalAbstractCache.h:146-155 | any true assumption can be met by the must list |
| CacheSets.SetJoinIsLub | include/Memory/CompositionalAbstractCache.h:216-225 | the product join is the least upper bound and decides the product order |
| CompositionalCache.CompositionalAbstractCache.Classify | include/Memory/CompositionalAbstractCache.h:117-124 | the claim of the must analysis, or that of the may analysis if it has none |
| CompositionalCache.CompositionalAbstractCache.Update | include/Memory/CompositionalAbstractCache.h:146-186 | both owned analyses are updated, under the assumption or the own claim; with a report asked for, it is the generic one |
| CompositionalCache.CompositionalAbstractCache.PotentialUpdate | include/Memory/CompositionalAbstractCache.h:188-213 | both owned analyses are updated for an imprecise access; with a report asked for, it is the generic one |
| CompositionalCache.CompositionalAbstractCache.Join | include/Memory/CompositionalAbstractCache.h:216-220 | both owned analyses are joined |
| CompositionalCache.CompositionalAbstractCache.LessEqual | include/Memory/CompositionalAbstractCache.h:222-225 | decides the product order |
| AddressMapping.AddressIs | include/Memory/AbstractCache.h:544-552 | tag, set and offset are the digits of an address, and the line address drops the offset |
| Reports.JoinClaimsIsLub | include/Memory/Classification.h:44-47 | two claims join to the least one that both make |
| AddressMapping.IndexInInterval | include/Memory/AbstractCache.h:569-581 | fewer consecutive lines than sets map into the possibly wrapping set interval |
| AddressMapping.CoveredTouches | include/Memory/AbstractCache.h:569-581 | a covered interval touches the set of each of its addresses, on 32-bit arithmetic |
| AddressMapping.UncoveredMisses | include/Memory/AbstractCache.h:569-581 | any other interval leaves out the set of its second line |
| AddressMapping.WrappedTest | include/Memory/AbstractCache.h:574 | where the 32-bit length test overflows the interval still comes out as all sets |
| AddressMapping.TouchesExactly | include/Memory/AbstractCache.h:569-581 | covered intervals touch exactly the sets of their addresses, save that in a cache as large as the address space the test always says all sets |
| AddressMapping.AssertedIffCovered | include/Memory/AbstractCache.h:350-352 | the assertion of imprecise updates, that both ends differ, holds exactly of the covered intervals |
| AbstractCache.CacheUpdateSound | include/Memory/AbstractCache.h:320-386 | updating the sets of a covered interval describes the cache after an access to any of its addresses |
| AbstractCache.ImpreciseUpdateSoundIff | include/Memory/AbstractCache.h:344-367 | an imprecise update is sound for all caches and addresses exactly if the interval is covered: one set, the byte test met, or fewer lines apart than sets |
| AbstractCache.UncoveredExample | include/Memory/AbstractCache.h:574 | an interval the byte test alone does not cover |
| AbstractCache.AllClaimSound | include/Memory/AbstractCache.h:249-270 | a claim about an interval is a fact about each of its addresses |
| AbstractCache.CacheUpdateMonotone | include/Memory/AbstractCache.h:320-386 | of two caches in order, the updates are in order, precise or imprecise, whatever is assumed of the access |
| AbstractCache.CacheJoinIsLub | include/Memory/AbstractCache.h:418-449 | the join of all sets is the least upper bound and decides the order |
| AbstractCache.CacheInitSound | include/Memory/AbstractCache.h:229-235 | the initial cache describes the empty cache, or any cache |
| AbstractCache.AbstractCacheImpl.Classify | include/Memory/AbstractCache.h:249-270 | hit (miss) is claimed only if every line of the interval claims it, and always then, save for the whole address space; on an interval up to the last line the loop wraps around, never ends exactly if all lines of memory claim the same, and else says nothing |
| AbstractCache.WrappedLoopGoesOn | include/Memory/AbstractCache.h:262-268 | for an interval up to the last line, with one claim for all of memory, the loop meets its guard and keeps that claim for ever |
| AbstractCache.EmptyIsUniform | include/Memory/AbstractCache.h:229-268 | the empty cache of every geometry is such a cache |
| AbstractCache.AbstractCacheImpl.Update | include/Memory/AbstractCache.h:320-386 | a precise update of one set, or of the possibly wrapping interval of sets; with a report asked for, it is the generic one |
| AbstractCache.AbstractCacheImpl.UpdateUnknownSets | include/Memory/AbstractCache.h:388-412 | the loop ages exactly the sets of the interval, and joins no reports |
| AbstractCache.AbstractCacheImpl.Join | include/Memory/AbstractCache.h:418-432 | the loop, skipping equal sets, is the join |
| AbstractCache.AbstractCacheImpl.LessEqual | include/Memory/AbstractCache.h:437-449 | the loop, skipping equal sets, decides the order |
| GraphIterator.RunFixpointAnalysis | include/AnalysisFramework/GraphIterator.h:136-271 | the nested loops are a run of visits, as many as allowed unless the worklist empties before |
| GraphIterator.Visit | include/AnalysisFramework/GraphIterator.h:177-268 | one visit passes the state of a node on to all its successors, joining and queueing those that did not have just that state |
| GraphIterator.IterationExplored | include/AnalysisFramework/GraphIterator.h:166-268 | after any number of visits every edge of a node that is not queued has reached its target |
| GraphIterator.CompletedIsExit | include/AnalysisFramework/GraphIterator.h:166-271 | when the worklist is empty, in whatever order nodes were taken, the states are a post-fixpoint, and edges that contribute less than their target holds have an order |
| GraphIterator.EveryRunDescribed | include/AnalysisFramework/GraphIterator.h:166-271 | at the end of every path from node 0 that does not re-enter it, the state describes the cache of every run along it that started empty |
| GraphIterator.EveryClaimTrue | include/AnalysisFramework/GraphIterator.h:166-271 | end to end: every hit and miss claimed at the end of a path happens |
| GraphIterator.EdgeUpdateComposes | include/AnalysisFramework/GraphIterator.h:204-225 | the accesses of an edge take effect in order, and each once |
| Precision.MustClaimsIff | include/Memory/LruMaxAgeAbstractCache.h:126-159 | the must analysis claims a hit exactly if the block is cached in every set it describes, and a miss exactly if it is in none |
| Precision.UpdateKeepsExact | include/Memory/CompositionalAbstractCache.h:146-186 | where both bounds are the age, they are after an access, whatever is assumed of it that is true |
| Precision.PotentialIsReached | include/Memory/LruMaxAgeAbstractCache.h:166-190 | an imprecise access ages no known block more than some access would |
| Precision.KnownAccessesAreDecided | include/Memory/AbstractCache.h:249-386 | after any accesses to known lines from the empty cache, every access is classified, and rightly |
| Precision.StraightPathIsDecided | include/AnalysisFramework/GraphIterator.h:166-271 | so it is at the end of every path of known accesses whose edges contribute all that their targets hold |
| GraphTermination.FoundIsLeast | include/AnalysisFramework/GraphIterator.h:166-271 | a run that empties the worklist, in whatever order it takes nodes, has found the least post-fixpoint of the graph |
| GraphTermination.LeastExists | include/AnalysisFramework/GraphIterator.h:166-271 | every graph has one, and some run reaches it |
| GraphTermination.StableEndsIff | include/AnalysisFramework/GraphIterator.h:245-262 | from a post-fixpoint on, runs in all orders are bounded exactly if no node that strict edges (that contribute less than their target holds) reach from the worklist lies on a cycle of them; otherwise none ends |
| GraphTermination.SomeRunEndsIff | include/AnalysisFramework/GraphIterator.h:166-271 | for every graph: some order of visits empties the worklist exactly if the least post-fixpoint has no cycle of strict edges |
| GraphTermination.CycleNeverEnds | include/AnalysisFramework/GraphIterator.h:245-262 | with such a cycle no run empties the worklist, in any order |
| GraphTermination.PlainLoopsEnd | include/AnalysisFramework/GraphIterator.h:166-271 | if every loop passes through a node that only one node leads to, all runs end, in any order, whatever the cache and the accesses |
| GraphTermination.AcyclicGraphEnds | include/AnalysisFramework/GraphIterator.h:166-271 | if no cycle avoids node 0, all runs end, in any order |
| GraphTermination.LoopNeverEnds | include/AnalysisFramework/GraphIterator.h:245-262 | an instance without an end: a node with another way in that loops on itself with an access |
| GraphTermination.HeadedLoopEnds | include/AnalysisFramework/GraphIterator.h:245-262 | the same loop with a body of its own, an instance with an end |
| VisitOrder.ProgramEndsIff | include/AnalysisFramework/GraphIterator.h:168-200 | for every graph: the run of the program, the smallest node first and its successors in ascending order, comes to an end exactly if it meets no trap within a number of visits fixed before: nodes up to some number that raise each other no more, and a cycle of strict edges among them ahead of the worklist |
| VisitOrder.TraplessIsShort | include/AnalysisFramework/GraphIterator.h:168-200 | with the smallest node first and successors in any order, a run that meets no trap is no longer than that number of visits |
| VisitOrder.TrapNeverEnds | include/AnalysisFramework/GraphIterator.h:168-200 | with the smallest node first and successors in any order, a run that meets a trap never empties the worklist |
| VisitOrder.TrapHolds | include/AnalysisFramework/GraphIterator.h:245-262 | a visit in that order leads from a trap into a trap |
| WaitingNode.OrderDecides | include/AnalysisFramework/GraphIterator.h:168-183 | graphs on which that order never ends and another does, for all caches of two ways or more and any two lines |
| LatticeHeight.RisingFalls | include/AnalysisFramework/GraphIterator.h:252-261 | states of finitely many nodes and blocks that rise lose height, so that they rise finitely often |
| DirtySets.DirtyUpdateInvariant | include/Memory/DirtinessAnalysis.h:105-124 | after a precise access: dirty blocks are in the must analysis, unclean ones may be cached, unlisted ones are unclean only while they may be cached |
| DirtySets.DirtyPotentialInvariant | include/Memory/DirtinessAnalysis.h:268-329 | the same after an imprecise access |
| DirtySets.DirtyJoinInvariant | include/Memory/DirtinessAnalysis.h:332-366 | the same after a join |
| DirtySets.DirtyUpdateSound | include/Memory/DirtinessAnalysis.h:228-266 | after a precise access the state describes the write-back set: dirty is dirty, clean is clean, and unlisted dirty blocks are as old as the implicit age |
| DirtySets.DirtyUpdateReportSound | include/Memory/DirtinessAnalysis.h:235-265 | no write-back and no store to a clean line goes unreported by a precise access |
| DirtySets.DirtyPotentialSound | include/Memory/DirtinessAnalysis.h:268-329 | after an imprecise access the state describes the set, whichever block was accessed |
| DirtySets.DirtyNoAccessSound | include/Memory/DirtinessAnalysis.h:268-329 | and if none was |
| DirtySets.DirtyPotentialReportSound | include/Memory/DirtinessAnalysis.h:268-329 | no write-back and no store to a clean line goes unreported by an imprecise access |
| DirtySets.DirtyJoinIsLub | include/Memory/DirtinessAnalysis.h:332-374 | the join of entries, bounds and flags is the least upper bound and decides the order |
| DirtySets.DirtyLeqSound | include/Memory/DirtinessAnalysis.h:368-374 | going up in that order loses no machine |
| DirtySets.DirtyInitInvariant | include/Memory/DirtinessAnalysis.h:139-143 | the initial state meets the invariants exactly if a set assumed empty is also assumed clean |
| DirtySets.NeverImpossible | include/Memory/DirtinessAnalysis.h:217-219 | under the invariants the assertion for evictions with unlisted dirty blocks is never reached |
| DirtySets.EmptyButNotClean | include/Memory/DirtinessAnalysis.h:139-143 | with any number of ways, loading one block more than that reaches it from an empty set that is not assumed clean |
| DirtySets.BranchReachedIff | include/Memory/DirtinessAnalysis.h:139-219 | some run from the initial state reaches it exactly if the set is assumed empty and not clean |
| DirtySets.NothingUnreported | include/Memory/DirtinessAnalysis.h:228-366 | on every path of accesses, imprecise accesses and joins, all write-backs and all stores to clean lines are reported |
| DirtySets.NothingUnreportedFromTheStart | include/Memory/DirtinessAnalysis.h:139-366 | the same from the initial states |
| DirtySets.DirtyUpdateIs | include/Memory/DirtinessAnalysis.h:228-266 | what is known of each block after an access: clean if it cannot be cached, dirty if stored to, otherwise what was known, a dirty block that may have left being in doubt |
| DirtySets.DirtyUpdateTracks | include/Memory/DirtinessAnalysis.h:177-266 | and which blocks have entries |
| DirtySets.DirtyUpdateReportIs | include/Memory/DirtinessAnalysis.h:157-266 | a write-back is reported exactly if some block that is not certainly clean is not certainly cached; a dirtifying store exactly if a block not certainly dirty is stored to |
| DirtySets.DirtyPotentialIs | include/Memory/DirtinessAnalysis.h:268-329 | what is known of each block after an imprecise access: a store joins dirty to every block of the range, and to all blocks if the range has more than four |
| DirtySets.DirtyPotentialTracks | include/Memory/DirtinessAnalysis.h:268-329 | and which blocks have entries after an imprecise access |
| DirtySets.DirtyPotentialReportIs | include/Memory/DirtinessAnalysis.h:157-329 | when write-backs and dirtifying stores are reported of an imprecise access, exactly |
| DirtyPrecision.NothingInvented | include/Memory/DirtinessAnalysis.h:228-266 | on every path of known accesses from an empty, clean set, write-backs and dirtifying stores are reported exactly where they happen |
| DirtinessAnalysisModule.MergeEntries | include/Memory/DirtinessAnalysis.h:338-358 | the one-pass merge of two ordered maps joins entry with entry, missing ones counting as what their side says of unlisted blocks |
| DirtinessAnalysisModule.DeleteDirtiness | include/Memory/DirtinessAnalysis.h:93-101 | the erasing loop removes exactly the entries of one kind |
| DirtinessAnalysisModule.DirtinessAnalysis.FindDirtyVictim | include/Memory/DirtinessAnalysis.h:157-175 | the loop finds whether some block that is not certainly clean is not certainly cached |
| DirtinessAnalysisModule.DirtinessAnalysis.IncorporateMustMayUpdates | include/Memory/DirtinessAnalysis.h:177-224 | the erasing and weakening loops do exactly what the two reports demand, and the assertion is not reached |
| DirtinessAnalysisModule.DirtinessAnalysis.Update | include/Memory/DirtinessAnalysis.h:228-266 | the object goes from its state to the updated state and reports as specified |
| DirtinessAnalysisModule.DirtinessAnalysis.PotentialUpdate | include/Memory/DirtinessAnalysis.h:268-329 | the same for imprecise accesses, with the loop over the tags of the range |
| DirtinessAnalysisModule.DirtinessAnalysis.Join | include/Memory/DirtinessAnalysis.h:332-366 | the object becomes the join |
| DirtinessAnalysisModule.DirtinessAnalysis.LessEqual | include/Memory/DirtinessAnalysis.h:368-374 | joining a copy and comparing decides the order |
| SharedCache.SharedAge | include/Memory/LruMaxAgeAbstractCache.h:128-151 | in every interleaving the age in the shared set exceeds the age by own accesses by at most the number of foreign blocks |
| SharedCache.SharedHit | include/Memory/LruMaxAgeAbstractCache.h:128-154 | a hit claimed with the foreign blocks added happens in every interleaving |
| SharedCache.SurvivesIff | include/Memory/LruMaxAgeAbstractCache.h:150-153 | a block survives whatever the others do exactly if own and foreign younger blocks together leave it a way |
| SharedCache.SharedHitIsOwnHit | include/Memory/LruMaxAgeAbstractCache.h:195-200 | a hit that happens in the shared set may be assumed of the own history if no other core uses the block |
| SharedCache.BorrowedHit | include/Memory/LruMaxAgeAbstractCache.h:195-200 | of any block that another core uses it may not: loaded there, it hits with no own access |
| SharedCache.SharedHitIsOwnHitIff | include/Memory/LruMaxAgeAbstractCache.h:195-200 | the two together: every hit of a block is one of the own history, whatever happens, exactly if no other core uses the block |
| SharedCache.CountIsEnough | include/Memory/LruMaxAgeAbstractCache.h:131-145 | the count over address lists is at least the number of foreign blocks that conflict |
| SharedCache.CountConflicts | include/Memory/LruMaxAgeAbstractCache.h:131-145 | the nested loops count every address of every function of every other core that lies in the set and is of another block, once each |
| SharedCache.OthersSize | include/Memory/LruMaxAgeAbstractCache.h:131-145 | the count over the joined address lists is the number of such places |
| SharedCache.ForeignAre | include/Memory/LruMaxAgeAbstractCache.h:131-145 | the foreign blocks of a set are those of the addresses that some function of some other core uses |
| SharedCache.SharedClaim | include/Memory/LruMaxAgeAbstractCache.h:126-159 | claim and count together: the claimed hit happens in every interleaving with blocks that functions of other cores use |
| SharedCache.SharedLineClaim | include/Memory/LruMaxAgeAbstractCache.h:126-159 | what is claimed of a line where other cores interfere: a hit exactly if its bound and their competing addresses stay below the associativity |
| SharedCache.EverySharedHitTrue | include/AnalysisFramework/GraphIterator.h:166-271 | end to end for a shared level: a hit claimed at the end of a path happens in every interleaving with the functions of other cores |
| Persistence.UniteIsLub | include/Memory/SetWiseCountingPersistence.h:266-310 | uniting conflict sets is the least upper bound; the order as decided also compares references |
| Persistence.ElementJoinIsLub | include/Memory/ElementWiseCountingPersistence.h:145-170 | the join of per-block conflict sets is the least upper bound |
| Persistence.JoinIsAboveRightIff | include/Memory/ElementWiseCountingPersistence.h:145-170 | as the program decides the order, a join is above its right operand exactly if common blocks have the same reference |
| Persistence.OneReferencePerBlock | include/Memory/AbstractCache.h:336-338 | which they have, as the cache passes line addresses |
| Persistence.ElementUpdateSound | include/Memory/ElementWiseCountingPersistence.h:131-142 | after an access the conflict set of every block accessed since the scope was opened holds all that was accessed after it |
| Persistence.ElementUpdateExact | include/Memory/ElementWiseCountingPersistence.h:131-142 | without joins and imprecise accesses it holds exactly that, or is top if it is too much |
| Persistence.ElementPotentialSound | include/Memory/ElementWiseCountingPersistence.h:118-127 | after an imprecise access too |
| Persistence.PersistentIsCached | include/Memory/ElementWiseCountingPersistence.h:173-184 | a block accessed since the scope was opened and called persistent is cached, also in a shared set |
| Persistence.SetWiseStepsSound | include/Memory/SetWiseCountingPersistence.h:209-303 | accesses and joins keep the conflict set of a whole set a description of the path |
| Persistence.SetWiseIsCached | include/Memory/SetWiseCountingPersistence.h:313-350 | if the conflict set, with the foreign blocks of a shared level, leaves room, every block accessed since the scope was opened is cached, in every interleaving |
| Persistence.NeverWorse | include/Memory/ElementWiseCountingPersistence.h:118-159 | on the same accesses and joins the per-block conflict sets stay inside the per-set one; while that is not top every tracked block is persistent |
| Persistence.AtMostOneMiss | include/Memory/MultiScopePersistence.h:149-265 | on every path, in every instance of every scope, a block misses at most once on accesses called persistent there, for any joins, imprecise accesses and interleavings; a scope is open exactly while it was entered more often than left |
| Persistence.AtMostOneMissAsCounted | include/Memory/MultiScopePersistence.h:149-265 | the same with the counts made from the references and the blocks that the other cores use: if the references are addresses of the set, the scopes called persistent are those the program finds |
| Persistence.PersistentStays | include/Memory/MultiScopePersistence.h:255-265 | at any point a block accessed in the instance and persistent in its scope is cached |
| Persistence.PersistentExactly | include/Memory/MultiScopePersistence.h:149-265 | on paths of known accesses without joins, a block is persistent exactly in the open scopes in which it was accessed, if it is still cached |
| Persistence.SetWiseExactly | include/Memory/SetWiseCountingPersistence.h:240-263 | after known accesses the conflict set of a whole set is all blocks accessed, or top if they are too many |
| Persistence.EntriesAreBalance | include/Memory/MultiScopePersistence.h:225-253 | the entries counted for a scope are its enters less its leaves |
| Persistence.LeaveUndoesEnter | include/Memory/MultiScopePersistence.h:225-253 | leaving what has just been entered changes nothing |
| Persistence.ScopesJoinIsLub | include/Memory/MultiScopePersistence.h:174-196 | the join of all scopes is the least upper bound |
| Persistence.CountsTheRightSetIff | include/Memory/SetWiseCountingPersistence.h:316-337 | the foreign blocks counted are enough for a cache set, whatever the others use, exactly if the reference lies in that set |
| Persistence.SharedSetWiseIsUnsound | include/Memory/SetWiseCountingPersistence.h:316-337 | in every set but that of its reference, a conflict set calls a block persistent that another core evicts |
| Persistence.SharedSetWiseIff | include/Memory/SetWiseCountingPersistence.h:313-350 | for all caches: every block called persistent by conflict sets of a shared set is cached in every interleaving exactly if the reference lies in the set (a whole set has reference 0, lines 191-196) |
| PersistenceAnalyses.SetWiseCountingPersistence.Update | include/Memory/SetWiseCountingPersistence.h:240-263 | inserts the block, and gives up when the set overflows |
| PersistenceAnalyses.SetWiseCountingPersistence.PotentialUpdate | include/Memory/SetWiseCountingPersistence.h:209-221 | gives up |
| PersistenceAnalyses.SetWiseCountingPersistence.Join | include/Memory/SetWiseCountingPersistence.h:266-303 | unites, and gives up when the set overflows |
| PersistenceAnalyses.SetWiseCountingPersistence.LessEqual | include/Memory/SetWiseCountingPersistence.h:305-310 | joins a copy and compares, references included |
| PersistenceAnalyses.SetWiseCountingPersistence.IsPersistent | include/Memory/SetWiseCountingPersistence.h:312-350 | whether the conflict set, with the foreign blocks of a shared level, fits the ways |
| PersistenceAnalyses.ElementWiseCountingPersistence.Update | include/Memory/ElementWiseCountingPersistence.h:131-142 | the accessed block starts a fresh conflict set, then every conflict set takes the block in |
| PersistenceAnalyses.ElementWiseCountingPersistence.PotentialUpdate | include/Memory/ElementWiseCountingPersistence.h:118-127 | every conflict set gives up |
| PersistenceAnalyses.ElementWiseCountingPersistence.Join | include/Memory/ElementWiseCountingPersistence.h:145-159 | common blocks are united, blocks of the other side copied |
| PersistenceAnalyses.ElementWiseCountingPersistence.LessEqual | include/Memory/ElementWiseCountingPersistence.h:161-170 | every block of this side is in the other with a conflict set in order |
| PersistenceAnalyses.MultiScopePersistence.EnterScope | include/Memory/MultiScopePersistence.h:225-238 | opens a scope, or counts another entry |
| PersistenceAnalyses.MultiScopePersistence.LeaveScope | include/Memory/MultiScopePersistence.h:240-253 | counts down, or closes the scope |
| PersistenceAnalyses.MultiScopePersistence.Update | include/Memory/MultiScopePersistence.h:162-171 | all open scopes see the access |
| PersistenceAnalyses.MultiScopePersistence.PotentialUpdate | include/Memory/MultiScopePersistence.h:149-158 | all open scopes see the imprecise access |
| PersistenceAnalyses.MultiScopePersistence.Join | include/Memory/MultiScopePersistence.h:174-196 | scope by scope, for the same open scopes |
| PersistenceAnalyses.MultiScopePersistence.GetPersistentScopes | include/Memory/MultiScopePersistence.h:256-265 | exactly the open scopes whose conflict set of the block, with the foreign blocks of the set of its reference in a shared level, fits the ways |
| ArrivalCurve.CyclesAround | include/LLVMPasses/DispatchPathAnalysis.h:1291-1315 | with j complete runs inside an interval, its ends share what they leave of it |
| ArrivalCurve.CurveBounds | include/LLVMPasses/DispatchPathAnalysis.h:1271-1319 | the value bounds the access cycles in every interval of its length, in every schedule of runs |
| ArrivalCurve.CurveIsReached | include/LLVMPasses/DispatchPathAnalysis.h:1271-1319 | and some schedule reaches it: the bound is exact |
| ArrivalCurve.CurveGrows | include/LLVMPasses/DispatchPathAnalysis.h:1271-1319 | the value never falls with the length, grows by at most one per time unit and never exceeds the time |
| ArrivalCurve.AccessCycles.MaxAccessCyclesPer | include/LLVMPasses/DispatchPathAnalysis.h:1699-1720 | the cached function gives the value, no bound for no bound, and the time itself if asked to use no values |
| CoRunner.BlockingFacts | include/LLVMPasses/DispatchPathAnalysis.h:1881-1931 | blocking and access sums stay within what the microarchitectural analysis assumes anyway |
| CoRunner.RoundingFacts | include/LLVMPasses/DispatchPathAnalysis.h:1924-1930 | rounding to whole accesses loses no cycle and adds less than one access per core, if there is one |
| CoRunner.UnboundedAccesses | include/LLVMPasses/DispatchPathAnalysis.h:1886-1931 | without a bound on the accesses the sum is negative |
| CoRunner.SumsAreMonotone | include/LLVMPasses/DispatchPathAnalysis.h:1915-1931 | more bus cycles of the others mean no less blocking, and equal blocking means equal accesses |
| CoRunner.NeverRises | include/LLVMPasses/DispatchPathAnalysis.h:2341-2405 | downwards execution time and blocking bounds never rise |
| CoRunner.DownwardsRoundIs | include/LLVMPasses/DispatchPathAnalysis.h:1946-1983 | downwards a round brings the execution time of the new bounds, unless the bound on blocking has not fallen, reaches the execution time, or is all there can be |
| CoRunner.WorthwhileIff | include/LLVMPasses/DispatchPathAnalysis.h:1933-1983 | a path analysis is made upwards exactly if the blocking bound rose, downwards exactly if it fell, below the execution time and below all there can be |
| CoRunner.StaysAbove | include/LLVMPasses/DispatchPathAnalysis.h:2341-2405 | downwards the iteration stays above every time that is consistent with the interference it implies |
| CoRunner.NeverFalls | include/LLVMPasses/DispatchPathAnalysis.h:2341-2407 | upwards both bounds never fall, and blocking stays below the most there can be |
| CoRunner.StaysBelow | include/LLVMPasses/DispatchPathAnalysis.h:2341-2407 | upwards the iteration stays below every time that covers the interference it implies |
| CoRunner.UpwardsEndsAtLeastSolutionIff | include/LLVMPasses/DispatchPathAnalysis.h:2376-2423 | upwards a round without change has reached a solution exactly if some time covers the interference it implies, and then the least |
| CoRunner.BoundedIsSolvable | include/LLVMPasses/DispatchPathAnalysis.h:2376-2423 | as it does if the path analysis is bounded at the most blocking and accesses there can be |
| CoRunner.DownwardsEndsAtGreatestSolutionIff | include/LLVMPasses/DispatchPathAnalysis.h:1966-1978 | for any monotone path analysis: downwards a round without change has reached a solution, and the greatest, exactly if no skipped round would have lowered the execution time |
| CoRunner.IdleDownwardsEnd | include/LLVMPasses/DispatchPathAnalysis.h:1966-1978 | which holds of every core whose path analysis gives nothing better for whole accesses that reach its result, or all there can be, than for the bounds in force: none, or those of a round that was not skipped |
| CoRunner.BoundsInForce | include/LLVMPasses/DispatchPathAnalysis.h:1946-1983 | the bounds in force where a lower blocking bound is skipped are none, or those of a round that was not: blocking below the first execution time, and no more accesses than blocked cycles |
| PathAnalysis.PathEnumerationIsMonotone | include/LLVMPasses/DispatchPathAnalysis.h:2019-2036 | the longest path under bounds on blocking and accesses is monotone in the bounds |
| PathAnalysis.CoresAreValid | include/LLVMPasses/DispatchPathAnalysis.h:1881-2036 | a core made of such paths, under bounds on blocking and on accesses, and of arrival curves meets all the iteration assumes |
| PathAnalysis.SpaciousEndsAtGreatestSolution | include/LLVMPasses/DispatchPathAnalysis.h:1966-2012 | with both constraints, and among any curves: if every crowded path (more accesses than fill its time) that can come to be the longest left is covered by one that is left with it and is longer, or as long and not crowded, every downward end is the greatest solution |
| PathAnalysis.CrowdedLoses | include/LLVMPasses/DispatchPathAnalysis.h:1966-2012 | if all longest paths are crowded, some other programs make the first round an end that is not the greatest solution: skipped, although it would exclude these paths |
| PathAnalysis.UncoveredLoses | include/LLVMPasses/DispatchPathAnalysis.h:1966-2012 | if a crowded path that can come to be the longest left is not covered, some other cores make the second round such an end |
| PathAnalysis.SkippingIsHarmlessIff | include/LLVMPasses/DispatchPathAnalysis.h:1966-2012 | for all paths: every downward end, among all other cores, is the greatest solution exactly if the crowded paths that can come to be the longest left are covered |
| PathAnalysis.TwoPathsIff | include/LLVMPasses/DispatchPathAnalysis.h:1966-2012 | of an undisturbed path and a longer one, among other programs: exactly if the longer one needs no more accesses than fill its time |
| PathAnalysis.UnboundedIsNotBelieved | include/LLVMPasses/DispatchPathAnalysis.h:2376-2400 | a core that meets all assumptions without a solution: the unbounded path analysis is not believed, as -1 looks like a fall |
| PathAnalysis.ArrivalCurvesAreMonotone | include/LLVMPasses/DispatchPathAnalysis.h:1699-1720 | arrival curves, as functions of all times and of none, meet what the iteration assumes of them |
| PathAnalysis.CurveOfIsExact | include/LLVMPasses/DispatchPathAnalysis.h:1271-1319 | the curve the others see is the most access cycles of any schedule, and some schedule has as many |
| PathAnalysis.CoreAnalysis.CalcBlockingBound | include/LLVMPasses/DispatchPathAnalysis.h:1881-1983 | the loop sums the contributions of the other cores and decides whether a path analysis is worthwhile |
| PathAnalysis.CoreAnalysis.Iteration | include/LLVMPasses/DispatchPathAnalysis.h:2341-2409 | the loop body is one round on the variables of a core |
| PathAnalysis.AnalyseAll | include/LLVMPasses/DispatchPathAnalysis.h:2341-2423 | the loop of all cores ends, in both directions, with no core changed and each where its own iteration is |
| CyclingMemory.CompletionTimes | include/Memory/BlockingCyclingMemory.h:239-265 | the completion times of an access in progress are exactly an interval |
| CyclingMemory.FreshAccess | include/Memory/BlockingCyclingMemory.h:338-395 | a new access completes after its latency and any blocking from none to the largest |
| CyclingMemory.LatencyOfWords | include/Memory/FixedLatencyCyclingMemory.h:237 | every word takes its time on top of the latency of the access |
| CyclingMemory.FastForwardIsExact | include/Memory/BlockingCyclingMemory.h:397-441 | fast-forwarding changes no completion time |
| CyclingMemory.ForwardedCompletes | include/Memory/BlockingCyclingMemory.h:397-441 | and skips all there is to skip: the next cycle completes the access |
| CyclingMemory.MixedPathsAgree | include/Memory/BlockingCyclingMemory.h:397-441 | nor does fast-forwarding at any points on the way |
| CyclingMemory.JoinCovers | include/Memory/BlockingCyclingMemory.h:304-315 | a join loses no completion time of either side |
| CyclingMemory.JoinIsLub | include/Memory/BlockingCyclingMemory.h:304-315 | and allows for nothing that neither side does, counter by counter |
| CyclingMemory.StepsAreValid | include/Memory/BlockingCyclingMemory.h:241-245 | blocked cycles never exceed what the assertions allow |
| CyclingMemory.CountsAccessesIff | include/Memory/ConcAccessCounterWrapper.h:227-234 | in all runs of an idle memory the counter is the sum over accesses of their blocked cycles in whole accesses, exactly if accesses take two cycles or nothing ever blocks |
| CyclingMemory.OneBlockedCycle | include/Memory/ConcAccessCounterWrapper.h:227-234 | with accesses of one cycle that may block, a run with one blocked cycle that is not counted |
| CyclingMemory.ConcurrentAccesses | include/Memory/ConcAccessCounterWrapper.h:227-234 | the sum at every point of a run, with the access in progress |
| Arbiter.StepKeepsValid | include/Memory/SingleMemoryTopology.h:275-435 | the memory is busy exactly while an access is in progress, and at most one access waits on each side |
| Arbiter.ClockBounds | include/Memory/SingleMemoryTopology.h:323-380 | a clock cycle takes one off both time bounds of a pending data access, or reports it |
| Arbiter.InstrStartsIff | include/Memory/SingleMemoryTopology.h:323-380 | a waiting instruction access is started in the next clock cycle exactly if no access is in progress, no data access waits, and no data misses hold it back under strict arbitration |
| Arbiter.InstructionIsReported | include/Memory/SingleMemoryTopology.h:276-435 | if nothing arrives and nothing holds it back while it waits, it is reported in exactly one cycle, at the latest after what is in progress, the waiting data access and its own latency and blocking |
| Arbiter.InstructionIsReportedFromTheStart | include/Memory/SingleMemoryTopology.h:245-435 | an instruction access announced at any point of a run from the initial topology is reported so |
| Arbiter.ReplacedIsNeverReported | include/Memory/SingleMemoryTopology.h:276-293 | one that still waits when the next comes is never reported |
| Arbiter.DataAcceptedIff | include/Memory/SingleMemoryTopology.h:295-380 | after a clock cycle a data access is turned away exactly if one waits that could not be started |
| Arbiter.ForwardedIsReported | include/Memory/SingleMemoryTopology.h:516-530 | after fast-forwarding, the next clock cycle reports the access in progress |
| Arbiter.ToldOnce | include/Memory/SingleMemoryTopology.h:388-435 | a report is told once, and the cycle that makes it waits for a join |
| Arbiter.SideIs | include/Memory/SingleMemoryTopology.h:323-352 | the flag tells the side of the access in progress |
| Arbiter.ReportedInTime | include/Memory/SingleMemoryTopology.h:323-435 | a pending data access is reported at most once, and until then stays within its time |
| Arbiter.ReportTime | include/Memory/SingleMemoryTopology.h:323-435 | the report comes between the earliest and the latest time |
| Arbiter.AcceptedIsReported | include/Memory/SingleMemoryTopology.h:295-312 | an accepted data access is reported in exactly one cycle, whatever instruction accesses arrive, if its identifier is new |
| Arbiter.AcceptedIsReportedFromTheStart | include/Memory/SingleMemoryTopology.h:245-312 | the same for any access accepted at any point of a run from the initial topology, where its identifier is new |
| ContextTree.AddIsMapUpdate | include/AnalysisFramework/PartitioningDomain.h:568-645 | adding information to the tree changes one key of the map it stands for, and the flag says exactly whether the map changed |
| ContextTree.AddContextIsMapUpdate | include/AnalysisFramework/PartitioningDomain.h:568-645 | the same from the unreachable element |
| ContextTree.UnreportedIsUnchanged | include/AnalysisFramework/PartitioningDomain.h:583-587 | no reported change means the same map |
| ContextTree.MakeLabeledTreeIsSingleton | include/AnalysisFramework/PartitioningDomain.h:570-575 | a new path holds one context |
| ContextTree.FindAnalysisInfo | include/AnalysisFramework/PartitioningDomain.h:663-697 | walking down finds what the map holds, and fails exactly where it holds nothing |
| ContextTree.FindAnalysisInfoEarly | include/AnalysisFramework/PartitioningDomain.h:699-743 | absent contexts are unreachable; it fails exactly for an absent context that longer ones extend |
| ContextTree.ExtendedContextFails | include/AnalysisFramework/PartitioningDomain.h:699-743 | whatever context is the only one, looking up a shorter one that it extends ends inside the tree |
| ContextTree.GetAnalysisInfoPerContext | include/AnalysisFramework/PartitioningDomain.h:540-566 | collects exactly the map |
| ContextTree.Join | include/AnalysisFramework/PartitioningDomain.h:314-340 | adding the leaves of the other tree, in any order, is the pointwise join of the maps |

## Left out

- AbstractCache.AbstractCacheImpl.Classify: a loop that never ends is returned from with None instead; that it is None exactly then is proved.
- GraphIterator.RunFixpointAnalysis: a bound on the number of visits stands for running on; with it reached, only what holds after that many visits is claimed. Backward iteration, dependent analyses and the queue variant, which may hold a node twice, are not modelled.
- MustCache.LruMaxAgeAbstractCache.Update: tags and ages are unbounded numbers; with fewer than 256 ways no stored position or age leaves 8 bits. A promised hit needs a listed block or room in the list, which every true promise has.
- CompositionalCache.CompositionalAbstractCache.Update: the reports of the two owned analyses, which the program drops, are not modelled.
- SharedCache.SharedHit: only hits are stated for shared levels; a miss claimed with foreign blocks is a worst-case choice, not a fact.
- SharedCache.EverySharedHitTrue: the interleaving is given for the set of the access; its own part must be the path's accesses to that set.
- PersistenceAnalyses.MultiScopePersistence.Update: the conflict sets of a scope are values here; the loop over them is that of ElementWiseCountingPersistence.
- CoRunner.StaysAbove: the path analysis is any monotone function of the two blocking bounds, and cores that exchange bounds go through their rounds in step.
- PathAnalysis.AnalyseAll: bounds read from a file instead of being exchanged are not modelled.
- Arbiter.AcceptedIsReported: fewer than 2^32 - 1 identifiers are drawn between acceptance and report.
- Arbiter.AcceptedIsReportedFromTheStart: so are they before acceptance.
- Arbiter.InstructionIsReported: the same holds of identifiers, and while data accesses keep coming the arbiter may hold it back for ever.
- PathAnalysis.UncoveredLoses: the other cores have curves that meet what the iteration assumes of curves, not necessarily those of programs with a fixed period; CrowdedLoses has such programs, for the first round.
- Sets of a cache of many sets are values, because the program shares immutable sets between caches; copying an object is modelled, memory management is not.
- Memory states are values with lists of successors, as in the program, whose steps return altered clones.
- The context tree is a value that is rebuilt along a path; parent links and replacement in place are not modelled.
- Changing contexts at directives, and per-edge shifts of loop contexts, depend on token classes that are not part of this model.
- Array-aware ages and conflict sets, conditional must persistence, and separate cache topologies with a second level.
- Path analysis by integer programming, the arrival curve computed by it, and the console exchange of bounds.
- Pipelines, microarchitectural states, DRAM, and everything that needs LLVM objects.
- Hashing, printing, orderings for containers, and ages reported for statistics.

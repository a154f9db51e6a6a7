# Verified model of the TCPSPSuite data structures and lag-graph algorithms

TCPSPSuite solves time-constrained project scheduling problems. A job has a release, a deadline and a duration; a lag
graph says how much later than one job another has to start. This project models the parts of the suite that its
solvers rest on, and proves what they promise:

* **Lag-graph algorithms.** `TopologicalSort.dfy` models the repeated depth-first searches behind the topological
  sort, with a fresh `visited` for every root and a 32-bit index that wraps around, and proves them equal to the plain
  searches that `Postorder.dfy` defines by recursion. On top of it, `CriticalPath.dfy` has the earliest starts and
  latest finishes and an exact criterion for the feasibility of an instance, `Recurrence.dfy` the equations that the
  two passes solve whatever their casts do, `LongestPaths.dfy` the all-pairs longest paths and their agreement with
  the earliest starts, and `NecessaryOrder.dfy` the two-pointer counts of necessary predecessors and successors.
* **Level tree.** `IntervalRunner.dfy` is the merge of two interval lists that everything else is built on.
  `Intervals.dfy` has the set operations on interval lists, `Dilation.dfy` the extension of intervals to both sides,
  `IntervalMap.dfy` the contract of the interval map, and `LevelTree.dfy` the stack of level sets that is updated by the
  difference of two profiles.
* **Overlapping pairs.** `OverlappingPairs.dfy` models the resumable iterator that hands out pairs of jobs that may overlap,
  pushing sets of ancestors along the topological order. `ActiveTogether.dfy` compares these pairs with those that are
  active together in some schedule.
* **Array skyline.** `Load.dfy` defines the load that present jobs put on a resource. `Skyline.dfy` has the usage array
  that is patched on every change, `Events.dfy` the index of starts and ends, and `SkylineIterator.dfy` the iterator that
  keeps a running usage.
* **Small structures.** `Permutation.dfy` (in-place application of a permutation), `SharedPtrPool.dfy` (reference-counted
  pool), `CircularVector.dfy` (ring deque) and `FastResetVector.dfy` (vector with constant-time reset).

Objects whose methods change them are classes here, loops are loops with invariants, and every method is proved against
a specification that is stated on values: the least start vector, the set of points that intervals cover, the load, the
abstract sequence. `unsigned int` and `int` are written out in `Machine.dfy`; `double` is modelled by `real`.
`dafny verify dfyconfig.toml` covers the whole project.

Where the code does something else than its surroundings suggest, the model follows the code:

* A move of the skyline to the right does not touch the usage. `ArraySkyline.SetPos` says that the usage is right
  afterwards if and only if the move was not to the right or the job uses nothing; `RightwardMoveFails` is an example.
* Removing a job from an iterating skyline looks for its end event at the start time of a different job.
  `ArraySkyline.RemoveJob` says exactly when that happens to be the right place, and when there is such a job at all;
  `RemovalFails` and `RemovalLeavesRange` are examples.
* An iterator that does not start at time 0 does not know what is active there. `RunningUsage` says that its usage is right
  exactly if nothing is; `LateWalkFails` is an example.
* The generator of overlapping pairs is said to leave out pairs with a dependency. The seeding of its predecessor sets
  leaves the direct successors of the first job out of the sets of their descendants, so such pairs are handed out:
  `SoundExactlyIf` gives the exact condition and `DependentPairYielded` an example.
* In turn, the generator takes every dependency for an order in time, and misses jobs that depend on each other and can
  still be active together. `TogetherExactlyIf` says exactly when they can, in terms of earliest starts, latest finishes
  and longest paths, and `MissesNothingExactlyIf` that nothing is missed if and only if there is no such pair, but for
  direct successors of the first job. `OverlappingPairMissing` is an example.
* Assignment to a handle of the pool does not release what the handle referred to before. `Run` says that a run loses one
  reference for every overwritten handle, and none exactly if all assignments are to null handles; `LostContainer` is an
  example.
* A handle that is constructed from an address, or reset to one, takes the container over with a count of 1, whoever else
  refers to it. `ConstructFrom` and `ResetTo` say exactly when the pool stays in order; `SharedConstruction` and
  `SharedAddress` are examples.
* The two passes over the lag graph cast times to `int`, which changes those above the largest one. `GetForward` and
  `GetReverse` compute the solution of `StartRecurrence` and `FinishRecurrence`, which have the casts, and
  `ForwardIsLeastExactlyIf` and `ReverseIsGreatestExactlyIf` say when that is the one without; `WrappedStartIsLost` and
  `WrappedDeadlineThrows` are examples of late times for which it is not.
* The scans for the necessary order read past the end of their arrays unless a condition holds that
  `NecessaryOrderComputer.Compute` states exactly; `EmptyWindowLeavesRange` is an example.
* A full ring replaces its buffer but not its capacity. Whatever is copied, `PushBack` and `PushFront` leave only the new
  element, exactly if the ring was full; `FullRingForgets` and `FullRingForgetsInFront` are examples.
* Both checks of the level tree read behind its last set: `VerifyLevelContainment` whenever the sets are nested, so that
  it never passes, and `VerifyLevelAssignment` exactly if the highest level is reached at some time.
* For an empty graph the final assertion of the topological sort fails, as no root is ever searched: `finished` holds
  exactly for the other graphs.

## Model

| member | source | states |
|---|---|---|
| `TopologicalSorting.TopologicalSort.Get` | src/algorithms/graphalgos.cpp:82-140 | For every acyclic graph the result lists every vertex once with all edges going forward; it is the reverse of the order in which indices were written, each vertex exactly once although searches revisit vertices, and this order is that of plain depth-first searches from all roots; the unsigned index ends wrapped around, and the debug flag is set unless the graph is empty |
| `TopologicalSorting.TopologicalSort.NumberAll` | src/algorithms/graphalgos.cpp:113-132 | After searching from every vertex without incoming edges, each with a fresh `visited`, every vertex has been numbered exactly once, in the postorder of plain searches that follow the edges in their order and the roots in ascending order |
| `TopologicalSorting.TopologicalSort.Search` | src/algorithms/graphalgos.cpp:116-121 | A search from an unnumbered root numbers that root and no other root, so the assertion at the next root holds |
| `TopologicalSorting.TopologicalSort.Backtrack` | src/algorithms/graphalgos.cpp:102-107 | As long as the index has not wrapped, the comparison with it recognises exactly the vertices that were numbered before, and the others get the next smaller index |
| `TopologicalSorting.TopologicalSort.DfsRec` | src/algorithms/graphalgos_templates.cpp:8-36 | The call of a vertex marks and numbers it and all it reaches, forgets nothing, and numbers no root but its own; what it appends to the numbering is the plain postorder of the vertices that were not numbered |
| `TopologicalSorting.TopologicalSort.FollowAll` | src/algorithms/graphalgos_templates.cpp:16-23 | After the loop over the edges all targets are marked, and the numbering has been continued edge by edge |
| `TopologicalSorting.TopologicalSort.Finish` | src/algorithms/graphalgos_templates.cpp:35-35 | The backtrack callback comes when all successors are numbered and while the root of the search is not, so it never compares with a wrapped index |
| `TopologicalSorting.TopologicalSort.RoomLeft` | src/algorithms/graphalgos.cpp:103-106 | While any vertex is not numbered, fewer than all indices have been used: the wrap can only come with the last vertex |
| `TopologicalSorting.TopologicalSort.SuccessorsNumbered` | src/algorithms/graphalgos_templates.cpp:20-22 | A marked successor is already numbered, because on an acyclic graph it cannot be on the stack |
| `TopologicalSorting.TopologicalSort.AllNumbered` | src/algorithms/graphalgos.cpp:115-122 | Searching from the vertices without incoming edges is enough: every vertex hangs below one |
| `TopologicalSorting.TopologicalSort.ReverseOfNumbering` | src/algorithms/graphalgos.cpp:134-139 | Inverting the indices yields a topological order |
| `LagGraphs.AcyclicExactlyIfOrdered` | src/algorithms/graphalgos.cpp:82-140 | A topological order exists if and only if the graph is acyclic, so the requirement of the sort cannot be weakened |
| `Postorders.LastIsLastRoot` | src/algorithms/graphalgos.cpp:113-122 | The searches list the roots in ascending order and leave the last root last, so the topological order begins with the largest vertex without incoming edges |
| `CriticalPaths.GetForward` | src/algorithms/graphalgos.cpp:146-174 | For every acyclic instance: a result solves the equations of the pass with all casts, and is the pointwise least vector that respects all releases and lags if and only if the lags are kept that leave starts above the largest `int`; an overflow of a sum means that these equations have no solution; if some vector that respects releases and lags keeps all sums along edges within an `int`, the result is the least one |
| `CriticalPaths.ForwardIsLeastExactlyIf` | src/algorithms/graphalgos.cpp:162-169 | The pass computes the least vector if and only if that solves the equations with the casts |
| `CriticalPaths.WrappedStartIsLost` | src/algorithms/graphalgos.cpp:163-166 | A release above the largest `int` on a solvable instance, after which a lag of 0 is ignored |
| `Recurrences.StartRecurrenceIsUnique` | src/algorithms/graphalgos.cpp:154-171 | The equations with the casts have at most one solution, so they determine the result for starts of any size |
| `CriticalPaths.ForwardFitsExactlyIf` | src/algorithms/graphalgos.cpp:163-166 | No sum along an edge overflows for some such vector if and only if none does for the result itself |
| `CriticalPaths.SolvableFits` | src/algorithms/graphalgos.cpp:155-171 | None does on a solvable instance whose deadlines fit an `int` |
| `CriticalPaths.StartsAreBounded` | src/algorithms/graphalgos.cpp:155-171 | No earliest start exceeds the largest release plus n-1 times the largest lag |
| `CriticalPaths.BoundedFits` | src/algorithms/graphalgos.cpp:163-166 | If that bound fits an `int`, no cast or sum of the pass overflows |
| `CriticalPaths.RelaxAll` | src/algorithms/graphalgos.cpp:159-171 | One vertex of the order: its edges demand no more than there is, no entry exceeds any admissible start vector, and all outgoing lags are kept unless its start is above the largest `int`; or a sum overflows for which there is no solution |
| `Recurrences.DemandIsExact` | src/algorithms/graphalgos.cpp:162-167 | Exactly when the casts and the sum of an edge are defined, and what they demand: the start plus the lag, or 0 where that is negative, with 2^32 taken off starts from 2^31 on |
| `CriticalPaths.ExactFeasibility` | src/algorithms/graphalgos.cpp:146-174 | A schedule meeting all releases, lags and deadlines exists if and only if every job meets its deadline when started at its earliest start; every schedule starts every job no earlier |
| `CriticalPaths.LeastStartIsUnique` | src/algorithms/graphalgos.cpp:146-174 | The specification determines the result of the forward pass |
| `CriticalPaths.GetReverse` | src/algorithms/graphalgos.cpp:176-224 | For every acyclic instance: a result solves the equations of the pass with all casts, and otherwise there is no solution. The exception and an overflow are caused by an edge into a vertex whose finish is settled, which leaves a negative finish or the range of `int`. If no cast changes a value: a result is the pointwise greatest vector of finishes that respects all deadlines and lags, and no sum overflowed; the exception means that no such vector is non-negative; an overflow happens only if a sum with a greatest finish leaves the range of `int` |
| `CriticalPaths.ReverseIsGreatestExactlyIf` | src/algorithms/graphalgos.cpp:195-220 | The pass computes the greatest vector if and only if that solves the equations with the casts |
| `CriticalPaths.WrappedDeadlineThrows` | src/algorithms/graphalgos.cpp:198-213 | A deadline above the largest `int` on a solvable instance, on which the pass throws |
| `CriticalPaths.PlacesSolve` | src/algorithms/graphalgos.cpp:191-221 | However far the loop has come, the finishes solve the equations of the edges seen so far, or the equations have no solution |
| `Recurrences.BehindIsSolved` | src/algorithms/graphalgos.cpp:191-199 | When the pass reads the finish of a vertex, the finishes of the vertex and of all that depend on it solve their equations |
| `CriticalPaths.PlacesAreSettled` | src/algorithms/graphalgos.cpp:191-221 | If no cast changes a value: however far the loop has come, the finishes from there on are the greatest ones |
| `CriticalPaths.PlacesAreJustified` | src/algorithms/graphalgos.cpp:191-221 | If no cast changes a value: an exception in the loop means that there is no finish vector without negative entries, and an overflow that a sum with a greatest finish overflows |
| `Recurrences.FinishRecurrenceIsUnique` | src/algorithms/graphalgos.cpp:186-221 | The equations with the casts have at most one solution |
| `CriticalPaths.ReverseFitsExactlyIf` | src/algorithms/graphalgos.cpp:198-199 | The pass is free of overflow if and only if the sums over all edges fit an `int` for the greatest finishes that are not negative |
| `CriticalPaths.SmallDeadlinesFit` | src/algorithms/graphalgos.cpp:198-199 | That holds on every solvable instance without negative lags whose deadlines are at most half of the largest `int` |
| `CriticalPaths.GreatestFinishExists` | src/algorithms/graphalgos.cpp:176-224 | Every instance has a greatest finish vector, if negative finishes are allowed |
| `CriticalPaths.SettledIsGreatest` | src/algorithms/graphalgos.cpp:191-221 | When a vertex comes up in the reversed order, its finish is final |
| `CriticalPaths.LowerAll` | src/algorithms/graphalgos.cpp:191-221 | One vertex of the reversed order: the loop with its early exit computes the fold of its incoming edges |
| `CriticalPaths.LowerIsExact` | src/algorithms/graphalgos.cpp:192-220 | If no cast changes a value: one incoming edge is settled without unsettling those before it, or no non-negative finish vector exists, or a sum with a greatest finish overflows |
| `CriticalPaths.LowerSolves` | src/algorithms/graphalgos.cpp:192-220 | With all casts: one incoming edge leaves its source no more than it may, and no edge before it is undone, or the equations have no solution |
| `Recurrences.LeaveIsExact` | src/algorithms/graphalgos.cpp:198-199 | What an edge leaves is the finish minus the own duration plus that of the source minus the lag, modulo 2^32; for values that no cast changes, exactly when the arithmetic is defined |
| `Machine.CastsAreModular` | src/algorithms/graphalgos.cpp:163-166 | The ranges of both types, and that the casts between them preserve values modulo 2^32 |
| `CriticalPaths.ReverseIsExact` | src/algorithms/graphalgos.cpp:201-223 | If no cast changes a value and no sum overflows: the pass never throws on a solvable instance; every schedule finishes every job by its latest finish; the starts that belong to the finishes keep all lags; an instance is solvable if and only if the pass does not throw and these starts respect the releases |
| `LongestPaths.APLPComputer.Get` | src/algorithms/graphalgos.cpp:229-245 | For non-negative lags every entry is -1 if and only if there is no path, and otherwise the length of a path than which none is longer; no sum overflows if all path lengths fit an `int` |
| `LongestPaths.ShortPathsFit` | src/algorithms/graphalgos.cpp:273-273 | All path lengths fit if n-1 times the largest lag does |
| `LongestPaths.APLPComputer.ComputeSSLP` | src/algorithms/graphalgos.cpp:249-280 | The row of the start job becomes exact, with -1 for what it does not reach, although relaxation begins in the middle of the order, and no other row changes |
| `LongestPaths.RelaxOut` | src/algorithms/graphalgos.cpp:264-279 | One vertex of the order: entries stay lengths of real paths, and no edge out of the vertices relaxed so far can lengthen one |
| `LongestPaths.PathIsCovered` | src/algorithms/graphalgos.cpp:256-279 | Once everything from the start job on is relaxed, no path from it is longer than the entry of its end: vertices before it in the order need not be looked at |
| `LongestPaths.AnalysesAgree` | src/algorithms/graphalgos.cpp:155-171 | The earliest start of a job is the maximum, over all jobs with a path to it, of their release plus the longest path |
| `LongestPaths.StartAfterPath` | src/algorithms/graphalgos.cpp:159-171 | Along any path a start is at least the release of the origin plus the length of the path |
| `LongestPaths.HeldUp` | src/algorithms/graphalgos.cpp:169-169 | An earliest start is the job's release or is demanded by one of its incoming edges |
| `NecessaryOrders.NecessaryOrderComputer.Compute` | src/algorithms/graphalgos.cpp:30-66 | The scans stay within their arrays if and only if every job has one finishing after its start and one starting before its finish; then the counts are the numbers of jobs whose latest finish is at most the start, and of jobs whose earliest start is at least the finish |
| `NecessaryOrders.EmptyWindowLeavesRange` | src/algorithms/graphalgos.cpp:50-59 | A solvable instance with a job of duration 0 on which both scans read past the end |
| `NecessaryOrders.ScanForward` | src/algorithms/graphalgos.cpp:48-54 | The forward scan with a cursor that never goes back counts for every job exactly the jobs that must be over |
| `NecessaryOrders.ScanBackward` | src/algorithms/graphalgos.cpp:56-65 | The backward scan counts for every job exactly the jobs that cannot have begun |
| `NecessaryOrders.SortIndices` | src/algorithms/graphalgos.cpp:33-46 | The indices in an order of ascending keys |
| `NecessaryOrders.WindowsSuffice` | src/algorithms/graphalgos.cpp:50-59 | If every earliest start is before the latest finish, the scans stay within their arrays |
| `NecessaryOrders.PositiveDurationsSuffice` | src/algorithms/graphalgos.cpp:20-28 | On a solvable instance with positive durations the windows from the two passes are non-empty |
| `NecessaryOrders.EqualSums` | src/algorithms/graphalgos.cpp:48-65 | The two vectors of counts have equal sums, as both count the same pairs |
| `NecessaryOrders.CountsAreNecessary` | src/algorithms/graphalgos.cpp:20-66 | In every schedule at least the counted jobs are over before a job starts, and at least the counted ones have not begun when it finishes |
| `IntervalRunner.ProcessIntervals` | src/util/intervalrunner.hpp:6-128 | The handler is called once per endpoint in ascending order, with exactly the starts and ends there; between calls nothing starts or ends; the first call is for the first start of the left list if that comes first, and otherwise for 0 |
| `IntervalRunner.CallsAreDetermined` | src/util/intervalrunner.hpp:6-128 | The two lists determine all calls and their arguments |
| `IntervalRunner.Next` | src/util/intervalrunner.hpp:39-95 | The next point is the nearest endpoint of either list, with the right flags, also where pieces touch |
| `IntervalRunner.First` | src/util/intervalrunner.hpp:10-36 | The call before the loop is for the first start of the left list if that comes first, and otherwise for 0, and reports what starts there |
| `IntervalRunner.EndpointIsCalled` | src/util/intervalrunner.hpp:38-127 | No endpoint is skipped |
| `IntervalRunner.FlagsAndValue` | src/util/intervalrunner.hpp:100-118 | What the arguments of a call mean for the data from its point on |
| `IntervalRunner.ConstantBetween` | src/util/intervalrunner.hpp:38-127 | Between two calls the data of either list do not change, and before the first and after the last call there are none |
| `Intervals.OperatorBase` | src/datastructures/leveltree.cpp:208-260 | The result covers a point if and only if the operation holds of the coverage by both sides; it is sorted, and its pieces are non-empty and do not touch |
| `Intervals.Handle` | src/datastructures/leveltree.cpp:231-254 | One call of the handler: what lies before the point is collected in closed intervals and the open one |
| `Intervals.Union` | src/datastructures/leveltree.cpp:97-104 | Pointwise union in normal form |
| `Intervals.Intersection` | src/datastructures/leveltree.cpp:106-113 | Pointwise intersection in normal form |
| `Intervals.Difference` | src/datastructures/leveltree.cpp:88-95 | Pointwise difference in normal form |
| `Intervals.Complement` | src/datastructures/leveltree.cpp:115-123 | Pointwise complement within the keys, the largest of which it never covers |
| `Intervals.NormalForm` | src/datastructures/leveltree.cpp:208-260 | Two results that cover the same points are equal, so the laws of sets hold as equations between results |
| `Intervals.Coverage` | src/datastructures/leveltree.cpp:50-62 | The unsigned sum is the number of covered points and does not wrap |
| `Intervals.CoverageLaws` | src/datastructures/leveltree.cpp:50-113 | The coverages of union and intersection add up to those of the operands, and those of difference and intersection to that of the left one |
| `Intervals.MoveLeft` | src/datastructures/leveltree.cpp:125-147 | A point is covered if and only if the point to the right by the amount was, despite the unsigned subtraction before the test; a normal form stays one |
| `Intervals.Overlaps` | src/datastructures/leveltree.cpp:64-72 | The binary search finds something if and only if the query has a covered point |
| `Dilation.Extend` | src/datastructures/leveltree.cpp:149-206 | A point below the largest key is covered if and only if some point of the intervals is at most the left extension behind it or the right extension before it; no other is, and touching and overlapping pieces are merged |
| `Dilation.DilatedIsNear` | src/datastructures/leveltree.cpp:155-169 | The intervals moved out by the left extension below and the right one above cover exactly the points that are near enough |
| `Dilation.Events` | src/datastructures/leveltree.cpp:155-169 | The list of events is that of the intervals extended to both sides and cut off at the ends of the keys |
| `Dilation.Sort` | src/datastructures/leveltree.cpp:171-183 | The same events by time, starts before ends |
| `Dilation.HandleEvent` | src/datastructures/leveltree.cpp:188-203 | One event of the sweep keeps the counter, the open interval and the results right |
| `Dilation.TallyBeforeEnd` | src/datastructures/leveltree.cpp:195-195 | When an end comes up the counter is at least 1: it never underflows |
| `Dilation.TallyIsDepth` | src/datastructures/leveltree.cpp:188-203 | Between events the counter is the number of extended intervals around the point |
| `Dilation.OpensFresh` | src/datastructures/leveltree.cpp:191-193 | Where the counter rises to 1 nothing was before: there was no end at the same time |
| `Dilation.ClosesLater` | src/datastructures/leveltree.cpp:199-201 | A merged interval is not empty when it is closed |
| `Dilation.SweepIsComplete` | src/datastructures/leveltree.cpp:185-205 | The counter ends at 0, and the results cover exactly the extended intervals |
| `Dilation.NumOfPermutation` | src/datastructures/leveltree.cpp:171-183 | Sorting does not change how many starts or ends there are up to a time |
| `IntervalMaps.ChangedJobs` | src/datastructures/leveltree.cpp:290-306 | Adding and subtracting on the interval map is pointwise union and difference of the job sets within the interval, and nothing else changes |
| `LevelTrees.LevelTree.constructor` | src/datastructures/leveltree.cpp:339-345 | A fresh tree holds no jobs, its lowest level set is the horizon and the others are empty |
| `LevelTrees.LevelTree.GetProfile` | src/datastructures/leveltree.cpp:354-378 | The profile has at every time within the query the level and the amount of the content there, if any, and nothing outside; every piece is one piece of the content cut down to the query |
| `LevelTrees.Changes` | src/datastructures/leveltree.cpp:409-442 | The recorded changes are at every time the difference of the two profiles, with gaps at level 0 |
| `LevelTrees.Record` | src/datastructures/leveltree.cpp:413-434 | One call of the handler: the changes before its point are complete, and the levels are those from its point on |
| `LevelTrees.LevelTree.Apply` | src/datastructures/leveltree.cpp:448-463 | One change puts its times into exactly the sets it rises to and takes them out of those it falls from, never touching set 0 |
| `LevelTrees.LevelTree.UpdateLevels` | src/datastructures/leveltree.cpp:393-465 | Every set gains and loses exactly the times at which the profiles cross its level |
| `LevelTrees.LevelTree.LevelsFollow` | src/datastructures/leveltree.cpp:393-465 | Sets that agreed with the old content agree with the new content after the update |
| `LevelTrees.LevelTree.Insert` | src/datastructures/leveltree.cpp:262-270 | The payload is added within the interval, and each set k holds exactly the times whose content reaches level k |
| `LevelTrees.LevelTree.Remove` | src/datastructures/leveltree.cpp:272-281 | The payload is removed within the interval, and each set k holds exactly the times whose content reaches level k |
| `LevelTrees.Run` | src/datastructures/leveltree.cpp:262-310 | After any history of insertions and removals the content is what the history left, set k holds exactly the times at which that reaches level k, and set 0 is the horizon; a history within the horizon leaves the sets nested |
| `LevelTrees.LevelsAreNested` | src/datastructures/leveltree.cpp:543-559 | The sets that exist are nested if nothing is stored outside the horizon |
| `LevelTrees.VerifyLevelContainment` | src/datastructures/leveltree.cpp:543-559 | The check fails exactly if the sets are not nested, and otherwise reads behind the last set |
| `LevelTrees.VerifyLevelAssignment` | src/datastructures/leveltree.cpp:519-541 | On a tree in order the check never fails, but it reads behind the last set if and only if the highest level is reached at some time of the horizon |
| `SortedSets.SetUnion` | src/datastructures/overlapping_jobs_generator.cpp:149-152 | The merge of two sorted vectors is their sorted union |
| `SortedSets.BinarySearch` | src/datastructures/overlapping_jobs_generator.cpp:200-202 | The search finds exactly the elements |
| `OverlappingPairs.Generate` | src/datastructures/overlapping_jobs_generator.cpp:8-26 | For any number of jobs, the generator holds them in topological order together with the inverse of the order; it is the reversed order of plain searches, and begins with the largest job without predecessors |
| `OverlappingPairs.Seed` | src/datastructures/overlapping_jobs_generator.cpp:46-58 | The seeded sets satisfy the invariant for the first job |
| `OverlappingPairs.PushForward` | src/datastructures/overlapping_jobs_generator.cpp:127-155 | When a job becomes current, its sorted set holds exactly its ancestors and itself without the direct successors of the first job, and the sets of later jobs exactly what has been pushed to them; cleared sets are not needed |
| `OverlappingPairs.MergeInto` | src/datastructures/overlapping_jobs_generator.cpp:138-154 | One edge passes on exactly what is known |
| `OverlappingPairs.CurrentIsKnown` | src/datastructures/overlapping_jobs_generator.cpp:130-134 | What all earlier jobs have pushed is all there is to know of a job's ancestors |
| `OverlappingPairs.Enter` | src/datastructures/overlapping_jobs_generator.cpp:172-176 | When a job becomes current, its set is complete, exactly its pairs are still to come, and the first result that forms one is found |
| `OverlappingPairs.SkipForward` | src/datastructures/overlapping_jobs_generator.cpp:180-211 | Only query results that form no pair are passed over: later jobs, known ancestors, and jobs whose window begins or ends where that of the current job ends or begins |
| `OverlappingPairs.PairIterator.constructor` | src/datastructures/overlapping_jobs_generator.cpp:46-70 | The iterator stands on the first of all pairs, or at the end |
| `OverlappingPairs.PairIterator.AdvanceB` | src/datastructures/overlapping_jobs_generator.cpp:120-125 | The current pair is dropped, and no other |
| `OverlappingPairs.PairIterator.AdvanceA` | src/datastructures/overlapping_jobs_generator.cpp:157-178 | Going on to later jobs loses no pair and ends at a pair or at the end |
| `OverlappingPairs.PairIterator.Next` | src/datastructures/overlapping_jobs_generator.cpp:98-118 | The increment drops exactly the current pair of those remaining, and the element is the next one |
| `OverlappingPairs.Enumerate` | src/datastructures/overlapping_jobs_generator.cpp:28-118 | The walk from `begin()` reaches `end()` and yields all pairs in order, none twice: exactly those of a later and an earlier job of the order of which each is released before the deadline of the other, unless the later one depends on the earlier one and that is no direct successor of the first job |
| `OverlappingPairs.EnumeratedPairs` | src/datastructures/overlapping_jobs_generator.cpp:180-211 | Exactly which pairs are enumerated, and none twice: each job is released before the deadline of the other, the later job of the order comes first, and the earlier one is no ancestor unless it is a direct successor of the first job |
| `OverlappingPairs.IndependentPairsAreYielded` | src/datastructures/overlapping_jobs_generator.cpp:186-196 | Two jobs with properly overlapping windows and no dependency either way are yielded exactly once, as (later, earlier) |
| `OverlappingPairs.OverlapsAreYielded` | src/datastructures/overlapping_jobs_generator.cpp:180-211 | If every lag is at least the duration of its source, any two jobs that are active together at some time of some feasible schedule are yielded exactly once |
| `OverlappingPairs.OverlappingPairMissing` | src/datastructures/overlapping_jobs_generator.cpp:53-58 | Two jobs with a lag below the duration that are active together in a schedule, and are not yielded |
| `ActiveTogether.TogetherIsYieldedExactlyIf` | src/datastructures/overlapping_jobs_generator.cpp:180-211 | Of two jobs that are active together at some time of a schedule, the pair is yielded if and only if the later one in the order does not depend on the earlier one, or that is a direct successor of the first job |
| `ActiveTogether.TogetherExactlyIf` | src/datastructures/overlapping_jobs_generator.cpp:180-211 | For non-negative lags: a job and one that depends on it are active together in some schedule if and only if the instance is solvable, the dependent job takes time, its earliest start is before the latest finish of the other, and the longest path between them is shorter than the duration of the other |
| `ActiveTogether.MissesNothingExactlyIf` | src/datastructures/overlapping_jobs_generator.cpp:28-211 | For non-negative lags: every two jobs that are active together in some schedule are yielded if and only if no job other than the direct successors of the first one has a dependent with which it can be active together by the criterion above |
| `OverlappingPairs.SoundExactlyIf` | src/datastructures/overlapping_jobs_generator.cpp:53-58 | No dependent pair is yielded if and only if no direct successor of the first job has a descendant whose window crosses its own |
| `OverlappingPairs.DependentPairYielded` | src/datastructures/overlapping_jobs_generator.cpp:53-58 | A chain of three jobs for which a dependent pair is yielded |
| `Skylines.ArraySkyline.constructor` | src/datastructures/skyline.cpp:17-35 | The arrays reach up to the latest deadline, and nothing is placed |
| `Skylines.ArraySkyline.InsertJob` | src/datastructures/skyline.cpp:75-94 | The job is placed, the usage is again the load of the present jobs, and the event index lists exactly their starts and ends |
| `Skylines.ArraySkyline.RemoveJob` | src/datastructures/skyline.cpp:45-64 | The job is gone and the usage is again the load; on an iterating skyline the end event is looked up within the arrays if and only if there is a job numbered higher by the duration and a slot at its start; then exactly the start and what is found in that slot are taken out, and the index is right if and only if that job happens to start where this one ends |
| `Skylines.ArraySkyline.SetPos` | src/datastructures/skyline.cpp:96-135 | The job is moved, also in the event index; the usage is again the load if and only if the move was not to the right or the job uses nothing |
| `Skylines.MoveAgrees` | src/datastructures/skyline.cpp:103-122 | After a move to the left the array skyline agrees with the tree skyline that removes and inserts, whether or not the two places overlap |
| `Skylines.MoveEqualsReinsertion` | src/datastructures/skyline.cpp:103-122 | A move to the left leaves the same usage array as removal and insertion |
| `Skylines.TreeSkyline.RemoveJob` | src/datastructures/skyline.cpp:686-692 | The job is no longer placed, and no other is touched |
| `Skylines.TreeSkyline.InsertJob` | src/datastructures/skyline.cpp:701-709 | The job is placed at the position, and no other is touched |
| `Skylines.TreeSkyline.SetPos` | src/datastructures/skyline.cpp:677-684 | The reference definition of a move, for both directions |
| `Skylines.Run` | src/datastructures/skyline.cpp:37-135 | After any history of insertions, removals and moves to the left the usage is the load of the jobs where the history left them; with iteration, and then without removals, the event index lists exactly their starts and ends |
| `Skylines.RightwardMoveExactlyIf` | src/datastructures/skyline.cpp:103-122 | Leaving the usage alone is right for a move to the right if and only if there is nothing to move |
| `Skylines.RightwardMoveFails` | src/datastructures/skyline.cpp:103-122 | A job of length 1 for which it is wrong |
| `Skylines.RemovalFails` | src/datastructures/skyline.cpp:58-63 | Two jobs for which removal leaves an event behind |
| `Skylines.RemovalLeavesRange` | src/datastructures/skyline.cpp:58-63 | A single job on whose removal the end event is looked up at the start of a job that does not exist |
| `Skylines.UsageIsDetermined` | src/datastructures/skyline.cpp:75-94 | There is one usage array for every placement |
| `Skylines.ArraySkyline.GetMaximum` | src/datastructures/skyline.cpp:146-159 | For every resource the largest load in the range, and at least 0 |
| `Loads.LoadAfterMove` | src/datastructures/skyline.cpp:45-135 | Placing, moving or removing one job changes the load at every time by its own contribution |
| `Loads.LoadStep` | src/datastructures/skyline.cpp:557-599 | From one time to the next the load changes by what starts minus what ends |
| `EventIndex.Emplace` | src/datastructures/skyline.cpp:91-92 | Insertion into a sorted set of events, and what it adds to their sum |
| `EventIndex.Erase` | src/datastructures/skyline.cpp:59-62 | Removal from a sorted set of events, and what it takes from their sum |
| `EventIndex.Enter` | src/datastructures/skyline.cpp:90-93 | The index with the two events of one more job lists exactly the events of the present jobs |
| `EventIndex.Leave` | src/datastructures/skyline.cpp:124-128 | The index without the start, and without the end where it is looked for, and otherwise unchanged, matches the remaining jobs if and only if that is where the end is |
| `SkylineIterators.Iterator.constructor` | src/datastructures/skyline.cpp:325-345 | The iterator stands on the first event at or after a time, or at the end, and its usage accounts for that event only |
| `SkylineIterators.Iterator.Next` | src/datastructures/skyline.cpp:399-423 | The next event of the index becomes the current one, empty times are skipped, and the usage accounts for exactly what has been visited |
| `SkylineIterators.Account` | src/datastructures/skyline.cpp:567-581 | One event changes the running usage of every resource by its own amount |
| `SkylineIterators.Walk` | src/datastructures/skyline.cpp:325-423 | A walk from any time reaches the end, visits all events of the index from there on, and has at every visit the usage that they account for |
| `SkylineIterators.VisitsAreComplete` | src/datastructures/skyline.cpp:242-264 | A walk visits exactly the starts and ends of the present jobs |
| `SkylineIterators.VisitsAreOrdered` | src/datastructures/skyline.hpp:99-111 | The visits are in time order, at the same time all ends before all starts and each in the order of the jobs, and nothing is visited twice |
| `SkylineIterators.SumIsLoad` | src/datastructures/skyline.cpp:557-599 | The events between two times add up to the difference of the loads |
| `SkylineIterators.RunningUsage` | src/datastructures/skyline.cpp:266-292 | Once all events up to a time are visited, the running usage of a walk from time 0 is the load there; that of a later walk is right if and only if nothing was active before it |
| `SkylineIterators.LateWalkFails` | src/datastructures/skyline.cpp:339-340 | A job for which an iterator from a later time shows a negative usage |
| `SkylineIterators.WalkAgreesWithUsage` | src/datastructures/skyline.cpp:242-423 | Iterating forward from the beginning meets all starts and ends in time order, ends before starts at the same time, and the running usage equals the usage array for every resource at every time up to which the events have been visited |
| `Permutations.ApplyPermutation` | src/algorithms/sorting.hpp:15-40 | For every permutation and every type, position i holds afterwards what position `indices[i]` held before; all loops end |
| `Permutations.Rotate` | src/algorithms/sorting.hpp:27-38 | One cycle is rotated as a whole and nothing else; from the next position on the flags are set for exactly the settled positions, although the first position of a longer cycle is never flagged |
| `Permutations.TrailGrows` | src/algorithms/sorting.hpp:31-35 | The walk along a cycle meets only new positions until it is back at its start |
| `Permutations.CycleIsClosed` | src/algorithms/sorting.hpp:31-38 | A cycle walked back to its start is closed under the permutation, so cycles never meet |
| `SharedPtrPools.SharedPtrPool.Get` | src/datastructures/intrusive_shared_ptr.hpp:121-135 | The container handed out has no handle, and gets exactly one; it is the one that was freed last, and the store grows, by one chunk, only if none is free |
| `SharedPtrPools.FreedIsReused` | src/datastructures/intrusive_shared_ptr.hpp:121-135 | A container that is freed is the next one to be handed out |
| `SharedPtrPools.UseIsBounded` | src/datastructures/intrusive_shared_ptr.hpp:121-168 | No more containers are in use than there are handles and lost references |
| `SharedPtrPools.SharedPtrPool.AddChunk` | src/datastructures/intrusive_shared_ptr.hpp:124-130 | The free list gets all containers of a new chunk, each once and in ascending order |
| `SharedPtrPools.SharedPtrPool.CopyConstruct` | src/datastructures/intrusive_shared_ptr.hpp:15-20 | The counts follow the handles |
| `SharedPtrPools.SharedPtrPool.MoveConstruct` | src/datastructures/intrusive_shared_ptr.hpp:22-25 | The reference changes hands, and no count changes |
| `SharedPtrPools.SharedPtrPool.Destroy` | src/datastructures/intrusive_shared_ptr.hpp:37-47 | The reference is given back, and a container goes to the end of the free list exactly when its count drops to 0 |
| `SharedPtrPools.SharedPtrPool.Reset` | src/datastructures/intrusive_shared_ptr.hpp:49-65 | Resetting to null gives the reference back, and a container goes to the end of the free list exactly when its count drops to 0 |
| `SharedPtrPools.SharedPtrPool.ResetTo` | src/datastructures/intrusive_shared_ptr.hpp:49-65 | After resetting to an address the pool is in order if and only if no other handle refers to that container and it is not on the free list, where it also gets if the handle was its only reference |
| `SharedPtrPools.SharedAddress` | src/datastructures/intrusive_shared_ptr.hpp:49-65 | A handle that is reset to the container of another one leaves the pool out of order |
| `SharedPtrPools.SharedPtrPool.ConstructFrom` | src/datastructures/intrusive_shared_ptr.hpp:27-33 | After construction from an address the pool is in order if and only if no handle refers to that container and it is not on the free list |
| `SharedPtrPools.SharedConstruction` | src/datastructures/intrusive_shared_ptr.hpp:27-33 | So does a handle that is constructed from the container of another one |
| `SharedPtrPools.SharedPtrPool.CopyAssign` | src/datastructures/intrusive_shared_ptr.hpp:76-85 | The target refers to what the source does, and what it referred to before has lost a reference |
| `SharedPtrPools.SharedPtrPool.MoveAssign` | src/datastructures/intrusive_shared_ptr.hpp:87-94 | The reference changes hands, even to nowhere if source and target are the same, and what the target referred to before has lost a reference |
| `SharedPtrPools.NotFree` | src/datastructures/intrusive_shared_ptr.hpp:121-135 | A container with a handle is not on the free list, and its count is at least the number of its handles |
| `SharedPtrPools.Run` | src/datastructures/intrusive_shared_ptr.hpp:15-168 | A run with all operations goes on until a construction from an address, or a reset to one, would leave the pool out of order. Over a run at most as many references are lost as assignments overwrite a handle that is not null; without operations by address exactly as many, and all counts equal the numbers of handles if and only if there is no such assignment. The store of a fresh pool never exceeds by a whole chunk the largest number of handles that exist at the same time plus the overwritten ones |
| `SharedPtrPools.AssignmentLoses` | src/datastructures/intrusive_shared_ptr.hpp:76-85 | A run of three operations that overwrites a handle |
| `SharedPtrPools.LostContainer` | src/datastructures/intrusive_shared_ptr.hpp:76-85 | It leaves a container with a count above the number of its handles |
| `SharedPtrPools.SumDropped` | src/datastructures/intrusive_shared_ptr.hpp:76-94 | An assignment loses exactly one reference if its target is not null, and none otherwise |
| `CircularVectors.CircularVector.PushBack` | src/datastructures/circular_vector.hpp:38-51 | Appends to the abstract sequence, across the end of the ring and into the last free slot, if and only if the ring is not full; otherwise only the new element is left |
| `CircularVectors.CircularVector.Grow` | src/datastructures/circular_vector.hpp:116-125 | The buffer is replaced by one of twice the size that holds as many elements of the two halves as fit whole into as many bytes as there were elements; neither the capacity nor the ends follow |
| `CircularVectors.CopyBytes` | src/datastructures/circular_vector.hpp:120-121 | Copying a number of bytes copies that many divided by the element size, and nothing before the target changes |
| `CircularVectors.WholeIsExact` | src/datastructures/circular_vector.hpp:120-121 | How many elements lie entirely within a number of bytes |
| `CircularVectors.FullRingForgets` | src/datastructures/circular_vector.hpp:38-51 | Three elements pushed onto two slots: only the third is left |
| `CircularVectors.CircularVector.PushFront` | src/datastructures/circular_vector.hpp:77-93 | Prepends to the abstract sequence if the ring is not full; otherwise only the new element is left |
| `CircularVectors.FullRingForgetsInFront` | src/datastructures/circular_vector.hpp:77-93 | The same in front |
| `CircularVectors.CircularVector.PopBack` | src/datastructures/circular_vector.hpp:53-63 | Takes the last element off |
| `CircularVectors.CircularVector.PopFront` | src/datastructures/circular_vector.hpp:65-75 | Takes the first element off |
| `CircularVectors.CircularVector.Back` | src/datastructures/circular_vector.hpp:26-32 | The last element |
| `CircularVectors.CircularVector.Front` | src/datastructures/circular_vector.hpp:34-36 | The first element |
| `CircularVectors.CircularVector.At` | src/datastructures/circular_vector.hpp:95-97 | The element at an index counted from the front, across the end of the ring |
| `CircularVectors.CircularVector.Size` | src/datastructures/circular_vector.hpp:99-109 | The number of elements; it is the capacity exactly when the ring is full |
| `CircularVectors.CircularVector.Empty` | src/datastructures/circular_vector.hpp:111-113 | The flag alone tells the empty ring from the full one |
| `CircularVectors.CircularVector.Clear` | src/datastructures/circular_vector.hpp:21-24 | Nothing is left |
| `FastResetVectors.FastResetVector.Reset` | src/datastructures/fast_reset_vector.hpp:15-17 | The plain array that the vector stands for is refilled with the initial value |
| `FastResetVectors.FastResetVector.Read` | src/datastructures/fast_reset_vector.hpp:19-26 | With fewer than 2^32 resets the entry of the plain array |
| `FastResetVectors.FastResetVector.Access` | src/datastructures/fast_reset_vector.hpp:28-35 | Preparing a cell does not change what the vector shows |
| `FastResetVectors.FastResetVector.Write` | src/datastructures/fast_reset_vector.hpp:28-35 | Writing through the reference updates one entry of the plain array |
| `FastResetVectors.ShownIsPlainUnlessStale` | src/datastructures/fast_reset_vector.hpp:15-26 | For any number of resets a cell shows its plain value if and only if it was not last stamped a positive multiple of 2^32 resets ago with another value than the initial one |
| `FastResetVectors.PlainBelowBound` | src/datastructures/fast_reset_vector.hpp:11-26 | With fewer than 2^32 resets every cell shows its plain value, although the round passes through 0, the stamp of untouched cells, which then pass for current |
| `FastResetVectors.StaleAfterFullCircle` | src/datastructures/fast_reset_vector.hpp:15-26 | The bound is sharp: after 2^32 resets an old value reappears |

## Left out

- TopologicalSort.Get: cyclic graphs, for which no order exists; at most 2^32 - 1 vertices.
- ArraySkyline.InsertJob: a job must end within the arrays, and on an iterating skyline before the latest deadline, as there is no slot for an event at that time. The same goes for SetPos.
- ArraySkyline.RemoveJob: ends with an outcome where the code reads outside its arrays, which is undefined.
- FastResetVector.Access: returns the value of the cell; assigning to the reference that the code returns is `Write`.
- ArraySkyline.GetMaximum: the wrapping of the result in a `Resources` object is not modelled, only its vector.
- OperatorBase: operations that hold where neither side is open are excluded; the code would leave their last interval open, and the repository has none.
- GetForward: ends with an outcome where a result of `int` arithmetic leaves its range, which is undefined; so does GetReverse. A cast of a value above the largest `int` is taken to wrap around.
- APLPComputer.Get: negative lags and cyclic graphs, which the code assumes away, and path lengths that do not fit an `int`.
- NecessaryOrderComputer.constructor: takes the two vectors as arguments instead of calling the passes that compute them.
- Generate: the interval tree is represented by its answers, every job whose closed window meets that of the query, once and in any order.
- PairIterator.constructor: there is at least one job, as the code reads the first one.
- PairIterator.Next: comparison with `end()` is modelled by the position after the last job only.
- SharedPtrPools.Run: the pool starts without lost references, and the run stops before an operation that would leave it out of order.
- SharedPtrPools.SharedPtrPool.Reset: is the reset to null; the one to an address is `ResetTo`.
- CircularVector.Grow: leaves open what becomes of an element that is copied only in part, and of the rest of the new buffer. The size of an element is a parameter.
- CircularVector.constructor: takes the capacity, which is 16 in the code.
- IntervalMaps.ChangedJobs: is the contract of the `boost::icl` map on sorted pieces, not its implementation; level sets are sets of points, and adjacent pieces with equal job sets are not joined.
- LevelTree.constructor: the amount of a job set and the level of an amount are any functions, the latter below the number of levels, with gaps at level 0; the floating-point `LinearLevelAssigner` and the caching of the amount in `JobSet` are not modelled.
- `std::sort`, `std::set_union` and `std::binary_search` are written as loops with the contracts of the library.
- Floating-point rounding in the usage sums of the skyline.
- `get_maximum_range`, the backward steps of the skyline iterator, and `+=` and copies of iterators.
- TreeSkyline.SetPos: of the tree skyline, insertion, removal and moves are modelled over the contract that the tree combines the usages of its nodes; its queries and iterators, and the range skyline, are not.
- The drain and recharge values of edges, and changes to the lag graph.
- Overflow of the 64-bit reference counts, and freeing of memory.
- Logging, the database layer, command line, readers, writers, integer programming and all solvers.

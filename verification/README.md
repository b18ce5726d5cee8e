# Extrae models

Models and proofs of the algorithms in the Extrae tracer bundled with COMPSs and in its heat
diffusion example. Every `.dfy` file but the shared `Common` and `Masks` follows one part of the
program:

- `RequestTable`: the MPI request hash table, a main table whose buckets overflow into one shared
  array that also holds the free list. The class works on the arrays as the program does; a store
  of ghost lists says which cell is linked where; the meaning is one sequence of entries per bucket.
- `Reorder`, `Stencil`, `Solver`, `Sweeps`: the blocked Gauss-Seidel, red-black and Jacobi solvers
  on a flat grid. `Reorder` says when two orders of the same work give the same result, `Stencil`
  what one cell and one tile do, `Solver` has the loops and the theorems about orders, `Sweeps` says
  what the result is: the equation of every cell, and the residual. solver-ompss.c has the same
  bodies.
- `HeatRows`, `HeatSweep`, `HeatExchange`, `HeatRanks`: how the grid is shared out between
  processes, what a sweep does to a strip of rows, the exchange of halo rows as a protocol whose
  calls start and complete in any order, and that scattering, sweeping, exchanging, reducing the
  residual and gathering compute what one process would. The processes are a state machine whose
  step is one iteration of all of them.
- `Queue`: circular doubly linked lists with a head node, sorted insertion, and the block
  allocator with its free list.
- `CounterSets` and `BitCounter`: the search for large sets of compatible hardware counters, with
  a mask in an integer and with an array of bits. What counters go together is any fixed predicate.
- `TimeSync`: aligning the clocks of tasks, with the 64-bit conversions written out.
- `UserFunctions`: the open-addressed set of instrumented functions.
- `TraceMode`, `Bursts`: switching between tracing modes, and the records written in bursts mode.
- `TraceFiles`: writing trace file names and reading them back.

Where the program changes state in place there is a class or a method over arrays whose `ensures`
ties the new state to a function of the old one; the lemmas are about those functions and about
all runs. Sizes that the program fixes by a macro (table and overflow size, tiles per side, look-ahead,
items per block) are parameters, so the results hold for the values of the program too.

Where the program does not do what one would expect, there is a lemma that says so:

- `CounterSets.SearchEnds`, `CounterSets.RunsForEver`: the search is guarded by an assertion for up
  to 62 counters, but its next mask passes through a 32-bit variable. With more than 31 counters it
  ends only if the cap is 0 or a compatible set among the first 32 fills it; and then its result is
  right.
- `CounterSets.CapKeepsLimit`, `CounterSets.NineAndOne`: `main` compares the omnipresent counters
  with eight before it has filled the list, so there may be more; the cap then wraps, and any set
  printed is too large, also the one of the omnipresent counters alone that is printed when there
  are no others.
- `Solver.CoversInterior`, `Solver.JacobiCoversInterior`: tiles have size / 8 points, so for most
  sizes the last rows and columns are never relaxed; the lemmas give the exact condition.
- `TraceMode.LastSwitchLost`, `TraceMode.FinalizeUntraced`: changes of mode made while tracing is
  off leave no event. The only callers of `Trace_mode_switch` are the two wrappers of MPI_Finalize
  (dependencies/extrae/src/tracer/wrappers/MPI/mpi_wrapper.c:1227-1233 and 2212-2218), so a process
  switches at most once and its events always alternate (`OneSwitchAlternates`); but if it stops
  tracing before (`Extrae_shutdown`, dependencies/extrae/src/tracer/wrappers/API/misc_wrapper.c:78-82),
  its last event is not the mode it is in. `AlternatesExactly` and `LastEventExactly` give the exact
  conditions for any number of switches, and `UntracedRepeats` and `OneThreadRepeats` what calls of
  mode.c more often than the program makes them could lead to. That the thread arrays never shrink
  is no restriction: the only later caller of `Trace_Mode_reInitialize`
  (dependencies/extrae/src/tracer/wrappers/API/wrapper.c:1893-1913) only grows them.
  `ShrinkingRepeats` says what a shrinking would do.
- `Bursts.TimesGrowExactly`: the times of burst records go back exactly when a call is begun inside
  one that followed a long gap.
- `UserFunctions.CountIsOccupied`, `UserFunctions.NullIsCounted`: the count of functions also counts
  adds of the null address.
- `TraceFiles.TaskReadsBack`: when a task is misread. `TraceFiles.OneApplication`: the listing
  separates at every file of a task 0, so it shows several applications for several threads of one.

## Model

| member | source | states |
|---|---|---|
| RequestTable.RequestTable.Init | dependencies/extrae/src/tracer/hash_table.c:53-78 | after initialisation the table means all buckets empty and every overflow cell free, and all structure invariants hold |
| RequestTable.RequestTable.Add | dependencies/extrae/src/tracer/hash_table.c:84-131 | adds refine the per-bucket sequences: first place of an empty bucket, second place of a used one; returns true exactly when the bucket of the key is used and no cell is free, and then no array cell changes |
| RequestTable.RequestTable.Search | dependencies/extrae/src/tracer/hash_table.c:138-161 | returns the first entry of the bucket whose key matches, or none |
| RequestTable.RequestTable.Remove | dependencies/extrae/src/tracer/hash_table.c:168-252 | deletes exactly the first match and keeps the order of the rest; returns true exactly when no entry of the bucket has the key, and then no array cell changes |
| RequestTable.RequestTable.RemoveMain | dependencies/extrae/src/tracer/hash_table.c:188-210 | removing the main entry brings the first chain entry forward, or frees the bucket |
| RequestTable.RequestTable.RemoveInChain | dependencies/extrae/src/tracer/hash_table.c:211-245 | removing from a chain unlinks the first matching cell, at the head or inside, and returns it to the free list |
| RequestTable.RequestTable.Unlink | dependencies/extrae/src/tracer/hash_table.c:232-244 | unlinks a chain cell at the head or inside and puts it in front of the free list, changing nothing else |
| RequestTable.MoveKeepsLinked | dependencies/extrae/src/tracer/hash_table.c:112-118 | moving one cell from any place of one list to the front of another keeps all lists acyclic, disjoint and jointly exhaustive |
| RequestTable.PushedSound | dependencies/extrae/src/tracer/hash_table.c:105-123 | linking the first free cell behind the main entry keeps every link and puts the entry second in its bucket |
| RequestTable.ReleasedSound | dependencies/extrae/src/tracer/hash_table.c:232-244 | unlinking a chain cell and freeing it keeps every link and deletes just that entry from the bucket |
| RequestTable.InitialSound | dependencies/extrae/src/tracer/hash_table.c:65-77 | the links written by initialisation form one free list of all cells and empty chains |
| RequestTable.EachCellOnce | dependencies/extrae/src/tracer/hash_table.c:53-252 | in every state that meets the invariant each overflow index stands at exactly one place of exactly one list, and the links lead to it and on to the end |
| RequestTable.Conservation | dependencies/extrae/src/tracer/hash_table.c:84-252 | over every run of adds and removes, cells in chains and free cells add up to the overflow array |
| RequestTable.SearchCounts | dependencies/extrae/src/tracer/hash_table.c:84-252 | over every run, duplicate keys included, a bucket holds as many entries of a key as successful adds outnumber successful removes, and a search succeeds exactly while they do |
| RequestTable.ImplementsMap | dependencies/extrae/src/tracer/hash_table.c:84-252 | as long as no present key is added again, every run behaves as a finite map |
| RequestTable.RefusedExactly | dependencies/extrae/src/tracer/hash_table.c:96-123 | after every run, an add changes nothing if and only if the bucket of its key is in use and the buckets use up the whole overflow array between them |
| RequestTable.RequestsFit | dependencies/extrae/src/tracer/hash_table.c:84-131 | one request more than the overflow array has cells always fits, whatever the keys: the entries stored are exactly the requests added |
| RequestTable.NewestFound | dependencies/extrae/src/tracer/hash_table.c:96-123 | a request just added is what a search for its key finds, unless the main entry of the bucket has that key |
| RequestTable.RemovesFirst | dependencies/extrae/src/tracer/hash_table.c:188-245 | a remove takes out the first entry of its key and keeps the order of the others |
| RequestTable.RemoveUndoesAdd | dependencies/extrae/src/tracer/hash_table.c:84-252 | removing a request right after adding it leaves the table as it was, unless the main entry of the bucket had its key |
| Stencil.RelaxCommutes | dependencies/extrae/example/LINUX/MPI+OMPSS/solver-mpi-ompss.c:134-140 | relaxing two cells that are not neighbours gives the same grid and residual in either order |
| Reorder.SameRun | dependencies/extrae/example/LINUX/MPI+OMPSS/solver-mpi-ompss.c:129-141 | two orders of the same work give the same result when every pair they order differently commutes |
| Stencil.TilesAreCells | dependencies/extrae/example/LINUX/MPI+OMPSS/solver-mpi-ompss.c:129-133 | relaxing tile by tile is relaxing the cells of the tiles one after the other |
| Stencil.LaterTileFeedsNot | dependencies/extrae/example/LINUX/MPI+OMPSS/solver-mpi-ompss.c:129-133 | no cell of a later tile is the upper or left neighbour of a cell of an earlier one |
| Stencil.SameColourCommutes | dependencies/extrae/example/LINUX/MPI+OMPSS/solver-mpi-ompss.c:79-94 | two distinct tiles of the same colour commute as a whole |
| Solver.TilingIsSweep | dependencies/extrae/example/LINUX/MPI+OMPSS/solver-mpi-ompss.c:120-144 | the tiled Gauss-Seidel sweep leaves the same grid and the same residual as the untiled row-by-row sweep over the covered cells |
| Solver.CoversInterior | dependencies/extrae/example/LINUX/MPI+OMPSS/solver-mpi-ompss.c:125-133 | the exact condition on the sizes under which the tiles cover the whole interior |
| Solver.JacobiCoversInterior | dependencies/extrae/example/LINUX/MPI+OMPSS/solver-mpi-ompss.c:36-47 | the same for the column strips of Jacobi, where only the width matters |
| Solver.RelaxGauss | dependencies/extrae/example/LINUX/MPI+OMPSS/solver-mpi-ompss.c:120-144 | the in-place loops compute that sweep |
| Solver.RelaxRedBlack | dependencies/extrae/example/LINUX/MPI+OMPSS/solver-mpi-ompss.c:68-115 | the in-place loops compute the red tiles and then the black tiles, row by row |
| Solver.RedBlackAnyOrder | dependencies/extrae/example/LINUX/MPI+OMPSS/solver-mpi-ompss.c:78-112 | any order of the red tiles followed by any order of the black ones gives the same grid and residual |
| Solver.RedBlackOnce | dependencies/extrae/example/LINUX/MPI+OMPSS/solver-mpi-ompss.c:78-112 | in every such order each covered cell is relaxed exactly once, and no other cell |
| Solver.AnySchedule | dependencies/extrae/example/LINUX/MPI+OMPSS/solver-mpi-ompss.c:40-58 | the Jacobi tasks in any order do what one pass over the covered cells does, no cell twice |
| Solver.SumShift | dependencies/extrae/example/LINUX/MPI+OMPSS/solver-mpi-ompss.c:45-56 | summing a task from zero and adding the sum to the shared one is summing straight on |
| Solver.JacobiDirect | dependencies/extrae/example/LINUX/MPI+OMPSS/solver-mpi-ompss.c:46-55 | a Jacobi pass leaves the four-point mean of the old grid on the visited cells and nothing else changed |
| Solver.JacobiResult | dependencies/extrae/example/LINUX/MPI+OMPSS/solver-mpi-ompss.c:31-63 | a whole blocked Jacobi step is the direct stencil on exactly the covered cells |
| Solver.RelaxJacobi | dependencies/extrae/example/LINUX/MPI+OMPSS/solver-mpi-ompss.c:31-63 | the loops over tasks compute that step, for every order of the tasks |
| Solver.JacobiTask | dependencies/extrae/example/LINUX/MPI+OMPSS/solver-mpi-ompss.c:44-55 | one task computes its strip of columns from its own zero sum |
| Solver.RelaxCell | dependencies/extrae/example/LINUX/MPI+OMPSS/solver-mpi-ompss.c:134-140 | the new value is the mean of the left, right, upper and lower neighbour, everything else is kept, and the square of the change is added |
| Solver.JacobiCell | dependencies/extrae/example/LINUX/MPI+OMPSS/solver-mpi-ompss.c:49-54 | the same into the other array, from the old one |
| Sweeps.GaussEquation | dependencies/extrae/example/LINUX/MPI+OMPSS/solver-mpi-ompss.c:120-144 | after a Gauss-Seidel step every covered cell is the mean of its left and upper neighbours as they are now and its right and lower ones as they were, and no other cell has changed |
| Sweeps.RedBlackEquation | dependencies/extrae/example/LINUX/MPI+OMPSS/solver-mpi-ompss.c:78-112 | after a red-black step, whatever the order within a colour, the tiles with ii + jj even have read the cells around them as they were, the others as they are now; inside a tile left and upper neighbours are read new, the others old |
| Sweeps.JacobiEquation | dependencies/extrae/example/LINUX/MPI+OMPSS/solver-mpi-ompss.c:31-63 | after a Jacobi step every covered cell is the mean of its four old neighbours, and no other cell has changed |
| Sweeps.GaussResidual | dependencies/extrae/example/LINUX/MPI+OMPSS/solver-mpi-ompss.c:120-144 | the residual is the sum of the squared changes of the covered cells; it is zero if and only if each of them was the mean of its neighbours, and then the grid is as before |
| Sweeps.RedBlackResidual | dependencies/extrae/example/LINUX/MPI+OMPSS/solver-mpi-ompss.c:68-115 | the same of a red-black step, whatever the order within a colour |
| Sweeps.JacobiResidual | dependencies/extrae/example/LINUX/MPI+OMPSS/solver-mpi-ompss.c:31-63 | the residual is the sum of the squares of how much target and source differ in the covered cells; it is zero if and only if each of them is the mean of its neighbours |
| Sweeps.SolutionStays | dependencies/extrae/example/LINUX/MPI+OMPSS/solver-mpi-ompss.c:31-144 | a grid made of a plane and a saddle, a discrete solution, is left as it is by every sweep, with residual zero |
| Queue.InsertItemAfter | dependencies/extrae/src/common/queue.h:96-97 | keeps a well-formed circular doubly linked list and inserts at the place after the item |
| Queue.InsertItemBefore | dependencies/extrae/src/common/queue.h:102-103 | the same before an item; before the head node means at the tail |
| Queue.RemoveItem | dependencies/extrae/src/common/queue.h:54-55 | removes just that item from the list |
| Queue.EnqueueItem | dependencies/extrae/src/common/queue.h:90-91 | appends at the tail |
| Queue.EnqueueHeadItem | dependencies/extrae/src/common/queue.h:60-61 | inserts right after the head node |
| Queue.DequeueItem | dependencies/extrae/src/common/queue.h:108-109 | takes the first item, or gives null and changes nothing on an empty queue |
| Queue.GetHeadItem | dependencies/extrae/src/common/queue.h:79 | the first item, or null if the queue is empty |
| Queue.GetNextItem | dependencies/extrae/src/common/queue.h:84 | the item after, or null at the end |
| Queue.InitQueue | dependencies/extrae/src/common/queue.h:42-43 | an empty ring |
| Queue.IsNull | dependencies/extrae/src/common/queue.h:48-49 | true exactly for the empty ring |
| Queue.SplicedIn | dependencies/extrae/src/common/queue.h:96-103 | rerouting one link through a new item gives the ring with that item inserted |
| Queue.SplicedOut | dependencies/extrae/src/common/queue.h:54-55 | rerouting a link past an item gives the ring without it |
| Queue.FindSlot | dependencies/extrae/src/common/queue.h:126-129 | the walk from the tail stops at the last item the new one may follow: not larger than it when sorting upwards, not smaller when sorting downwards |
| Queue.InsertItemSorted | dependencies/extrae/src/common/queue.h:122-145 | inserts there and changes no sort field; a queue with the smallest field first stays so for INSERT_ITEM_INCREASING, and one with the largest first for INSERT_ITEM_DECREASING |
| Queue.InsertKeepsOrdered | dependencies/extrae/src/common/queue.h:122-145 | an ordered queue stays ordered and the new item goes after all items it ties with |
| Queue.InsertAllSortsStably | dependencies/extrae/src/common/queue.h:122-145 | inserting any items one by one sorts them stably, losing and inventing none |
| Queue.WhichWay | dependencies/extrae/src/common/queue.h:122-145 | in the end fields are ascending for INSERT_ITEM_INCREASING and descending for INSERT_ITEM_DECREASING |
| Queue.LinkBlock | dependencies/extrae/src/common/queue.h:250-266 | a new block is linked through the first fields of its items |
| Queue.Pool.Alloc | dependencies/extrae/src/common/queue.h:243-271 | hands out an item no client holds, carving a block of new items only when none is free; the carved items stay exactly the free ones, each listed once, and the held ones |
| Queue.Pool.FreeItem | dependencies/extrae/src/common/queue.h:312-317 | puts a held item in front of the free list; the carved items stay the same |
| Queue.Pool.NumItemsFree | dependencies/extrae/src/common/queue.h:243-271 | free items are all items ever carved minus those held |
| Queue.Pool.ResetQueue | dependencies/extrae/src/common/queue.h:65-74 | ends with an empty ring, the free list being the reversed queue followed by the old free list, and the carved items the same |
| CounterSets.CapKeepsLimit | dependencies/extrae/src/others/papi_best_set.C:177-208 | no printed set is larger than eight, if and only if at most eight counters are omnipresent, or there are others but none of them can be counted; beyond eight the unsigned subtraction wraps, and without others the omnipresent ones are printed alone |
| CounterSets.NoGroup | dependencies/extrae/src/others/papi_best_set.C:441-460 | no group is printed if and only if no non-empty set of the counters can be counted within the cap |
| CounterSets.NineAndOne | dependencies/extrae/src/others/papi_best_set.C:400-414 | nine omnipresent counters and one more that can be counted are printed as a set of ten |
| CounterSets.BestBelowIsBest | dependencies/extrae/src/others/papi_best_set.C:174-190 | the search picks the numerically smallest of the fitting masks of maximum size |
| CounterSets.FullIsFinal | dependencies/extrae/src/others/papi_best_set.C:182-184 | the early stop never changes the result |
| CounterSets.SearchEnds | dependencies/extrae/src/others/papi_best_set.C:174-190 | the loop ends if and only if there are at most 31 counters, the cap is 0, or a compatible set among the first 32 counters has exactly the size of the cap; although up to 62 counters are let through |
| CounterSets.RunsForEver | dependencies/extrae/src/others/papi_best_set.C:174-190 | with 32 counters none of which can be counted, the empty selection aside, it never ends |
| CounterSets.FindMax | dependencies/extrae/src/others/papi_best_set.C:174-190 | wherever the loop ends, with up to 62 counters, it has found that mask |
| CounterSets.EraseSelected | dependencies/extrae/src/others/papi_best_set.C:231-242 | the loop over the bits, highest first, erases exactly the selected counters and keeps the order of the rest |
| CounterSets.CheckMaxEventSet | dependencies/extrae/src/others/papi_best_set.C:165-249 | one call that ends prints the counters of that mask and leaves the others; with up to eight omnipresent counters, no compatible choice of the counters that keeps to eight in all is larger |
| CounterSets.PartitionCounters | dependencies/extrae/src/others/papi_best_set.C:441-460 | if every search on the way ends, the loop of main does, and prints the greedy groups, or one set of the omnipresent counters alone if there are no others, and gives the leftover; with up to eight omnipresent counters each group is a largest choice, of what is left by then, that keeps to eight in all, and nothing that does is left over |
| CounterSets.PartitionIsLargest | dependencies/extrae/src/others/papi_best_set.C:441-460 | so it is for every list of counters, in terms of choices of counters instead of masks |
| Masks.SublistIsSelected | dependencies/extrae/src/others/papi_best_set.C:174-190 | the masks below 2^n are all choices from n counters, with one bit for every counter chosen |
| Masks.UnselectedIsSublist | dependencies/extrae/src/others/papi_best_set.C:231-242 | what is left keeps its order |
| CounterSets.PartitionSharesOut | dependencies/extrae/src/others/papi_best_set.C:441-460 | groups and leftover together are the input counters, each once |
| CounterSets.PartitionIsGreedy | dependencies/extrae/src/others/papi_best_set.C:441-460 | groups fit the cap and are not empty, sizes never increase, and no non-empty compatible set within the cap is left over |
| CounterSets.BestNotGrowing | dependencies/extrae/src/others/papi_best_set.C:441-460 | what remains after a group never admits a larger one |
| BitCounter.CreateBitmask | dependencies/extrae/src/others/papi_best_set_old.c:41-54 | a fresh array of zeros |
| BitCounter.NextValue | dependencies/extrae/src/others/papi_best_set_old.c:73-82 | adds one to the number the bits spell, lowest bit first, and stays inside the array as long as not all bits are set |
| BitCounter.CarryAddsOne | dependencies/extrae/src/others/papi_best_set_old.c:77-81 | clearing a run of ones and setting the next bit adds one |
| BitCounter.CountActiveBits | dependencies/extrae/src/others/papi_best_set_old.c:84-93 | counts the bits of the number the array spells |
| BitCounter.IsLastValue | dependencies/extrae/src/others/papi_best_set_old.c:95-103 | true exactly for the largest number |
| BitCounter.KeptIsLargest | dependencies/extrae/src/others/papi_best_set_old.c:150-203 | what is kept is exactly the compatible masks of maximum size, in increasing order without repeats |
| BitCounter.LargestChoices | dependencies/extrae/src/others/papi_best_set_old.c:150-203 | a choice of counters is printed if and only if it is compatible and no compatible choice is larger |
| BitCounter.Keep | dependencies/extrae/src/others/papi_best_set_old.c:153-201 | the loop body keeps the mask, starts afresh with it or drops it, as that requires |
| BitCounter.CheckMaxEventSet | dependencies/extrae/src/others/papi_best_set_old.c:135-203 | the do-while visits every non-zero mask once, in order, and ends with those masks |
| TimeSync.TimeSync.GetNodeId | dependencies/extrae/src/common/timesync.c:62-80 | interning: the identifier is in range and names the node, known names keep theirs, new ones are appended |
| TimeSync.TimeSync.SetInitialTime | dependencies/extrae/src/common/timesync.c:176-190 | sets up one task and touches no other |
| TimeSync.TimeSync.SameNodeSameId | dependencies/extrae/src/common/timesync.c:62-80 | two tasks have the same identifier exactly when they were given the same node name |
| TimeSync.TimeSync.CalculateLatencies | dependencies/extrae/src/common/timesync.c:197-265 | succeeds exactly when every task is set up, and then computes the shifts of the strategy moved left by the earliest start |
| TimeSync.TimeSync.AlignTasks | dependencies/extrae/src/common/timesync.c:215-226 | per task: each shift is the largest sync time minus the own one |
| TimeSync.TimeSync.AlignNodes | dependencies/extrae/src/common/timesync.c:227-249 | per node: each shift is the largest sync time minus the largest of the own node |
| TimeSync.TimeSync.MoveToZero | dependencies/extrae/src/common/timesync.c:251-260 | finds the earliest shifted start and moves all shifts left by it |
| TimeSync.EarliestStartIsZero | dependencies/extrae/src/common/timesync.c:251-260 | after a successful calculation the earliest synchronised start is exactly 0, whatever wraps on the way |
| TimeSync.TaskSyncPointsCoincide | dependencies/extrae/src/common/timesync.c:215-226 | per task, all synchronisation points come to the same moment |
| TimeSync.SameNodeSameShift | dependencies/extrae/src/common/timesync.c:227-249 | per node, tasks of one node get the same shift |
| TimeSync.NodeSyncPointsCoincide | dependencies/extrae/src/common/timesync.c:227-249 | per node, the latest synchronisation points of all nodes come to the same moment |
| TimeSync.CalculatingIsIdempotent | dependencies/extrae/src/common/timesync.c:197-265 | calculating again with the same strategy changes nothing |
| TimeSync.NoSyncKeepsShifts | dependencies/extrae/src/common/timesync.c:251-260 | a calculation without synchronisation after any successful one keeps every shift, although it works in place |
| TimeSync.DesyncUndoes | dependencies/extrae/src/common/timesync.c:273-287 | for every shift and 64-bit time, desynchronising undoes synchronising and the other way round |
| TimeSync.SyncIsAddition | dependencies/extrae/src/common/timesync.c:273-276 | with times below 2^62 synchronising is plain addition: nothing wraps |
| UserFunctions.UserFunctionTable.Add | dependencies/extrae/src/tracer/UF_gcc_instrument.c:123-148 | stores the address in the first free slot of its probe, with the statistics, or refuses it |
| UserFunctions.UserFunctionTable.LookFor | dependencies/extrae/src/tracer/UF_gcc_instrument.c:150-163 | the lookup loop with its own stopping rule |
| UserFunctions.UserFunctionTable.Reset | dependencies/extrae/src/tracer/UF_gcc_instrument.c:165-171 | an empty table with zero statistics |
| UserFunctions.AddFailsExactly | dependencies/extrae/src/tracer/UF_gcc_instrument.c:134-146 | an add is refused exactly when all slots of its probe, going round the table, are taken |
| UserFunctions.LookedIsContains | dependencies/extrae/src/tracer/UF_gcc_instrument.c:150-163 | the lookup decides whether the address stands in its probe without a gap before it |
| UserFunctions.AddContains | dependencies/extrae/src/tracer/UF_gcc_instrument.c:123-163 | an add makes exactly the added address found, and only if it succeeds |
| UserFunctions.LookupAfterAdds | dependencies/extrae/src/tracer/UF_gcc_instrument.c:123-171 | from reset, for every sequence of adds, a lookup succeeds if and only if some add of the address did |
| UserFunctions.Statistics | dependencies/extrae/src/tracer/UF_gcc_instrument.c:123-148 | the count is the number of occupied slots plus the adds of the null address that succeeded; collisions are at most distance, and distance at most look-ahead times collisions |
| UserFunctions.CountIsOccupied | dependencies/extrae/src/tracer/UF_gcc_instrument.c:123-148 | the count is the number of occupied slots if and only if no add of the null address succeeded |
| UserFunctions.NullIsCounted | dependencies/extrae/src/tracer/UF_gcc_instrument.c:127-131 | the first add of the null address is counted and takes no slot |
| UserFunctions.CountersFit | dependencies/extrae/src/tracer/UF_gcc_instrument.c:53-54 | with the constants of the source and no null address the 32-bit statistics never wrap |
| UserFunctions.WordsInTurn | dependencies/extrae/src/tracer/UF_gcc_instrument.c:56-60 | the addresses of one 8-byte word share their first slot, and the next word has the next slot, going round |
| UserFunctions.WindowFits | dependencies/extrae/src/tracer/UF_gcc_instrument.c:123-148 | functions in different words of a stretch no larger than the table all go to their first slots, without a collision |
| UserFunctions.FirstAddsFit | dependencies/extrae/src/tracer/UF_gcc_instrument.c:123-163 | one add more than the look-ahead always fits, whatever the addresses: all are counted, and all but the null address are found |
| UserFunctions.DistanceIsDisplacement | dependencies/extrae/src/tracer/UF_gcc_instrument.c:123-148 | without null addresses, the distance is how far all addresses stand from their first slots, going round, and collisions is how many stand elsewhere |
| TraceMode.TraceModes.SetInitial | dependencies/extrae/src/tracer/mode.c:191-201 | only a valid mode becomes the starting mode |
| TraceMode.TraceModes.ReInitialize | dependencies/extrae/src/tracer/mode.c:69-120 | growing keeps the state of existing threads and starts new ones in the starting mode |
| TraceMode.TraceModes.Switch | dependencies/extrae/src/tracer/mode.c:178-187 | asks the given threads for the other mode |
| TraceMode.TraceModes.Change | dependencies/extrae/src/tracer/mode.c:154-176 | carries out a pending or first change of one thread, with an event if the mode changes or it is the first |
| TraceMode.StepKeeps | dependencies/extrae/src/tracer/mode.c:69-187 | every operation but a shrinking keeps each thread, the changes it made and its events in step, traced or not |
| TraceMode.RecordedAlternates | dependencies/extrae/src/tracer/mode.c:154-176 | modes taken in turn, of which some are recorded, are recorded alternately if and only if the gaps between recorded ones are even |
| TraceMode.AlternatesExactly | dependencies/extrae/src/tracer/mode.c:69-187 | over every run in which the arrays never shrink, the mode events of a thread alternate if and only if between any two consecutive traced emitting changes evenly many untraced ones were made |
| TraceMode.LastEventExactly | dependencies/extrae/src/tracer/mode.c:69-187 | the last event is the mode the thread is in if and only if evenly many untraced emitting changes followed it |
| TraceMode.EventsAlternate | dependencies/extrae/src/tracer/mode.c:69-187 | so if every change is traced, the events alternate strictly and the last one is the mode the thread is in |
| TraceMode.SwitchesActAsOne | dependencies/extrae/src/tracer/mode.c:178-187 | any positive number of switches in a row does what one does |
| TraceMode.SwitchThenChange | dependencies/extrae/src/tracer/mode.c:154-187 | a switch and a change put a thread in the other mode, with one event |
| TraceMode.UntracedRepeats | dependencies/extrae/src/tracer/mode.c:154-187 | of the interface, were it called more often: in any run, one untraced change between two traced ones breaks the alternation |
| TraceMode.OneThreadRepeats | dependencies/extrae/src/tracer/mode.c:127-187 | such calls from the very beginning, with one thread and two switches |
| TraceMode.ChangesPerSwitch | dependencies/extrae/src/tracer/mode.c:69-187 | in every run a thread makes its first change and then at most one emitting change for every switch |
| TraceMode.OneSwitchAlternates | dependencies/extrae/src/tracer/mode.c:69-187 | in every run with at most one switch, as many as the program makes, the events of every thread alternate, traced or not, and the last one is the mode the thread is in if and only if it was not the case that the first change was traced and the other one not |
| TraceMode.LastSwitchLost | dependencies/extrae/src/tracer/mode.c:154-187 | in any run, a switch and a change while tracing is off, after a traced change, leave a last event that is not the mode the thread is in |
| TraceMode.FinalizeUntraced | dependencies/extrae/src/tracer/wrappers/MPI/mpi_wrapper.c:1227-1233 | such a run with one switch: a process that started in bursts mode and stopped tracing before MPI_Finalize is in detail mode, and its events say bursts |
| TraceMode.ShrinkingRepeats | dependencies/extrae/src/tracer/mode.c:69-120 | if the arrays were shrunk and grown again, a thread that comes back would announce the starting mode; its events would still alternate if and only if it announced the other one last |
| Bursts.TracingThread.TraceMpiEvent | dependencies/extrae/src/tracer/trace_macros_mpi.h:62-103 | one MPI event in bursts mode: records, depth, begin and exit times |
| Bursts.TracingThread.TraceMpiInitEvent | dependencies/extrae/src/tracer/trace_macros_mpi.h:39-60 | the record of an initialisation event; only its end sets the exit time |
| Bursts.TracingThread.BurstsModeSampling | dependencies/extrae/src/tracer/trace_macros_mpi.h:149-180 | the sampling variant of the macro |
| Bursts.TracingThread.BurstsModePlain | dependencies/extrae/src/tracer/trace_macros_mpi.h:189-231 | the variant without sampling |
| Bursts.BurstsAreLongGaps | dependencies/extrae/src/tracer/trace_macros_mpi.h:62-231 | over calls in time order the buffer gets exactly the gaps between calls longer than the threshold, and the depth returns to what it was |
| Bursts.RecordsAlternate | dependencies/extrae/src/tracer/trace_macros_mpi.h:149-231 | the records alternate between begin and end with times that never go back |
| Bursts.GapsInOrder | dependencies/extrae/src/tracer/trace_macros_mpi.h:149-231 | the recorded gaps follow each other, each longer than the threshold |
| Bursts.VariantsAgree | dependencies/extrae/src/tracer/trace_macros_mpi.h:144-232 | on any sequence of events, nested or out of order too, both variants of the macro write the same times and values and keep the same depth |
| Bursts.TimesGrowExactly | dependencies/extrae/src/tracer/trace_macros_mpi.h:62-231 | over any events in the order of their times, the times of the records never go back if and only if no call is begun before one that was begun after a long gap has ended |
| Bursts.NestedCallGoesBack | dependencies/extrae/src/tracer/trace_macros_mpi.h:62-103 | a call begun inside one that follows a long gap reports that gap twice, so times do go back |
| Bursts.BurstsAfterInit | dependencies/extrae/src/tracer/trace_macros_mpi.h:39-60 | after an initialisation, whatever came before it, calls in time order add exactly the long gaps measured from its end |
| Bursts.DepthCounts | dependencies/extrae/src/tracer/trace_macros_mpi.h:81-101 | over any events the depth is the number of calls begun and not ended, and the last begin and exit times are those of the latest such events |
| Bursts.CountersOf | dependencies/extrae/src/tracer/trace_macros_mpi.h:149-231 | over calls in time order, the record that begins a burst has the accumulated counters and the one that ends it reads them; only without sampling, and if nothing was accumulated, the first one reads them too |
| Bursts.EarlyBegin | dependencies/extrae/src/tracer/trace_macros_mpi.h:160-163 | a call begun before the last exit counts as one after a long gap, because the subtraction wraps, unless threshold and distance reach 2^64 |
| HeatRows.Scatter | dependencies/extrae/example/LINUX/MPI+OMPSS/heat-mpi-ompss.c:112-131 | the scatter loop gives every process its block and sends it with a halo row on either side |
| HeatRows.RankZero | dependencies/extrae/example/LINUX/MPI+OMPSS/heat-mpi-ompss.c:133-136 | what process 0 computes for itself is its block in the loops |
| HeatRows.Gather | dependencies/extrae/example/LINUX/MPI+OMPSS/heat-mpi-ompss.c:188-200 | the gather loop receives the own rows of every other process into the grid of process 0, each message where its block begins |
| HeatRows.BlocksAreContiguous | dependencies/extrae/example/LINUX/MPI+OMPSS/heat-mpi-ompss.c:112-131 | blocks follow each other without gap from the first row to the last, and the first ones, as many as there are rows over, have one row more |
| HeatRows.EachRowOnce | dependencies/extrae/example/LINUX/MPI+OMPSS/heat-mpi-ompss.c:112-131 | every row belongs to exactly one process |
| HeatRows.SlicesInside | dependencies/extrae/example/LINUX/MPI+OMPSS/heat-mpi-ompss.c:125-128 | everything sent or received lies inside the grid |
| HeatSweep.RelaxedStrip | dependencies/extrae/example/LINUX/MPI+OMPSS/heat-mpi-ompss.c:270 | sweeping a strip writes the own rows as sweeping the whole grid does, and no halo row |
| HeatSweep.ResidualOfStrip | dependencies/extrae/example/LINUX/MPI+OMPSS/heat-mpi-ompss.c:270 | the residual of a strip is the part of the residual of the whole sweep that its rows make up |
| HeatSweep.RelaxedIsJacobi | dependencies/extrae/example/LINUX/MPI+OMPSS/solver-mpi-ompss.c:31-63 | corollary of the definitions: the sweep of a strip is the blocked Jacobi step of the solver, up to the last column the tiles cover |
| HeatExchange.NoDeadlock | dependencies/extrae/example/LINUX/MPI+OMPSS/heat-mpi-ompss.c:271-282 | in whatever order calls start and complete, each completing once its partner has sent, the exchange gets stuck only when everybody has finished, is over after exactly two steps for every call, and leaves the same strips in every run |
| HeatExchange.RunsAreAlike | dependencies/extrae/example/LINUX/MPI+OMPSS/heat-mpi-ompss.c:271-282 | at any time in any run, how far the processes are determines every strip and every row on its way; the steps made are those the processes are ahead of their start |
| HeatExchange.ExchangeCompletes | dependencies/extrae/example/LINUX/MPI+OMPSS/heat-mpi-ompss.c:271-282 | after the exchange every strip, halo included, reads as the whole grid; only the upper halo of a process without rows may not |
| HeatRanks.ScatterMirrors | dependencies/extrae/example/LINUX/MPI+OMPSS/heat-mpi-ompss.c:112-136 | after the scatter every process holds its part of the grid, halo included |
| HeatRanks.AllSwept | dependencies/extrae/example/LINUX/MPI+OMPSS/heat-mpi-ompss.c:264-270 | after the sweep the strips have what the exchange needs |
| HeatRanks.StepMirrors | dependencies/extrae/example/LINUX/MPI+OMPSS/heat-mpi-ompss.c:264-288 | one iteration of all processes keeps every process in step with one iteration on the whole grid |
| HeatRanks.RunsMirror | dependencies/extrae/example/LINUX/MPI+OMPSS/heat-mpi-ompss.c:260-313 | so do any number of iterations |
| HeatRanks.ResidualsAgree | dependencies/extrae/example/LINUX/MPI+OMPSS/heat-mpi-ompss.c:300-302 | the reduced residual of all processes is the residual of the whole sweep |
| HeatRanks.StopTogether | dependencies/extrae/example/LINUX/MPI+OMPSS/heat-mpi-ompss.c:298-312 | corollary: the stop test comes out as for one process with the whole grid, in every iteration |
| HeatRanks.EndsExactly | dependencies/extrae/example/LINUX/MPI+OMPSS/heat-mpi-ompss.c:298-312 | the loop is left after the first multiple of ten iterations whose residual is below 0.00005 or that reaches the limit; with a limit that is at most nine iterations beyond it |
| HeatRanks.EndTogether | dependencies/extrae/example/LINUX/MPI+OMPSS/heat-mpi-ompss.c:298-312 | the processes leave the loop after just as many iterations as one process would |
| HeatRanks.GatherGives | dependencies/extrae/example/LINUX/MPI+OMPSS/heat-mpi-ompss.c:188-200 | once the messages with the own rows of the processes in step with a grid are received into the grid of process 0, it is that grid |
| HeatRanks.DistributedIsSingle | dependencies/extrae/example/LINUX/MPI+OMPSS/heat-mpi-ompss.c:105-200 | scattered to two or more processes, iterated any number of times and received back, message by message, into the grid of process 0, the grid is the one a single process computes, even if there are more processes than rows |
| TraceFiles.NameRoundTrip | dependencies/extrae/src/common/common.h:76-90 | a name written from a pid up to 2^31-1 and a task and thread below 10^6 reads back as written, behind any prefix, and no digit loop leaves an int on the way |
| TraceFiles.TaskReadsBack | dependencies/extrae/src/others/genmpits.c:61-64 | with a thread of at most six digits, a task number reads back if and only if it has at most six digits |
| TraceFiles.ThreadReadsBack | dependencies/extrae/src/common/common.h:76-90 | a name is the prefix, ten digits that spell the pid, six that spell the task, six that spell the thread, and the extension |
| TraceFiles.NamesDiffer | dependencies/extrae/src/common/common.h:76-90 | files written from numbers in range have the same name if and only if prefix, pid, task and thread are the same |
| TraceFiles.PaddedRead | dependencies/extrae/src/common/common.h:84 | zero-padded decimal reads back to the number, however wide it gets |
| TraceFiles.ReadNumber | dependencies/extrae/src/others/genmpits.c:62-68 | the digit loop computes the number a field of the name spells |
| TraceFiles.SortFilesByTime | dependencies/extrae/src/others/genmpits.c:81-101 | the comparator is the sign of the difference of the pids read |
| TraceFiles.ComparesPids | dependencies/extrae/src/others/genmpits.c:81-101 | written names are ordered by the pids they were written from |
| TraceFiles.SortedByPid | dependencies/extrae/src/others/genmpits.c:103-106 | names in an order the comparator accepts go by pid, so the files of one process stand together |
| TraceFiles.DumpFiles | dependencies/extrae/src/others/genmpits.c:54-79 | the listing: a separator before every file of a task 0 but the first file |
| TraceFiles.ListedWithPid | dependencies/extrae/src/others/genmpits.c:54-79 | every written file is listed once, in its place, with the pid it was written from if pids are asked for |
| TraceFiles.ListingGroups | dependencies/extrae/src/others/genmpits.c:70-78 | the separators cut the files, in order and without loss, into groups; later groups start with a file of a task 0 and no other file of a task 0 stands further on in a group |
| TraceFiles.OneApplication | dependencies/extrae/src/others/genmpits.c:70-72 | a listing shows one application if and only if no file but the first is of a task 0 |
| TraceFiles.TwoThreadsTwoGroups | dependencies/extrae/src/others/genmpits.c:70-72 | so the files of any two threads of a task 0 are listed as two applications |

## Left out

- JNI bindings, XML configuration, event classification, Dyninst launchers, setup scripts: foreign calls, lookups and I/O.
- Mutexes, printing, allocation failure and `exit`: operations are atomic and memory suffices.
- Hash table: a search returns the entry, not a pointer through which the caller could change it.
- Solvers: `double` is modelled by `real`, so rounding is not; index arithmetic does not wrap; grids have at least two rows and two columns, since the unsigned `sizex-2` wraps below.
- Solver.RelaxJacobi: tasks run one after the other in any order, so the unsynchronised update of the shared sum is not modelled.
- HeatRanks.DistributedIsSingle: for two or more processes, because with one the exchange addresses process 1, which does not exist.
- HeatRanks.StepMirrors: an iteration maps the arrays of all processes to new ones; that sweep, exchange and copy work in place is only shown for the sweep, by `Solver.RelaxJacobi`.
- Heat: red-black and Gauss-Seidel across processes: the workers call them on a full-size grid they do not hold.
- Queue: the macros with named link fields, the unchecked dequeue, zeroing of items and the tracing variants of the allocator; an item has one sort field, and its first field, which links free items, is `next`.
- CounterSets.CheckMaxEventSet: for up to 62 counters, as the program asserts, and for searches that end; `CounterSets.SearchEnds` says exactly which do.
- Counter sets: PAPI itself, reading the command line and `addCounters`.
- BitCounter.NextValue: not called on all ones, where the program reads one place past the array.
- TimeSync.TimeSync.CalculateLatencies: task 0 of application 0 exists, as the program assumes.
- User functions: reading the list of functions and the callbacks that look them up.
- TraceMode.TraceModes.Change: the event goes to the buffer of the thread that is changed; counters are not modelled.
- TraceMode.TraceModes.ReInitialize: the caller passes the number of threads the arrays have.
- Bursts: of the counters only whether they were read or accumulated; MPI statistics and call stacks; the records of normal mode.
- Trace files: truncation of names to the buffer, the sorting algorithm itself, the limit of 32768 files and the directory scan; names shorter than the fields are not read, where the program would read before their start.
- The vector and queue containers `extrae_vector.c` and `new-queue.c`: they would add only easy members.

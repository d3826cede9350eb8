# PreTest message broadcast: a Dafny model

`PreTest2KVS2015/PreTest.c` reads an undirected road map of `numCities`
cities from a data file. It then computes how long a message sent from
city 0 takes to reach every city, with Dijkstra's algorithm. The file gives
only the lower triangle of the travel-time matrix, and `x` marks a blocked
pair. The program keeps the triangle in one packed array. It also has:

- a binary min-heap of `PathNode {city, time}` as the open list;
- an append-only array of path nodes as the closed list;
- the search, which pops the nearest open city, closes it and relaxes every
  hop from it.

The search ends with one of two reports:

- the largest closed time, when every city was closed;
- "no path".

The modules follow the program's sections:

| file | module | models |
|---|---|---|
| `cint.dfy` | `CInt` | C's truncating `/` and `%` |
| `adjacency.dfy` | `Adjacency` | `ConvertRowAndColToAdjacencyTableIndex` and the table size |
| `parse.dfy` | `Parsing` | the table-filling part of `ParseDataFile`, over a token sequence |
| `path_nodes.dfy` | `PathNodes` | `struct PathNode` |
| `heap_spec.dfy` | `HeapSpec` | the heap's sift-up and sift-down, as functions on sequences, with their lemmas |
| `min_heap.dfy` | `MinHeaps` | `struct MinHeap` and its functions, as a class over an `array` |
| `node_array.dfy` | `NodeArrays` | `struct NodeArray` and its functions, as a class over an `array` |
| `graphs.dfy` | `Graphs` | `struct Data`, and what a route and a least travel time are |
| `city_counting.dfy` | `CityCounting` | counting facts about lists with distinct cities |
| `search_invariants.dfy` | `SearchInvariants` | the loop invariants of `DijkstraSearch`, one lemma per step |
| `relaxation.dfy` | `Relaxation` | what one pass of the relaxation loop does to each city's open entry |
| `dijkstra.dfy` | `Dijkstra` | `DijkstraSearch`, which returns an `Outcome` instead of printing |

The heap and closed-list methods change their arrays in place. Each is
proved equal to a function on the old contents, for example
`Contents() == SiftDown(old(Contents()), index)`. The facts that matter are
proved about those functions:

- the result is a permutation;
- cities stay distinct;
- heap order is restored;
- ties are never swapped.

The search is proved against a graph specification. Every closed time is
the least cost of a non-blocked route from city 0. The outcome is
`ReachedAll(m)` exactly when every city is reachable, and then `m` is the
farthest city's least time.

## Model

| member | source | states |
|---|---|---|
| `CInt.CDiv` | PreTest2KVS2015/PreTest.c:237 | Division by a positive divisor truncates toward zero, as C's `/` does. |
| `CInt.CRem` | PreTest2KVS2015/PreTest.c:32 | The remainder takes the dividend's sign and recombines with `CDiv` to the dividend, as C's `%` does. |
| `CInt.MinusOneHalf` | PreTest2KVS2015/PreTest.c:237 | C's `(0-1)/2` is 0 while Euclidean division gives -1. The model's parent computation reproduces C's value; the guard `index > 0` keeps it from being read at index 0. |
| `Adjacency.ClosedForm` | PreTest2KVS2015/PreTest.c:18-41 | For `0 <= col < row`, both the odd and the even branch give `row*(row-1)/2 + col`, in either argument order. |
| `Adjacency.TriangleFormula` | PreTest2KVS2015/PreTest.c:18-41 | The first slot of row `r` is `r*(r-1)/2`. |
| `Adjacency.SlotIsTableIndex` | PreTest2KVS2015/PreTest.c:18-41 | For distinct non-negative cities, the map equals the division-free slot: the larger city's row start plus the smaller city. |
| `Adjacency.SentinelExactlyOnDiagonal` | PreTest2KVS2015/PreTest.c:20-23 | On non-negative cities the result is -1 if and only if `row == col`. Otherwise it is non-negative. |
| `Adjacency.Symmetric` | PreTest2KVS2015/PreTest.c:24-28 | Swapping the two arguments gives the same slot. |
| `Adjacency.TableSizeFormula` | PreTest2KVS2015/PreTest.c:53 | The allocated size `Convert(n, 0)` is `n*(n-1)/2`. |
| `Adjacency.TriangleMonotone` | PreTest2KVS2015/PreTest.c:18-41 | A row's slots end no later than the next row's start, so the rows do not overlap. |
| `Adjacency.InRange` | PreTest2KVS2015/PreTest.c:53 | Every pair of distinct cities below `n` gets a slot inside the allocated table. |
| `Adjacency.SlotsDiffer` | PreTest2KVS2015/PreTest.c:18-41 | Two ordered pairs with the same slot are the same pair. |
| `Adjacency.Injective` | PreTest2KVS2015/PreTest.c:18-41 | Two pairs of distinct cities share a slot only if they are the same unordered pair. |
| `Adjacency.Onto` | PreTest2KVS2015/PreTest.c:53 | Every slot of the `n`-city table belongs to some pair `col < row < n`. Together with `Injective` and `InRange`, the map is a bijection onto the allocation. |
| `Adjacency.Int32Limit` | PreTest2KVS2015/PreTest.c:53 | The allocation size `Convert(n, 0)` fits a 32-bit `int` for 65536 cities but not for 65537. |
| `Parsing.ParseDataFile` | PreTest2KVS2015/PreTest.c:99-149 | The first value is the city count. If it is positive, the table has `n*(n-1)/2` slots. The fill loop writes slot `k` with the `k`-th value after the count, so slots are filled in order and each exactly once. The parse succeeds if and only if the count is positive and none of those values is an end-of-file or file-error marker. A successful parse gives well-formed `Data`. |
| `HeapSpec.Swap` | PreTest2KVS2015/PreTest.c:218-220 | The two entries trade places and the length is kept. |
| `HeapSpec.SwapFacts` | PreTest2KVS2015/PreTest.c:218-220 | An exchange leaves every other entry alone, keeps the multiset and keeps the cities distinct. |
| `HeapSpec.SiftUpPermutes` | PreTest2KVS2015/PreTest.c:233-249 | Sift-up only exchanges entries: the multiset and distinct cities are kept. |
| `HeapSpec.SiftDownPermutes` | PreTest2KVS2015/PreTest.c:196-231 | Sift-down only exchanges entries: the multiset and distinct cities are kept. |
| `HeapSpec.SmallerChild` | PreTest2KVS2015/PreTest.c:205-213 | The compared child is one of the two children of `k` and lies inside the heap. |
| `HeapSpec.SmallerChildIsLeast` | PreTest2KVS2015/PreTest.c:205-213 | The chosen child's time is at most every child's time. |
| `HeapSpec.TieGoesRight` | PreTest2KVS2015/PreTest.c:207-213 | When both children tie and beat the parent, sift-down continues down the right child. |
| `HeapSpec.SiftUpDisplacesOnlyLater` | PreTest2KVS2015/PreTest.c:239 | Every entry that sift-up moves is either the rising entry or strictly later than it, so equal times are never exchanged. |
| `HeapSpec.SiftDownDisplacesOnlyEarlier` | PreTest2KVS2015/PreTest.c:215 | Every entry that sift-down moves is either the sinking entry or strictly earlier than it, so equal times are never exchanged. |
| `HeapSpec.SiftUpRestores` | PreTest2KVS2015/PreTest.c:233-249 | If heap order held everywhere except between the moved entry and its parent, it holds everywhere after sift-up. |
| `HeapSpec.SiftDownRestores` | PreTest2KVS2015/PreTest.c:196-231 | If heap order held everywhere except between the moved entry and its children, it holds everywhere after sift-down. |
| `HeapSpec.RootIsMinimum` | PreTest2KVS2015/PreTest.c:264 | In a heap-ordered sequence, the root's time is at most every entry's time. |
| `HeapSpec.Insert` | PreTest2KVS2015/PreTest.c:251-258 | Appending and sifting up adds exactly the node to the multiset and keeps cities distinct when the city is new. |
| `HeapSpec.InsertKeepsOrder` | PreTest2KVS2015/PreTest.c:251-258 | Insertion keeps heap order. |
| `HeapSpec.RemoveRoot` | PreTest2KVS2015/PreTest.c:262-267 | Moving the last entry to the root and sifting down removes exactly the root's occurrence and keeps cities distinct. |
| `HeapSpec.RemoveRootKeepsOrder` | PreTest2KVS2015/PreTest.c:262-267 | Removing the root keeps heap order. |
| `HeapSpec.ChangeKey` | PreTest2KVS2015/PreTest.c:283-298 | An out-of-range index or an unchanged weight leaves the heap as it is. Otherwise the multiset is the old one with just that entry's time replaced, and cities stay distinct. |
| `HeapSpec.ChangeKeyKeepsOrder` | PreTest2KVS2015/PreTest.c:283-298 | A key change in either direction keeps heap order. |
| `MinHeaps.MinHeap.constructor` | PreTest2KVS2015/PreTest.c:168-186 | A fresh, empty heap with the given capacity. |
| `MinHeaps.MinHeap.BubbleDown` | PreTest2KVS2015/PreTest.c:196-231 | The in-place loop leaves the heap's prefix equal to `SiftDown` of the old prefix. An index out of range changes nothing. |
| `MinHeaps.MinHeap.BubbleUp` | PreTest2KVS2015/PreTest.c:233-249 | The in-place loop leaves the heap's prefix equal to `SiftUp` of the old prefix. The parent is read only when `index > 0`. |
| `MinHeaps.MinHeap.AddTo` | PreTest2KVS2015/PreTest.c:251-258 | A full heap changes nothing. Otherwise the count grows by one and the contents become `Insert(old, node)`. |
| `MinHeaps.MinHeap.Pop` | PreTest2KVS2015/PreTest.c:260-268 | An empty heap returns `None` and changes nothing. Otherwise it returns the old root, the count drops by one and the contents become `RemoveRoot(old)`. |
| `MinHeaps.MinHeap.Find` | PreTest2KVS2015/PreTest.c:270-281 | Returns the lowest index whose city matches, or -1 if none does; it changes nothing. |
| `MinHeaps.MinHeap.ChangeNodeWeight` | PreTest2KVS2015/PreTest.c:283-298 | The contents become `ChangeKey(old, index, newWeight)`. |
| `NodeArrays.NodeArray.constructor` | PreTest2KVS2015/PreTest.c:309-327 | A fresh, empty closed list with the given capacity. |
| `NodeArrays.NodeArray.AddTo` | PreTest2KVS2015/PreTest.c:337-343 | Only below capacity, appends the node after the existing entries and leaves those entries unchanged. Otherwise nothing changes. |
| `NodeArrays.NodeArray.Find` | PreTest2KVS2015/PreTest.c:345-356 | Returns the lowest index whose city matches, or -1 if none does; it changes nothing. |
| `Graphs.CostNonNegative` | PreTest2KVS2015/PreTest.c:397 | Blocked pairs are never travelled, so a route's time is never negative. |
| `Graphs.PrefixCost` | PreTest2KVS2015/PreTest.c:401 | A prefix of a route costs no more than the route. |
| `Graphs.Extend` | PreTest2KVS2015/PreTest.c:401-408 | One non-blocked hop extends a route by exactly that hop's time. |
| `Graphs.OriginIsZero` | PreTest2KVS2015/PreTest.c:368-371 | City 0's least time is 0, the seed's time. |
| `Graphs.ShortestIsUnique` | PreTest2KVS2015/PreTest.c:373-413 | A city has only one least time. |
| `Graphs.ShortestNonNegative` | PreTest2KVS2015/PreTest.c:417-425 | Reachable times are never negative, so starting `longestTime` at 0 loses nothing. |
| `CityCounting.AtMost` | PreTest2KVS2015/PreTest.c:366 | Nodes with distinct cities below `n` number at most `n`. |
| `CityCounting.AllPresent` | PreTest2KVS2015/PreTest.c:415 | `n` such nodes contain every city. |
| `CityCounting.SomeMissing` | PreTest2KVS2015/PreTest.c:415 | Fewer than `n` nodes miss some city. |
| `SearchInvariants.CountBound` | PreTest2KVS2015/PreTest.c:366-413 | No city is both open and closed, so open + closed is at most `numCities`. |
| `SearchInvariants.Start` | PreTest2KVS2015/PreTest.c:366-371 | The seeded heap `[PathNode(0, 0)]` and the empty closed list satisfy the loop invariant. |
| `SearchInvariants.PopIsShortest` | PreTest2KVS2015/PreTest.c:377 | The popped root's time is its city's least travel time. |
| `SearchInvariants.PopStep` | PreTest2KVS2015/PreTest.c:377-378 | Before a pop the closed list has room. Afterwards the popped node, appended to the closed list, starts the relaxation invariant. |
| `SearchInvariants.RelaxSkip` | PreTest2KVS2015/PreTest.c:383-397 | A city that is the current one, already closed, behind a blocked pair, or open with no worse time needs no change. |
| `SearchInvariants.RelaxDecrease` | PreTest2KVS2015/PreTest.c:401-404 | The decrease-key, taken only for a strictly better time, keeps the relaxation invariant. |
| `SearchInvariants.RelaxInsert` | PreTest2KVS2015/PreTest.c:406-410 | The open list has room, so the insertion is never dropped, and it keeps the relaxation invariant. |
| `SearchInvariants.RelaxDone` | PreTest2KVS2015/PreTest.c:380-413 | After the inner loop over all cities, the outer-loop invariant holds again. |
| `SearchInvariants.RoutesEndClosed` | PreTest2KVS2015/PreTest.c:373 | Once the open list is empty, every reachable city is closed. |
| `SearchInvariants.Finish` | PreTest2KVS2015/PreTest.c:415 | At the end, a full closed list holds every city, and a short one means some city is unreachable. |
| `SearchInvariants.MaxTime` | PreTest2KVS2015/PreTest.c:417-425 | The result is non-negative and at least every closed time. It is 0 or one of the closed times. |
| `SearchInvariants.Concluded` | PreTest2KVS2015/PreTest.c:415 | The closed list has distinct cities, non-decreasing times, and least times only. It is full if and only if every city is reachable. |
| `SearchInvariants.Farthest` | PreTest2KVS2015/PreTest.c:415-426 | With a full closed list, the largest closed time is the farthest city's least time. |
| `Relaxation.ChangeKeyEntries` | PreTest2KVS2015/PreTest.c:283-298 | On a heap with distinct cities, a key change leaves every other city's entries as they were. The changed city then holds exactly the new time. |
| `Relaxation.InsertEntries` | PreTest2KVS2015/PreTest.c:251-258 | Inserting a node for an absent city leaves every other city's entries as they were. The new city holds exactly the inserted time. |
| `Relaxation.OneEntry` | PreTest2KVS2015/PreTest.c:395 | With distinct cities, a city has at most one node, so the first match `MinHeapFind` returns is the city's only entry. |
| `Relaxation.ProgressSkip` | PreTest2KVS2015/PreTest.c:383-411 | A city whose entry the hop does not improve is left as it was. This covers the popped city, closed cities, blocked hops and open entries that are no later. |
| `Relaxation.ProgressDecrease` | PreTest2KVS2015/PreTest.c:401-404 | The decrease-key for a strictly smaller time gives the city exactly the offered time and touches no other city. |
| `Relaxation.ProgressInsert` | PreTest2KVS2015/PreTest.c:406-410 | Inserting an absent city gives it exactly the offered time and touches no other city. |
| `Relaxation.ProgressDone` | PreTest2KVS2015/PreTest.c:380 | After the last city, every city, in range or not, has its relaxed entry. |
| `Dijkstra.RelaxNeighbours` | PreTest2KVS2015/PreTest.c:380-413 | The inner `for` loop changes only the open list. City by city, the new entries are as `Relaxation.RelaxedEntry` states: a city that is not closed, has a non-blocked hop from the popped node and is absent or open with a strictly later time holds exactly the time through that hop. Every other city keeps its entry or its absence, including on a tie. Afterwards every hop out of every closed node has been offered to the open list. |
| `Dijkstra.RelaxCity` | PreTest2KVS2015/PreTest.c:381-412 | One pass of the loop body, for one city, keeps the relaxation invariant. It advances the per-city account by that city: it skips the popped city itself, closed cities, blocked hops and open entries that are no later. It lowers an open entry only for a strictly smaller time, and inserts an absent city. |
| `Dijkstra.LongestTime` | PreTest2KVS2015/PreTest.c:417-425 | The scan over the closed list computes `MaxTime` of its contents. |
| `Dijkstra.Search` | PreTest2KVS2015/PreTest.c:373-414 | The `while` loop leaves the heap object empty (`openList.Contents() == []`), and the search invariant holds for the final closed list. |
| `Dijkstra.Reported` | PreTest2KVS2015/PreTest.c:415-431 | The report says "reached all" if and only if every city is reachable and the closed count is `numCities`. The time it gives is the farthest city's least time. |
| `Dijkstra.DijkstraSearch` | PreTest2KVS2015/PreTest.c:360-442 | For `numCities > 0`: `ReachedAll(m)` exactly when every city is reachable from city 0, and then `m` is the farthest city's least time. The closed list has distinct cities, non-decreasing times and least times. For `numCities == 0` the result is `ReachedAll(0)`; for a negative count it is `NoPath`. |

## Left out

- `CalculateNextValue` (PreTest.c:73-97) is not modelled. It reads a `FILE*` stream with `getc`, `fseek`, `fscanf_s` and `feof`. `Parsing.ParseDataFile` instead takes the values its calls would return as a sequence, and reads past the end give the end-of-file marker.
- `Parsing.ParseDataFile`: opening and closing the file, and the branch where `fopen` fails, are left out as file I/O.
- `Parsing.ParseDataFile`: the `malloc` of `AllocateAdjacencyTableData` never fails in the model. For one city the C code asks for `malloc(0)`, which may return a null pointer and fail the parse. The model allocates an empty table and succeeds, because that outcome depends on the C allocator.
- Console output (`printf`) and `main` are left out as I/O. `DijkstraSearch` returns an `Outcome` instead of printing.
- Allocation failure in `MinHeapInit` and `NodeArrayInit` is left out: both constructors always succeed. `DijkstraSearch`'s `bool` result, which reports only that failure, is therefore not modelled. `MinHeapDestroy`, `NodeArrayDestroy` and this freeing are memory management with no observable effect in the model.
- The arrays the C code leaves uninitialised after `malloc` are filled with a placeholder node in the model. The proofs never read beyond `numElements`.
- `potentialNode.mTime` is uninitialised in the C code when the `Find` calls run. These read only the city, so the model sets the time to 0.
- No `pHeap`/`pArray` null tests: a Dafny object reference is never null here, so those branches cannot be taken.
- `Adjacency.TableIndex`: integers are unbounded, so the 32-bit overflow of the index expressions at PreTest.c:34 and :39 is not modelled. The C value leaves the `int` range exactly when the slot exceeds 2147483647. The first city count where this happens is 65537, as `Adjacency.Int32Limit` shows. `Adjacency.InRange`, `Adjacency.Injective` and `Adjacency.Onto` hold for every city count in the model. In C they hold only up to 65536 cities.
- `Parsing.ParseDataFile`: for `numCities >= 65537` the C allocation size `Convert(numCities, 0)` (PreTest.c:53) overflows, and the C parse does not behave as the model does. The model's table size and success condition are the unbounded ones.
- `Dijkstra.DijkstraSearch`: times are unbounded integers, so the 32-bit overflow of `lowestNode.mTime + moveTime` (PreTest.c:401, 408) on very large maps is not modelled.
- `Graphs.Weight` reads the table through `Adjacency.Slot`, the division-free form of the index map. `Adjacency.SlotIsTableIndex` proves it equal to `ConvertRowAndColToAdjacencyTableIndex` on every pair the search reads, and `Dijkstra.RelaxCity` reads through `TableIndex` as the source does.

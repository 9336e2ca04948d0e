# Stock-Sensei analytics core in Dafny

This project models the in-memory analytics layer of Stock-Sensei, a Java
stock-market dashboard, and proves properties of it. The layer has five parts.

- **The stock entity** (`model/Stock.java`). A mutable `Stock` recomputes its
  derived fields (price change, percentage change, volatility) from its two
  prices. Equality is by symbol only. Modules: `Stocks` (class `Stock` and the
  value type `StockValue` that every container stores).
- **Two binary max-heaps.**
  - `MaxHeap<T>` is array-backed, with a `size` field, sift-up and sift-down,
    growth by one half, and a bottom-up build. Modules: `Heaps`, with the
    order lemmas in `HeapOrder`.
  - `StockMaxHeap` ranks stocks by one comparator key over a list. Module:
    `StockHeaps`.
- **The sector accumulator** `SectorMetrics`: count, totals and averages.
  Module: `Sectors`.
- **Two graphs.**
  - `StockGraph` is a symbol-keyed adjacency map with sector filtering, hub
    ranking, a level-bounded breadth-first search, depth-first clustering and
    per-sector aggregation. Module: `StockGraphs`.
  - `BFSGraph` is a small integer-vertex breadth-first search. Module:
    `IntGraph`.
  - Reachability by levels (`Reach`, `Reachable`, `NoFartherThan`) is defined
    once in `Reachability`. The breadth-first loop invariants are shared in
    `BreadthFirst`.
- **The service façade** `StockAnalysisService`. Module: `Service`.
  - It keeps the upsert-by-symbol table and mirrors every upsert into the graph
    and four heaps.
  - It answers rankings, sorted listings, the market summary and text search.
  - Its hand-written quicksort and merge sort are in `Sorting`.
  - The shared orderings, sortedness and filtering are in `Orders`.

Representation choices:

- **Numbers.** `double` prices and percentages are `real`. `long` and `int`
  are `int`. The 32-bit hash code is wrapped explicitly.
- **Comparators.** Every heap ranks by a key projection into the reals:
  `StockMaxHeap` and the service criteria by `StockValue -> real`, and the
  generic `MaxHeap<T extends Comparable<T>>` by `T -> real`, so that
  `a.compareTo(b) <= 0` is `key(a) <= key(b)`. Only the sorting utilities
  take a relation `le(a, b)` meaning `compare(a, b) <= 0`.
- **Collections.** A Java `ArrayList` mutated in place is a `seq` field that each update reassigns. An
  `Object[]` buffer is an `array`. A `HashMap` is a `map`.
- **Nulls.** A `Map.get` that may return null gives an `Option`.
- **Iteration order.** The iteration order of a `HashMap` or `HashSet` is
  unspecified. The model enumerates such a collection in an arbitrary order
  that it chooses, and no contract depends on that order.
- **Ghost state.** The class invariants use ghost state: the multiset of a
  heap, the stocks added to an accumulator, and the stocks inserted into the
  service since the last clear.

## Model

| member | source | states |
|---|---|---|
| Stocks.PercentChangeOf | src/main/java/com/stocksensei/model/Stock.java:42-44 | exactly 0 when the previous close is 0; otherwise percent × previousClose = priceChange × 100; with a positive previous close it is positive exactly when the price rose |
| Stocks.Abs | src/main/java/com/stocksensei/model/Stock.java:45 | volatility is never negative and is ± the percentage |
| Stocks.NewStockValue | src/main/java/com/stocksensei/model/Stock.java:27-46 | the constructed value keeps the six given fields and its derived fields are consistent with the prices |
| Stocks.Stock.constructor | src/main/java/com/stocksensei/model/Stock.java:27-37 | the new stock's fields are the given ones, with consistent derived fields |
| Stocks.Stock.CalculateMetrics | src/main/java/com/stocksensei/model/Stock.java:40-46 | re-establishes consistency; changes only the three derived fields |
| Stocks.Stock.SetSymbol | src/main/java/com/stocksensei/model/Stock.java:50 | only the symbol changes |
| Stocks.Stock.SetName | src/main/java/com/stocksensei/model/Stock.java:53 | only the name changes |
| Stocks.Stock.SetCurrentPrice | src/main/java/com/stocksensei/model/Stock.java:56-59 | the stock becomes the constructor's value for the new price; the derived fields are consistent again |
| Stocks.Stock.SetPreviousClose | src/main/java/com/stocksensei/model/Stock.java:62-65 | the stock becomes the constructor's value for the new previous close; the derived fields are consistent again |
| Stocks.Stock.SetVolume | src/main/java/com/stocksensei/model/Stock.java:71 | only the volume changes; consistency is kept |
| Stocks.Stock.SetSector | src/main/java/com/stocksensei/model/Stock.java:82 | only the sector changes; consistency is kept |
| Stocks.Stock.SetVolatility | src/main/java/com/stocksensei/model/Stock.java:74 | only the volatility changes; a consistent stock stays consistent exactly when the new value equals the absolute percentage, so other values break the invariant |
| Stocks.StockValue.CompareTo | src/main/java/com/stocksensei/model/Stock.java:86-88 | the sign is negative exactly when this stock's percentage is larger (descending order); it is positive exactly when it is smaller |
| Stocks.CompareToIsComparator | src/main/java/com/stocksensei/model/Stock.java:86-88 | compareTo is antisymmetric and transitive, and gives 0 exactly for equal percentages |
| Stocks.StockValue.HashCode | src/main/java/com/stocksensei/model/Stock.java:99-101 | `Objects.hash(symbol)`, that is 31 + the symbol's string hash, wrapped to 32 bits; it lies in the 32-bit range (for symbols of Basic Multilingual Plane characters, as under "## Left out") |
| Stocks.StringHash | src/main/java/com/stocksensei/model/Stock.java:99-101 | `String.hashCode`: 0 for the empty string, otherwise 31 × the hash of all but the last character plus that character, wrapped to 32 bits; always in the 32-bit range (for Basic Multilingual Plane characters, as under "## Left out") |
| Stocks.ToInt32 | src/main/java/com/stocksensei/model/Stock.java:99-101 | the 32-bit wrap-around of the hash arithmetic: in range and congruent modulo 2^32 |
| Stocks.EqualStocksHaveEqualHashCodes | src/main/java/com/stocksensei/model/Stock.java:91-101 | stocks that are equal by symbol have equal hash codes, whatever their prices |
| Stocks.StockValue.Equals | src/main/java/com/stocksensei/model/Stock.java:91-97 | two stocks are equal exactly when their symbols are (the identity, null and class checks have no counterpart among values) |
| Stocks.EqualsIsEquivalence | src/main/java/com/stocksensei/model/Stock.java:91-97 | `equals` is reflexive, symmetric and transitive |
| Stocks.TotalsConcat | src/main/java/com/stocksensei/service/StockAnalysisService.java:182-185 | the volume and percentage sums of a concatenation are the sums of the parts |
| Heaps.ParentIndex | src/main/java/com/stocksensei/datastructures/MaxHeap.java:30-32 | Java's truncating `(i - 1) / 2` bracketed: for i ≥ 1 it is the parent slot; for i < 1 the result truncates toward zero |
| Heaps.MaxHeap.constructor | src/main/java/com/stocksensei/datastructures/MaxHeap.java:9-12 | an empty heap of capacity 16 |
| Heaps.MaxHeap.WithCapacity | src/main/java/com/stocksensei/datastructures/MaxHeap.java:14-18 | an empty heap whose capacity is the given one, or 16 when that is not positive |
| Heaps.MaxHeap.FromArray | src/main/java/com/stocksensei/datastructures/MaxHeap.java:20-28 | capacity max(length, 16); the stored multiset is exactly the items, in heap order after the bottom-up build |
| Heaps.MaxHeap.SiftUp | src/main/java/com/stocksensei/datastructures/MaxHeap.java:35-46 | with the first idx slots in heap order, the first idx + 1 slots end in heap order with the same multiset; the rest is untouched |
| Heaps.MaxHeap.SiftDown | src/main/java/com/stocksensei/datastructures/MaxHeap.java:57-84 | restores heap order from idx with the same multiset; `moved` is false exactly when nothing changed, and when true the slot's key grew |
| Heaps.MaxHeap.LargestChild | src/main/java/com/stocksensei/datastructures/MaxHeap.java:61-73 | the slot among current and its children with the largest key, keeping current on ties |
| Heaps.MaxHeap.Exchange | src/main/java/com/stocksensei/datastructures/MaxHeap.java:77-79 | exchanges the two slots |
| Heaps.MaxHeap.EnsureCapacity | src/main/java/com/stocksensei/datastructures/MaxHeap.java:86-93 | afterwards the length is at least the capacity and the first size slots are unchanged; it reallocates only when needed, to max(length + length/2, capacity) |
| Heaps.MaxHeap.Insert | src/main/java/com/stocksensei/datastructures/MaxHeap.java:95-100 | size grows by one; the multiset gains the value; heap order is kept |
| Heaps.MaxHeap.ToArray | src/main/java/com/stocksensei/datastructures/MaxHeap.java:103-107 | a fresh array holding exactly the first size slots |
| Heaps.MaxHeap.Peek | src/main/java/com/stocksensei/datastructures/MaxHeap.java:110-112 | None exactly when the heap is empty; otherwise a stored element whose key is the largest |
| Heaps.MaxHeap.Poll | src/main/java/com/stocksensei/datastructures/MaxHeap.java:115-123 | on an empty heap it returns None and changes nothing; otherwise it returns the old root, which is maximal, the size drops by one, the multiset loses exactly that element, and heap order holds |
| Heaps.MaxHeap.RemoveRoot | src/main/java/com/stocksensei/datastructures/MaxHeap.java:117-121 | moves the last slot to the root and sifts it down: one fewer element, the root's copy removed, heap order kept |
| Heaps.MaxHeap.IsEmpty | src/main/java/com/stocksensei/datastructures/MaxHeap.java:125-127 | true exactly when the stored multiset is empty |
| Heaps.MaxHeap.DrainAll | src/main/java/com/stocksensei/datastructures/MaxHeap.java:161 | polling until empty yields exactly the stored elements, in non-increasing key order |
| HeapOrder.SiftUpRestores | src/main/java/com/stocksensei/datastructures/StockMaxHeap.java:64-74 | the sift-up of one out-of-place slot leaves the whole prefix in heap order |
| HeapOrder.SiftDownRestores | src/main/java/com/stocksensei/datastructures/StockMaxHeap.java:77-99 | the sift-down of one out-of-place slot restores heap order below the starting slot |
| HeapOrder.RootIsMax | src/main/java/com/stocksensei/datastructures/MaxHeap.java:110-112 | in a heap-ordered prefix the root has the largest key |
| StockHeaps.IndexOf | src/main/java/com/stocksensei/datastructures/StockMaxHeap.java:110 | `indexOf` via symbol equality: the first slot equal to the stock, or -1 when none is |
| StockHeaps.StockMaxHeap.constructor | src/main/java/com/stocksensei/datastructures/StockMaxHeap.java:16-19 | an empty heap ranking by the given key |
| StockHeaps.StockMaxHeap.Insert | src/main/java/com/stocksensei/datastructures/StockMaxHeap.java:22-25 | the size grows by one even when a stock with the same symbol is present; the multiset gains the stock; heap order is kept |
| StockHeaps.StockMaxHeap.ExtractMax | src/main/java/com/stocksensei/datastructures/StockMaxHeap.java:28-42 | None on an empty heap; otherwise the old root, maximal under the key; the size drops by one; exactly that entry leaves the multiset; heap order holds |
| StockHeaps.StockMaxHeap.RemoveRoot | src/main/java/com/stocksensei/datastructures/StockMaxHeap.java:34-39 | removes the last entry and, if any remain, moves it to the root and sifts down: the root's copy leaves the multiset and heap order holds |
| StockHeaps.StockMaxHeap.PeekMax | src/main/java/com/stocksensei/datastructures/StockMaxHeap.java:45-47 | None exactly when empty; otherwise a stored stock with the largest key |
| StockHeaps.StockMaxHeap.GetTopK | src/main/java/com/stocksensei/datastructures/StockMaxHeap.java:50-61 | the result is `TopKOf` of the heap (the first min(k, size) slots sorted by the reversed key); the heap is unchanged |
| StockHeaps.TopKOf | src/main/java/com/stocksensei/datastructures/StockMaxHeap.java:50-61 | max(0, min(k, size)) entries, a permutation of the first that many slots |
| StockHeaps.TopKNonIncreasing | src/main/java/com/stocksensei/datastructures/StockMaxHeap.java:59 | the keys of getTopK's result never increase |
| StockHeaps.TopKStartsWithMax | src/main/java/com/stocksensei/datastructures/StockMaxHeap.java:54-59 | for k > 0 on a non-empty heap, the first entry has the largest key in the heap |
| StockHeaps.TopKWhole | src/main/java/com/stocksensei/datastructures/StockMaxHeap.java:54-59 | for k ≥ size the result holds every entry of the heap |
| StockHeaps.TopKNeedNotBeLargest | src/main/java/com/stocksensei/datastructures/StockMaxHeap.java:54-56 | on the valid heap 3, 1, 2, getTopK(2) contains 1 and leaves out 2: the prefix is not the two largest |
| StockHeaps.StockMaxHeap.HeapifyUp | src/main/java/com/stocksensei/datastructures/StockMaxHeap.java:64-74 | keeps the multiset and leaves only the downward violation at the start slot, so the heap is valid when that slot is a leaf |
| StockHeaps.StockMaxHeap.HeapifyDown | src/main/java/com/stocksensei/datastructures/StockMaxHeap.java:77-99 | keeps the multiset and makes the heap valid |
| StockHeaps.StockMaxHeap.Exchange | src/main/java/com/stocksensei/datastructures/StockMaxHeap.java:102-106 | exchanges the two slots |
| StockHeaps.StockMaxHeap.UpdateStock | src/main/java/com/stocksensei/datastructures/StockMaxHeap.java:109-116 | with no entry equal by symbol, nothing changes; otherwise that first entry is replaced by the stock, the size is the same and heap order is restored |
| StockHeaps.StockMaxHeap.Clear | src/main/java/com/stocksensei/datastructures/StockMaxHeap.java:119-121 | the heap is empty |
| StockHeaps.StockMaxHeap.Size | src/main/java/com/stocksensei/datastructures/StockMaxHeap.java:123-125 | the number of stored entries, repeats included |
| StockHeaps.StockMaxHeap.IsEmpty | src/main/java/com/stocksensei/datastructures/StockMaxHeap.java:127-129 | true exactly when no entry is stored |
| StockHeaps.StockMaxHeap.GetAllStocks | src/main/java/com/stocksensei/datastructures/StockMaxHeap.java:131-133 | a copy of the backing list |
| Sectors.Average | src/main/java/com/stocksensei/datastructures/SectorMetrics.java:31-32 | average × count = total when count > 0; 0 otherwise |
| Sectors.SectorMetrics.constructor | src/main/java/com/stocksensei/datastructures/SectorMetrics.java:16-21 | the given sector, with count, totals and averages all zero |
| Sectors.SectorMetrics.AddStock | src/main/java/com/stocksensei/datastructures/SectorMetrics.java:23-28 | the count grows by one; the stock's volume and percentage are added; the sector is unchanged; the averages are the totals over the count |
| Sectors.SectorMetrics.CalculateAverages | src/main/java/com/stocksensei/datastructures/SectorMetrics.java:30-33 | the averages agree with the totals and count (0 for count 0); nothing else changes |
| Sectors.SectorMetrics.SetSector | src/main/java/com/stocksensei/datastructures/SectorMetrics.java:40-42 | only the sector name changes |
| Sectors.AverageVolumeBounded | src/main/java/com/stocksensei/datastructures/SectorMetrics.java:23-33 | the average volume of added stocks lies between their smallest and largest volume |
| Sectors.VolumeSumBounded | src/main/java/com/stocksensei/datastructures/SectorMetrics.java:25 | the volume total of n stocks lies between n × the lower and n × the upper bound |
| Sectors.ThreeVolumesAverage | src/main/java/com/stocksensei/datastructures/SectorMetrics.java:23-33 | volumes 100, 200 and 300 average to 200 |
| StockGraphs.Lookup | src/main/java/com/stocksensei/datastructures/StockGraph.java:148 | `Map.get`: Some of the value exactly when the key is present, None (null) otherwise |
| StockGraphs.Enumerate | src/main/java/com/stocksensei/datastructures/StockGraph.java:34 | an iteration over a key set or value set: each element once, nothing else |
| StockGraphs.StockGraph.constructor | src/main/java/com/stocksensei/datastructures/StockGraph.java:15-18 | an empty graph |
| StockGraphs.StockGraph.AddStock | src/main/java/com/stocksensei/datastructures/StockGraph.java:21-24 | the vertex payload is overwritten; an empty edge list is created only for a new symbol, so existing edges survive |
| StockGraphs.StockGraph.AddEdge | src/main/java/com/stocksensei/datastructures/StockGraph.java:27-29 | appends the edge to the source's list; other lists and the stocks are unchanged |
| StockGraphs.StockGraph.GetStocksBySector | src/main/java/com/stocksensei/datastructures/StockGraph.java:32-40 | exactly the vertex payloads of that sector, no symbol twice |
| StockGraphs.StockGraph.GetHubStocks | src/main/java/com/stocksensei/datastructures/StockGraph.java:43-60 | max(0, min(topK, vertices)) distinct vertex payloads in non-increasing out-degree; no vertex left out has more edges than one returned |
| StockGraphs.StockGraph.Nodes | src/main/java/com/stocksensei/datastructures/StockGraph.java:44-50 | one node per vertex, each once, carrying that vertex's stock and the length of its edge list |
| StockGraphs.SortByConnections | src/main/java/com/stocksensei/datastructures/StockGraph.java:52 | a permutation of the nodes in non-increasing connection count |
| StockGraphs.MoreConnectedIsTotalPreorder | src/main/java/com/stocksensei/datastructures/StockGraph.java:52 | the hub comparator is a total preorder meaning "at least as many connections" |
| StockGraphs.FirstStocks | src/main/java/com/stocksensei/datastructures/StockGraph.java:54-57 | the stocks of the first min(topK, size) nodes, in order |
| StockGraphs.StockGraph.FindRelatedStocks | src/main/java/com/stocksensei/datastructures/StockGraph.java:63-95 | the symbols returned are distinct and are exactly those other than the start within maxDepth - 1 edges (none when maxDepth ≤ 1), nearest first, and in exactly the order the search polls them: with the start in front they are a prefix of `SearchLog`, so vertices at the same distance come in the adjacency-list order in which they were first discovered; each entry is the lookup of its symbol (None for an edge target without a stock) |
| StockGraphs.StockGraph.PollLevel | src/main/java/com/stocksensei/datastructures/StockGraph.java:73-90 | one level of the search: polls every queued vertex of the current level and enqueues its unvisited targets; the enqueued log stays equal to `SearchLog` for the polled count |
| StockGraphs.StockGraph.PollOne | src/main/java/com/stocksensei/datastructures/StockGraph.java:75-89 | one poll: the polled vertex advances the search log by one `SearchLog` step, its stock (if not the start) is appended to the result, and the level bookkeeping is kept |
| StockGraphs.StockGraph.Neighbours | src/main/java/com/stocksensei/datastructures/StockGraph.java:81-89 | the symbols enqueued for the polled vertex are its edge targets not yet visited, appended in list order (`Enqueue`), and they are one level further out |
| StockGraphs.TrackPoll | src/main/java/com/stocksensei/datastructures/StockGraph.java:75-89 | polling one vertex and enqueuing its new targets advances the search log by one step and records the polled symbol unless it is the start |
| BreadthFirst.EnqueueFresh | src/main/java/com/stocksensei/datastructures/StockGraph.java:83-88 | targets that are new and repeat-free are enqueued exactly in list order |
| BreadthFirst.FirstLevelInListOrder | src/main/java/com/stocksensei/datastructures/StockGraph.java:72-89 | after polling the start, the queue is its successor list in list order: ties at one distance are broken by adjacency-list order |
| StockGraphs.StockGraph.FindStockClusters | src/main/java/com/stocksensei/datastructures/StockGraph.java:98-113 | the clusters are the lookups of the visited groups; each group is non-empty, starts at a vertex, repeats nothing, and holds exactly the symbols reachable from its first that no earlier group holds; each group is the depth-first pre-order `PreOrder` from its first symbol with the earlier groups marked, edges taken in list order; every vertex is in some group |
| StockGraphs.StockGraph.Cluster | src/main/java/com/stocksensei/datastructures/StockGraph.java:103-108 | one round from an unvisited vertex appends one group that starts at it, in pre-order, and its cluster is never empty |
| StockGraphs.StockGraph.ClusterEach | src/main/java/com/stocksensei/datastructures/StockGraph.java:101-110 | the loop over the symbols leaves every symbol in a group; the groups partition what is reached, each is the stock lookups of its symbols and each is in pre-order |
| StockGraphs.StockGraph.Dfs | src/main/java/com/stocksensei/datastructures/StockGraph.java:115-127 | the visited set and the symbols found are exactly `PreOrder` from the symbol: the symbol, then the search from each still-unvisited edge target in list order; the cluster gains their lookups in that order; all are reachable from the symbol and were unvisited before |
| StockGraphs.PreOrderedAppend | src/main/java/com/stocksensei/datastructures/StockGraph.java:101-110 | appending the pre-order search from a fresh symbol keeps every earlier group the pre-order search it was |
| StockGraphs.PreOrderExample | src/main/java/com/stocksensei/datastructures/StockGraph.java:115-127 | on a -> [b, c], b -> [d] the search from a gives a, b, d, c: depth first, edges in list order |
| StockGraphs.NewGroup | src/main/java/com/stocksensei/datastructures/StockGraph.java:103-107 | after a search from an unvisited symbol, the visited set stays closed under edges and the new group is exactly what is reachable from it and was not visited before |
| StockGraphs.StockGraph.GetSectorMetrics | src/main/java/com/stocksensei/datastructures/StockGraph.java:130-140 | one fresh accumulator per sector among the vertices; each holds exactly that sector's vertex payloads, each once, with count, totals and averages over them |
| StockGraphs.AddToSector | src/main/java/com/stocksensei/datastructures/StockGraph.java:133-137 | one loop step: the stock's sector gets an accumulator if absent, and the stock is added to it |
| StockGraphs.InSectorMembers | src/main/java/com/stocksensei/datastructures/StockGraph.java:133-137 | the stocks accumulated for a sector are exactly the vertex payloads of that sector, each once |
| StockGraphs.AccumulatedAll | src/main/java/com/stocksensei/datastructures/StockGraph.java:130-140 | after every vertex the accumulators hold the sector totals |
| StockGraphs.StockGraph.GetAllStocks | src/main/java/com/stocksensei/datastructures/StockGraph.java:143-145 | every vertex payload once |
| StockGraphs.StockGraph.GetStock | src/main/java/com/stocksensei/datastructures/StockGraph.java:147-149 | Some exactly for a vertex, and then the stock filed under that symbol |
| Reachability.ReachMono | src/main/java/com/stocksensei/datastructures/StockGraph.java:72 | a vertex within j levels is within every k ≥ j levels |
| Reachability.ReachableThroughSucc | src/main/java/com/stocksensei/datastructures/StockGraph.java:121-124 | what a target reaches, its source reaches too |
| BreadthFirst.InLevelOrder | src/main/java/com/stocksensei/datastructures/BFSGraph.java:33-43 | a queue log built level by level lists vertices in non-decreasing distance |
| BreadthFirst.Finished | src/main/java/com/stocksensei/datastructures/BFSGraph.java:33-43 | when the queue is drained the log holds exactly the reachable vertices |
| BreadthFirst.PolledWithin | src/main/java/com/stocksensei/datastructures/StockGraph.java:72-92 | when the level loop stops, the polled vertices are exactly those within maxDepth - 1 levels |
| IntGraph.BFSGraph.constructor | src/main/java/com/stocksensei/datastructures/BFSGraph.java:9-17 | v empty adjacency lists |
| IntGraph.BFSGraph.AddEdge | src/main/java/com/stocksensei/datastructures/BFSGraph.java:19-21 | appends dest to the source's list only |
| IntGraph.BFSGraph.Bfs | src/main/java/com/stocksensei/datastructures/BFSGraph.java:23-44 | the emitted order starts at start, repeats nothing, holds exactly the reachable vertices and is non-decreasing in distance; it is exactly `SearchLog` of the adjacency lists, so each polled vertex's unvisited neighbours follow in list order |
| IntGraph.BFSGraph.Visit | src/main/java/com/stocksensei/datastructures/BFSGraph.java:33-43 | one turn of the loop: polls the next logged vertex and enqueues its unvisited neighbours, keeping the search invariant and the marks, with the log one `SearchLog` step further |
| IntGraph.ScanDone | src/main/java/com/stocksensei/datastructures/BFSGraph.java:33-43 | when the queue is drained the log starts at start, repeats nothing, holds exactly the reachable vertices, is non-decreasing in distance and equals `SearchLog` |
| IntGraph.BFSGraph.Expand | src/main/java/com/stocksensei/datastructures/BFSGraph.java:37-42 | the inner loop keeps the old log as a prefix and makes it `Enqueue(log, neighbours)`: exactly the unvisited neighbours appended, in list order, each marked |
| IntGraph.DemoOrder | src/main/java/com/stocksensei/datastructures/BFSGraph.java:46-56 | on the demo graph 0 -> [1, 2], 1 -> [3, 4], 2 -> [5] the search from 0 visits 0 1 2 3 4 5 |
| BreadthFirst.SearchLogStep | src/main/java/com/stocksensei/datastructures/BFSGraph.java:33-43 | polling the next logged vertex and enqueueing its neighbours is one step of `SearchLog` |
| Orders.Filter | src/main/java/com/stocksensei/service/StockAnalysisService.java:42 | `removeIf` and `stream().filter`: never longer than the input |
| Orders.FilterMembers | src/main/java/com/stocksensei/service/StockAnalysisService.java:203-206 | an element is kept exactly when it is in the input and passes the test |
| Orders.PrefixLength | src/main/java/com/stocksensei/datastructures/StockMaxHeap.java:54 | `Math.min(k, size)` as a loop bound: 0 for k ≤ 0; otherwise at most k and at most size and equal to one of them, which makes it their minimum |
| Orders.Swap | src/main/java/com/stocksensei/service/StockAnalysisService.java:116 | `Collections.swap`: the two slots exchanged, all others and the multiset kept |
| Sorting.Merged | src/main/java/com/stocksensei/service/StockAnalysisService.java:136-152 | the merge of two lists has their combined length and multiset |
| Sorting.Merge | src/main/java/com/stocksensei/service/StockAnalysisService.java:136-152 | the index loop computes the merge, taking the left element on ties |
| Sorting.MergedSorted | src/main/java/com/stocksensei/service/StockAnalysisService.java:136-152 | merging two sorted lists gives a sorted list |
| Sorting.MergedStable | src/main/java/com/stocksensei/service/StockAnalysisService.java:142-143 | merging keeps, among equivalent elements, all left ones before all right ones, each side in order |
| Sorting.MergeSort | src/main/java/com/stocksensei/service/StockAnalysisService.java:124-134 | a permutation of the input |
| Sorting.MergeSortSorted | src/main/java/com/stocksensei/service/StockAnalysisService.java:124-134 | under a total preorder the result is sorted ascending |
| Sorting.MergeSortStable | src/main/java/com/stocksensei/service/StockAnalysisService.java:124-152 | elements that compare equal keep their input order |
| Sorting.QuickSort | src/main/java/com/stocksensei/service/StockAnalysisService.java:89-97 | a sorted permutation of the input, which is left unchanged |
| Sorting.QuickSortHelper | src/main/java/com/stocksensei/service/StockAnalysisService.java:99-106 | sorts slots low..high in place as a permutation of them, leaving the other slots alone |
| Sorting.Partition | src/main/java/com/stocksensei/service/StockAnalysisService.java:108-121 | the pivot lands at pi; slots before it are at most the pivot, slots after it at least; the range is permuted and the rest untouched |
| Sorting.SortedAroundPivot | src/main/java/com/stocksensei/service/StockAnalysisService.java:102-104 | sorted left part, pivot, sorted right part make a sorted whole |
| Service.ParseCriterion | src/main/java/com/stocksensei/service/StockAnalysisService.java:29-38 | the four heap names give their criterion, each exactly for its name; every other name gives None |
| Service.SortOrderIsTotalPreorder | src/main/java/com/stocksensei/service/StockAnalysisService.java:65-83 | each comparator of getAllStocksSorted, key descending or symbol ascending, is a total preorder |
| Service.LexLeTotal | src/main/java/com/stocksensei/service/StockAnalysisService.java:82 | `String.compareTo` is total (for symbols of Basic Multilingual Plane characters) |
| Service.LexLeTransitive | src/main/java/com/stocksensei/service/StockAnalysisService.java:82 | `String.compareTo` is transitive |
| Service.LexLeAntisymmetric | src/main/java/com/stocksensei/service/StockAnalysisService.java:82 | two symbols each at most the other are equal |
| Service.LexLe | src/main/java/com/stocksensei/service/StockAnalysisService.java:82 | `a.compareTo(b) <= 0` on symbols: the empty string is least; otherwise the first characters decide, and on equal first characters the rests do (for Basic Multilingual Plane characters, as under "## Left out") |
| Service.ToLower | src/main/java/com/stocksensei/service/StockAnalysisService.java:202 | same length, each character lower-cased |
| Service.ToLowerIdempotent | src/main/java/com/stocksensei/service/StockAnalysisService.java:202-205 | lower-casing twice is lower-casing once |
| Service.UpsertedLast | src/main/java/com/stocksensei/service/StockAnalysisService.java:42-43 | after the upsert the stock is last and the only entry with its symbol; the others are the old entries with other symbols, in their old order; distinct symbols stay distinct |
| Service.Upserted | src/main/java/com/stocksensei/service/StockAnalysisService.java:42-43 | the table after `removeIf` of the stock's symbol followed by `add`: the entries with another symbol, in order, then the stock |
| Service.FilterDistinctSymbols | src/main/java/com/stocksensei/service/StockAnalysisService.java:42 | `removeIf` keeps symbols distinct |
| Service.UpsertMirrorsGraph | src/main/java/com/stocksensei/service/StockAnalysisService.java:42-45 | a table holding the graph's stocks still does after both are upserted |
| Service.StockAnalysisService.constructor | src/main/java/com/stocksensei/service/StockAnalysisService.java:22-38 | an empty table, an empty graph and four fresh empty heaps, one per criterion key |
| Service.StockAnalysisService.AddOrUpdateStock | src/main/java/com/stocksensei/service/StockAnalysisService.java:41-50 | the table becomes the upsert; the graph payload is overwritten, and the symbol gets an empty edge list only when it had none, so existing edges survive; every heap gains the stock, so it grows by one per call even for a repeated symbol; the invariant is kept |
| Service.StockAnalysisService.UpsertTable | src/main/java/com/stocksensei/service/StockAnalysisService.java:42-45 | the table becomes the upsert and still mirrors the graph, whose payload is overwritten and whose edge lists are kept, with an empty list added only for a new symbol |
| Service.StockAnalysisService.InsertEverywhere | src/main/java/com/stocksensei/service/StockAnalysisService.java:47-49 | each of the four heaps gains the stock and stays ranked by its key |
| Service.StockAnalysisService.GetTopStocks | src/main/java/com/stocksensei/service/StockAnalysisService.java:53-59 | empty for an unknown criterion; otherwise min(k, inserted) stocks drawn from the inserted ones, keys non-increasing, the first with the largest key |
| Service.TopOfHeldStocks | src/main/java/com/stocksensei/service/StockAnalysisService.java:58 | getTopK on a heap holding the inserted stocks: their count bound, keys non-increasing, first maximal |
| Service.StockAnalysisService.GetAllStocksSorted | src/main/java/com/stocksensei/service/StockAnalysisService.java:62-86 | a permutation of the table, sorted by key descending for a known criterion and by symbol ascending otherwise, with equal elements in table order; the table is unchanged |
| Service.StockAnalysisService.GetStocksBySector | src/main/java/com/stocksensei/service/StockAnalysisService.java:155-157 | exactly the table's stocks of the sector, no symbol twice |
| Service.StockAnalysisService.GetSectorPerformance | src/main/java/com/stocksensei/service/StockAnalysisService.java:160-162 | fresh sector accumulators holding the totals over the graph's stocks, which are the table's |
| Service.StockAnalysisService.FindRelatedStocks | src/main/java/com/stocksensei/service/StockAnalysisService.java:165-167 | the graph's related stocks, as for the graph: exactly those within depth - 1 edges, nearest first, in the search's own polling order |
| Service.GainersLosersUnchanged | src/main/java/com/stocksensei/service/StockAnalysisService.java:186-195 | every stock is exactly one of gainer, loser and unchanged |
| Service.CountStep | src/main/java/com/stocksensei/service/StockAnalysisService.java:182-188 | one loop step adds the stock to each running total and counter |
| Service.StockAnalysisService.GetMarketSummary | src/main/java/com/stocksensei/service/StockAnalysisService.java:170-198 | all zeros for an empty table; otherwise the size, the average percentage change, the total volume and the gainer, loser and unchanged counts, which add up to the size |
| Service.StockAnalysisService.SearchStocks | src/main/java/com/stocksensei/service/StockAnalysisService.java:201-207 | exactly the table's stocks whose lower-cased symbol or name contains the lower-cased query, in table order |
| Service.SearchIgnoresCase | src/main/java/com/stocksensei/service/StockAnalysisService.java:202 | search ignores the case of the query |
| Service.Matches | src/main/java/com/stocksensei/service/StockAnalysisService.java:204-205 | the search filter: the lower-cased symbol or the lower-cased name contains the lower-cased query |
| Service.Contains | src/main/java/com/stocksensei/service/StockAnalysisService.java:204-205 | `String.contains`: the query occurs at some offset of the string, the empty query at offset 0 |
| Service.StockAnalysisService.GetAllStocks | src/main/java/com/stocksensei/service/StockAnalysisService.java:210-212 | a copy of the table in table order, which holds exactly the graph's stocks, no symbol twice |
| Service.StockAnalysisService.ClearData | src/main/java/com/stocksensei/service/StockAnalysisService.java:215-219 | the table and every heap are empty and the graph is a fresh one with no vertices |

## Left out

- Concurrency. `synchronized` and `Collections.synchronizedList` are not modelled: the service is sequential.
- Floating point. `double` is an exact `real`, so IEEE rounding, NaN, -0.0 and the quirks of `Double.compare` are not modelled.
- Integer overflow. `long` and `int` are unbounded `int`, so overflow of the volume totals and of the counters is not modelled. The hash code's 32-bit wrap is modelled.
- StockGraphs.StockGraph.GetAllStocks: returns a snapshot of the payloads, while `stocks.values()` is a live view of the map, so later changes to the graph are not seen through the result.
- Aliasing. Containers store `StockValue` snapshots, not references to a mutable `Stock`, so a `Stock` mutated after insertion is not seen through the containers.
- Hash iteration order. The order of `HashMap` and `HashSet` iteration is an arbitrary choice. This covers the order of hub ties, of cluster roots, of sector results and of the graph's stock listings.
- `lastUpdated`. `LocalDateTime lastUpdated`, the no-argument `Stock()` constructor and `toString` are not modelled.
- Getters. The plain getters of `Stock`, `SectorMetrics` and `MarketSummary` are not modelled; the fields are read directly.
- `Edge.weight`. It is stored but never read.
- `addEdge` on a missing vertex. `StockGraph.addEdge` dereferences the list of `from` and throws when it is missing; this is a precondition.
- BFS printing. `BFSGraph.bfs` prints each polled vertex; the model returns the emitted sequence instead.
- BFSGraph bounds. `bfs` indexes `visited` by stored targets, so it requires every target to be in range; the source would throw otherwise.
- The demo mains of `MaxHeap` and `BFSGraph`. Only the drain loop in `MaxHeap`'s main is modelled, as `DrainAll`.
- `MaxHeap` null slots. `poll` writes null into the freed slot; the model leaves the old value beyond `size`, which nothing reads.
- The BFS queues. The `Queue` of `findRelatedStocks` and `bfs` is a log of every enqueued vertex plus a head index.
- `findRelatedStocks` and `findStockClusters` results. A target without a stock gives `null` in Java and None here, and the symbols behind each result are a ghost output.
- `findStockClusters`' non-empty test. The test `!cluster.isEmpty()` is always true, since `dfs` always appends; the model appends without it and proves the cluster non-empty.
- The discarded accumulator. `getSectorMetrics`' `putIfAbsent` allocates an accumulator that is dropped when the sector is present; this cannot be observed and is not modelled.
- `List.sort`. It is modelled by the stable merge sort of `Sorting`, which gives the same result for any stable sort.
- The service's `heaps` map. It is four constant fields plus `ParseCriterion`, since it is filled once and never changed.
- The summary's `unchanged` field is named `unchangedCount`, because `unchanged` is a Dafny keyword.
- Unicode case. `toLowerCase` is ASCII case folding.
- UTF-16. A string is a sequence of Unicode code points, while Java's `String.hashCode` and `String.compareTo` work on UTF-16 code units. So the symbol hash (`Stocks.StringHash`, `Stocks.StockValue.HashCode`) and the symbol order (`Service.LexLe`) agree with Java only for strings of Basic Multilingual Plane characters. A character above U+FFFF hashes as its two surrogates in Java and as one code point here. It also sorts below U+E000–U+FFFF in Java and above them here.
- Other files. `StockDataSimulator` (random prices on a timer), the HTTP and WebSocket controllers and the Spring application are not part of this model.
- Service.StockAnalysisService.GetTopStocks: states the result against the stocks inserted since the last clear, which the heaps hold, rather than by slot, since the heap layout depends on the insertion history.
- Service.StockAnalysisService.GetSectorPerformance: states the totals over the graph's stocks; that these are the table's follows from the class invariant `Mirrored`, not from a clause of its own.

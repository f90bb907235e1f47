# HuskyMaps core, modelled in Dafny

This project models the algorithmic core of the HuskyMaps Java code base:

- two priority queues:
  - `OptimizedHeapMinPQ`, an indexed binary min-heap with an element-to-slot map;
  - `UnsortedArrayMinPQ`, the linear-scan reference queue;
- three autocomplete structures:
  - a sequential scan;
  - a sorted list with a binary search and a contiguous prefix scan;
  - a ternary search tree;
- `ToposortDAGSolver`, single-source shortest paths on a directed acyclic graph by depth-first post-order and edge relaxation;
- `DynamicProgrammingSeamFinder.findHorizontal`, the least-energy horizontal seam.

Each Java class whose fields change becomes a Dafny `class` with the same fields. A mutated `List` or `Map` becomes a `seq` or `map` field that the methods reassign, and the seam finder's 2-D tables become `array2`s. Loops stay `while`/`for` loops with their invariants. Each method is proved against a specification function (`Filter`, `PairsOf`/`ContentsOf`, `Words`, `Cost`/`Trace`, `Reaches`/`Weight`), and the lemmas next to it prove the properties the Java code promises.

Java exceptions become `Failure(e)` or `Fail(e)` values from module `Wrappers`, naming the exception. A `null` argument is an `Option`.

Files and modules:

| file | module | models |
|---|---|---|
| `wrappers.dfy` | `Wrappers` | exceptions, `Option`, `Result`, `Outcome` |
| `terms.dfy` | `Terms` | `CharSequence.compare` and `startsWith` over Unicode scalar values (see Left out), the prefix filter |
| `lists.dfy` | `Lists` | `Collections.reverse` on a list value |
| `sequential_search_autocomplete.dfy` | `SequentialSearch` | `SequentialSearchAutocomplete` |
| `binary_search_autocomplete.dfy` | `BinarySearch` | `BinarySearchAutocomplete`, the JDK's `indexedBinarySearch` |
| `tst_trees.dfy` | `TstTrees` | the ternary search tree as a value: `put`, `get`, the words `collect` emits |
| `ternary_search_tree_autocomplete.dfy` | `TernarySearchTree` | `TernarySearchTreeAutocomplete`, `collect` with its `StringBuilder` |
| `unsorted_array_min_pq.dfy` | `UnsortedArray` | `UnsortedArrayMinPQ` |
| `optimized_heap_min_pq.dfy` | `OptimizedHeap` | `OptimizedHeapMinPQ` |
| `graphs.dfy` | `Graphs` | adjacency-map graphs, paths and their weights |
| `toposort_dag_solver.dfy` | `ShortestPaths` | `ToposortDAGSolver` |
| `dynamic_programming_seam_finder.dfy` | `SeamFinding` | `DynamicProgrammingSeamFinder` |

## Model

| member | source | states |
|---|---|---|
| SequentialSearch.SequentialSearchAutocomplete.constructor | autocomplete/SequentialSearchAutocomplete.java:21-23 | a new instance stores no terms |
| SequentialSearch.SequentialSearchAutocomplete.AddAll | autocomplete/SequentialSearchAutocomplete.java:26-30 | the stored terms become the old ones followed by `terms` in iteration order, duplicates kept |
| SequentialSearch.SequentialSearchAutocomplete.AllMatches | autocomplete/SequentialSearchAutocomplete.java:33-41 | the result is exactly the stored terms that start with the prefix, in insertion order with duplicates; `elements` is not modified |
| SequentialSearch.SequentialSearchAutocomplete.AllMatchesEmptyPrefix | autocomplete/SequentialSearchAutocomplete.java:36 | with the empty prefix every stored term is returned |
| Terms.Filter | autocomplete/SequentialSearchAutocomplete.java:35-39 | the matches are never more than the stored terms |
| Terms.FilterStrictlySorted | autocomplete/TernarySearchTreeAutocomplete.java:57-73 | filtering a strictly increasing list keeps it strictly increasing |
| Terms.FilterMember | autocomplete/SequentialSearchAutocomplete.java:36-37 | a term is a match exactly when it is stored and starts with the prefix |
| Terms.FilterCounts | autocomplete/SequentialSearchAutocomplete.java:35-39 | every copy of a matching term is kept and no copy of another term |
| Terms.FilterEmptyPrefix | autocomplete/SequentialSearchAutocomplete.java:36 | every term starts with the empty prefix |
| Terms.CompareZero | autocomplete/BinarySearchAutocomplete.java:31 | `CharSequence.compare` is zero exactly on equal terms |
| Terms.CompareFlip | autocomplete/BinarySearchAutocomplete.java:31 | swapping the arguments of the comparator flips its sign |
| Terms.CompareTrans | autocomplete/BinarySearchAutocomplete.java:31 | the comparator is transitive, strictly when either step is strict |
| Terms.PrefixNotAbove | autocomplete/BinarySearchAutocomplete.java:37-43 | a prefix sorts at or before every term that starts with it |
| Terms.PrefixInterval | autocomplete/BinarySearchAutocomplete.java:42-49 | a term sorted between a prefix and a term starting with it also starts with it, so the matches are contiguous in sorted order |
| BinarySearch.Insert | autocomplete/BinarySearchAutocomplete.java:31 | inserting into a sorted list keeps it sorted and adds exactly one copy of the term |
| BinarySearch.SortTerms | autocomplete/BinarySearchAutocomplete.java:31 | the sorted list is sorted by `CharSequence.compare` and is a permutation of its input |
| BinarySearch.SortedUnique | autocomplete/BinarySearchAutocomplete.java:31 | two sorted permutations of the same terms are equal, so any correct sort yields the same `elements` |
| BinarySearch.SearchCorrect | autocomplete/BinarySearchAutocomplete.java:37 | on a sorted range, a non-negative search result indexes a term equal to the key; a negative one is `-(insertion point) - 1`, with every earlier term below the key, no later term below it, and the key absent |
| BinarySearch.BinarySearchCorrect | autocomplete/BinarySearchAutocomplete.java:37 | the same promise for the search over the whole list |
| BinarySearch.Run | autocomplete/BinarySearchAutocomplete.java:42-49 | the scan result is a contiguous slice from the start index, every term in it matches, and it stops at the end or at the first non-matching term |
| BinarySearch.RunIsFilter | autocomplete/BinarySearchAutocomplete.java:42-49 | started where every earlier term is below the prefix and no later one is, the scan returns exactly the matching terms |
| BinarySearch.AsWrittenCorrectWhenAbsent | autocomplete/BinarySearchAutocomplete.java:37-49 | when the prefix is not itself stored, the start taken from the insertion point is in range and the scan returns exactly the stored terms that start with the prefix |
| BinarySearch.SmallestTermIsFoundAtZero | autocomplete/BinarySearchAutocomplete.java:37-43 | a prefix equal to the smallest stored term is found at index 0, and the `start < 1` branch turns that into index -1 although matches exist |
| BinarySearch.DuplicatesBeforeTheFoundIndexAreMissed | autocomplete/BinarySearchAutocomplete.java:37-49 | with three copies of the prefix, the search lands on the middle copy and the scan misses the first |
| BinarySearch.BinarySearchAutocomplete.constructor | autocomplete/BinarySearchAutocomplete.java:22-24 | a new instance stores no terms |
| BinarySearch.BinarySearchAutocomplete.AddAll | autocomplete/BinarySearchAutocomplete.java:27-32 | afterwards `elements` is sorted and holds every term ever added, duplicates kept |
| BinarySearch.BinarySearchAutocomplete.Scan | autocomplete/BinarySearchAutocomplete.java:42-49 | the loop with `break` collects exactly the run of matching terms from its start |
| BinarySearch.BinarySearchAutocomplete.AllMatchesAsWritten | autocomplete/BinarySearchAutocomplete.java:35-52 | the query as written throws `IndexOutOfBoundsException` exactly when the search returns 0; otherwise it returns the run from the adjusted start, and `elements` is unchanged |
| BinarySearch.BinarySearchAutocomplete.LowerBound | autocomplete/BinarySearchAutocomplete.java:37-40 | the corrected start: every term before it is below the prefix and none after it is |
| BinarySearch.BinarySearchAutocomplete.AllMatches | autocomplete/BinarySearchAutocomplete.java:35-52 | the corrected query returns exactly the stored terms that start with the prefix, in sorted order with duplicates |
| TstTrees.PutLevel | autocomplete/TernarySearchTreeAutocomplete.java:25-48 | `put` adds the key's char to the chars at its key position and nothing else |
| TstTrees.PutOrdered | autocomplete/TernarySearchTreeAutocomplete.java:31-37 | `put` keeps smaller chars behind left links and larger ones behind right links at every node |
| TstTrees.PutWordsAt | autocomplete/TernarySearchTreeAutocomplete.java:25-48 | after `put`, a word is stored exactly when it was stored before or is the key's suffix |
| TstTrees.PutWords | autocomplete/TernarySearchTreeAutocomplete.java:25-48 | after `put`, the stored words are the old ones and the key's suffix |
| TstTrees.PutStored | autocomplete/TernarySearchTreeAutocomplete.java:39-44 | re-putting a stored key returns the same tree: no node is created and nothing is marked |
| TstTrees.PutAllWords | autocomplete/TernarySearchTreeAutocomplete.java:50-55 | after putting each term, the tree stays ordered and stores exactly the old words and the terms |
| TstTrees.WordsShape | autocomplete/TernarySearchTreeAutocomplete.java:103-117 | every stored word is non-empty and starts with a char at the top position |
| TstTrees.MatchesHoldsPrefix | autocomplete/TernarySearchTreeAutocomplete.java:68-70 | the prefix itself is among the matches exactly when `get` found a node that marks a term |
| TstTrees.FilterAtLeft | autocomplete/TernarySearchTreeAutocomplete.java:86-88 | at a node whose char is above the key's, only the left subtree holds matches |
| TstTrees.FilterAtRight | autocomplete/TernarySearchTreeAutocomplete.java:90-92 | at a node whose char is below the key's, only the right subtree holds matches |
| TstTrees.FilterAtMid | autocomplete/TernarySearchTreeAutocomplete.java:94-96 | at a node with the key's char and more key to come, the matches are the mid words matching the rest of the key |
| TstTrees.FilterAtEnd | autocomplete/TernarySearchTreeAutocomplete.java:98-99 | at the node spelling the last char of the key, the matches are its own term and every word below its mid link |
| TstTrees.FilterFind | autocomplete/TernarySearchTreeAutocomplete.java:62-101 | the stored words starting with `key[i..]` are exactly what `allMatches` collects from the node `get` finds |
| TstTrees.FindStored | autocomplete/TernarySearchTreeAutocomplete.java:76-101 | `get` finds a node marking the key as a term exactly when the key is stored |
| TstTrees.FindAfterPut | autocomplete/TernarySearchTreeAutocomplete.java:25-55 | after `put(key)`, `get(key)` returns a node with `isTerm` set |
| TstTrees.CollectOrderIsWords | autocomplete/TernarySearchTreeAutocomplete.java:103-117 | the left, node, mid, right traversal emits the stored words behind the builder's prefix, in the order of `Words` |
| TstTrees.WordsStrictlySorted | autocomplete/TernarySearchTreeAutocomplete.java:103-117 | `collect` emits the words in strictly increasing order, so each term once |
| TernarySearchTree.Collect | autocomplete/TernarySearchTreeAutocomplete.java:103-117 | `collect` appends the subtree's words behind the prefix in traversal order, and the `StringBuilder` ends as it started because each append is undone by `deleteCharAt` |
| TernarySearchTree.TernarySearchTreeAutocomplete.constructor | autocomplete/TernarySearchTreeAutocomplete.java:21-23 | a new instance has an empty tree |
| TernarySearchTree.TernarySearchTreeAutocomplete.AddAll | autocomplete/TernarySearchTreeAutocomplete.java:50-55 | each term is put in order and the tree stays ordered; an empty term throws `StringIndexOutOfBoundsException` from `charAt(0)`, with the terms before it already stored |
| TernarySearchTree.TernarySearchTreeAutocomplete.AllMatches | autocomplete/TernarySearchTreeAutocomplete.java:57-73 | a `null` prefix, or an empty prefix on a non-empty tree, throws `IllegalArgumentException`; otherwise the result is exactly the stored terms that start with the prefix, in increasing order |
| UnsortedArray.PairsOfNodes | minpq/UnsortedArrayMinPQ.java:18 | a list of nodes with distinct elements stores exactly its nodes' pairs |
| UnsortedArray.UnsortedArrayMinPQ.constructor | minpq/UnsortedArrayMinPQ.java:23-25 | a new instance is empty |
| UnsortedArray.UnsortedArrayMinPQ.FromMap | minpq/UnsortedArrayMinPQ.java:32-37 | adding each entry in turn yields exactly the given pairs, one node per entry |
| UnsortedArray.UnsortedArrayMinPQ.Add | minpq/UnsortedArrayMinPQ.java:39-45 | a present element throws `IllegalArgumentException` and changes nothing; otherwise exactly one node is appended and the element gets the priority |
| UnsortedArray.UnsortedArrayMinPQ.Contains | minpq/UnsortedArrayMinPQ.java:47-55 | true exactly when some node holds the element |
| UnsortedArray.UnsortedArrayMinPQ.GetPriority | minpq/UnsortedArrayMinPQ.java:57-65 | the priority of the node holding the element, or `NoSuchElementException` when no node holds it |
| UnsortedArray.UnsortedArrayMinPQ.PeekMin | minpq/UnsortedArrayMinPQ.java:67-81 | the element of the first node of least priority, since the comparison is strict; empty throws `NoSuchElementException` |
| UnsortedArray.UnsortedArrayMinPQ.RemoveMin | minpq/UnsortedArrayMinPQ.java:83-97 | removes and returns the first node of least priority, the other nodes keep their order, and exactly that pair leaves the contents; empty throws |
| UnsortedArray.UnsortedArrayMinPQ.ChangePriority | minpq/UnsortedArrayMinPQ.java:99-110 | an absent element throws `NoSuchElementException`; otherwise only the matching node's priority changes |
| UnsortedArray.UnsortedArrayMinPQ.SizeCountsPairs | minpq/UnsortedArrayMinPQ.java:112-115 | `size()` is the number of stored pairs |
| UnsortedArray.RemovePairs | minpq/UnsortedArrayMinPQ.java:96 | removing one slot keeps the elements distinct and drops exactly that element's pair |
| UnsortedArray.RepricePairs | minpq/UnsortedArrayMinPQ.java:105-109 | repricing the matching node changes exactly that element's pair |
| UnsortedArray.PairsCount | minpq/UnsortedArrayMinPQ.java:112-115 | a list with distinct elements has one pair per node |
| OptimizedHeap.RootIsMin | minpq/OptimizedHeapMinPQ.java:115-121 | in a heap-ordered list, slot 1 has a priority no larger than any slot |
| OptimizedHeap.ContentsOfPermutation | minpq/OptimizedHeapMinPQ.java:63-99 | two consistent structures whose lists hold the same nodes store the same pairs, so `swim`, `sink` and `exchange` never add, drop or alter a pair |
| OptimizedHeap.IndexCount | minpq/OptimizedHeapMinPQ.java:153-156 | the index map has one entry per slot in use |
| OptimizedHeap.ExchangeKeepsIndex | minpq/OptimizedHeapMinPQ.java:91-99 | swapping two slots and re-recording both elements keeps the index map sound and complete, and only permutes the nodes |
| OptimizedHeap.SwimStep | minpq/OptimizedHeapMinPQ.java:77-82 | swapping a node with its strictly greater parent moves the one out-of-order edge up a level |
| OptimizedHeap.SwimDone | minpq/OptimizedHeapMinPQ.java:78 | `swim` may stop at the root or under a parent that is not greater: the list is then heap ordered |
| OptimizedHeap.SinkStep | minpq/OptimizedHeapMinPQ.java:63-75 | swapping a node with its smaller, strictly smaller child moves the disorder down a level |
| OptimizedHeap.SinkDone | minpq/OptimizedHeapMinPQ.java:64-71 | `sink` may stop at a slot with no children or no smaller child: the edges from `lo` on are then ordered |
| OptimizedHeap.GrowKeepsIndex | minpq/OptimizedHeapMinPQ.java:58-59 | appending a node for a new element and recording its slot keeps the structure consistent and adds exactly its pair |
| OptimizedHeap.ShrinkKeepsIndex | minpq/OptimizedHeapMinPQ.java:128-131 | exchanging the root with the last slot, dropping it and unmapping the old root keeps the structure consistent and removes exactly the root's pair |
| OptimizedHeap.RepriorityKeepsIndex | minpq/OptimizedHeapMinPQ.java:141-143 | overwriting one slot's priority keeps the structure consistent and changes exactly that pair |
| OptimizedHeap.HoldsPairsPermutation | minpq/OptimizedHeapMinPQ.java:44-46 | permuting the nodes keeps the pairs they hold |
| OptimizedHeap.OptimizedHeapMinPQ.constructor | minpq/OptimizedHeapMinPQ.java:24-28 | a new instance holds only the `null` slot 0 and no pairs |
| OptimizedHeap.OptimizedHeapMinPQ.FromMap | minpq/OptimizedHeapMinPQ.java:35-51 | after loading the entries, sinking from `size()/2` down to 1 and rebuilding the index, the heap holds exactly the given pairs with both invariants |
| OptimizedHeap.OptimizedHeapMinPQ.Heapify | minpq/OptimizedHeapMinPQ.java:44-46 | the bottom-up sinks leave the whole list heap ordered and only permute it |
| OptimizedHeap.OptimizedHeapMinPQ.IndexAll | minpq/OptimizedHeapMinPQ.java:48-50 | recording every slot makes the index map consistent with the list |
| OptimizedHeap.OptimizedHeapMinPQ.SizeCountsPairs | minpq/OptimizedHeapMinPQ.java:153-156 | `size()` is the number of stored pairs and of index entries |
| OptimizedHeap.OptimizedHeapMinPQ.Exchange | minpq/OptimizedHeapMinPQ.java:91-99 | the two slots are swapped and both elements re-recorded, keeping the index map sound and complete |
| OptimizedHeap.OptimizedHeapMinPQ.Sink | minpq/OptimizedHeapMinPQ.java:63-75 | `sink` restores heap order below `k` and only permutes the nodes |
| OptimizedHeap.OptimizedHeapMinPQ.Swim | minpq/OptimizedHeapMinPQ.java:77-82 | `swim` restores heap order above `k` and only permutes the nodes |
| OptimizedHeap.OptimizedHeapMinPQ.Contains | minpq/OptimizedHeapMinPQ.java:101-107 | true exactly when the element is stored in some slot |
| OptimizedHeap.OptimizedHeapMinPQ.Add | minpq/OptimizedHeapMinPQ.java:53-61 | a present element throws `IllegalArgumentException` and changes nothing; otherwise the element gets the priority, every other pair is kept, and both invariants hold |
| OptimizedHeap.OptimizedHeapMinPQ.GetPriority | minpq/OptimizedHeapMinPQ.java:109-113 | the stored priority, or `NullPointerException` for an absent element |
| OptimizedHeap.OptimizedHeapMinPQ.PeekMin | minpq/OptimizedHeapMinPQ.java:115-121 | the root's element, which is an element of least priority; empty throws `NoSuchElementException` |
| OptimizedHeap.OptimizedHeapMinPQ.RootHoldsMinimum | minpq/OptimizedHeapMinPQ.java:115-121 | the root's element is stored and has the least priority |
| OptimizedHeap.OptimizedHeapMinPQ.RemoveMin | minpq/OptimizedHeapMinPQ.java:123-134 | returns the old root's element, an element of least priority, and removes exactly its pair, keeping both invariants; empty throws `NoSuchElementException` |
| OptimizedHeap.OptimizedHeapMinPQ.ChangePriority | minpq/OptimizedHeapMinPQ.java:136-151 | an absent element throws `NoSuchElementException`; otherwise only that element's priority changes, and both invariants hold |
| ShortestPaths.GetAllVertices | graphs/shortestpaths/ToposortDAGSolver.java:80-96 | the breadth-first search returns exactly the vertices reachable from the start, the start included |
| ShortestPaths.DfsPostOrder | graphs/shortestpaths/ToposortDAGSolver.java:54-67 | appends each newly reached vertex once, never re-enters a visited vertex, and appends each vertex after every vertex its edges lead to |
| ShortestPaths.ReversedPostOrderIsTopological | graphs/shortestpaths/ToposortDAGSolver.java:34-37 | reversing a duplicate-free post-order puts the source of every edge before its target |
| ShortestPaths.OrderFacts | graphs/shortestpaths/ToposortDAGSolver.java:34-37 | the reversed post-order starts at the start, and its positions rise along every edge among exactly the reachable vertices |
| ShortestPaths.TopologicalOrder | graphs/shortestpaths/ToposortDAGSolver.java:34-37 | the order the constructor relaxes in lists each reachable vertex once, starts at the start, and is topological |
| ShortestPaths.ToposortDAGSolver.constructor | graphs/shortestpaths/ToposortDAGSolver.java:24-44 | afterwards `distTo` holds exactly the reachable vertices, each at the weight of a lightest path from the start, and `edgeTo` retraces such a path |
| ShortestPaths.ToposortDAGSolver.Relax | graphs/shortestpaths/ToposortDAGSolver.java:69-78 | `distTo[to]` changes only to a strictly smaller value, and then `edgeTo[to]` becomes the edge; otherwise nothing changes |
| ShortestPaths.ToposortDAGSolver.RelaxInOrder | graphs/shortestpaths/ToposortDAGSolver.java:28-43 | starting from +infinity everywhere but 0 at the start, relaxing every edge in topological order yields the least path weights |
| ShortestPaths.ToposortDAGSolver.StepBack | graphs/shortestpaths/ToposortDAGSolver.java:103-106 | one step back along `edgeTo` extends the traced path and moves to an earlier vertex of the order |
| ShortestPaths.ToposortDAGSolver.TraceDone | graphs/shortestpaths/ToposortDAGSolver.java:103-108 | a trace that stops at a vertex without an `edgeTo` entry began at the start and is a lightest path to the goal |
| ShortestPaths.ToposortDAGSolver.Solution | graphs/shortestpaths/ToposortDAGSolver.java:98-109 | the path ends at the goal, starts at a vertex without an `edgeTo` entry, and each step is a recorded edge; it is `[goal]` when the goal has no entry, and a lightest path from the start when the goal is reachable |
| SeamFinding.BestLeft | seamfinding/DynamicProgrammingSeamFinder.java:33-44 | the chosen predecessor is a row of the picture, at most one row away |
| SeamFinding.BestLeftIsMin | seamfinding/DynamicProgrammingSeamFinder.java:33-44 | the predecessor is a cheapest valid left neighbour; ties go to the same row, then to the row above |
| SeamFinding.Trace | seamfinding/DynamicProgrammingSeamFinder.java:61-65 | the predecessor chain from (x, y) has one row per column and ends at y |
| SeamFinding.TraceSteps | seamfinding/DynamicProgrammingSeamFinder.java:61-65 | every row of the chain is in the picture, and each earlier row is the recorded predecessor of the next |
| SeamFinding.TraceIsSeam | seamfinding/DynamicProgrammingSeamFinder.java:61-65 | the chain is a seam: consecutive rows differ by at most one |
| SeamFinding.TraceEnergy | seamfinding/DynamicProgrammingSeamFinder.java:45 | the chain's total energy is the table's cost at its end |
| SeamFinding.CostIsLeast | seamfinding/DynamicProgrammingSeamFinder.java:29-47 | no connected seam ending at (x, y) has less energy than `energyCost[x][y]` |
| SeamFinding.TraceIsLeast | seamfinding/DynamicProgrammingSeamFinder.java:51-67 | the chain traced from a cheapest end of the last column is a least-energy seam |
| SeamFinding.FillColumn | seamfinding/DynamicProgrammingSeamFinder.java:30-47 | one column of both tables is filled from the column to its left, and nothing else changes |
| SeamFinding.FillTables | seamfinding/DynamicProgrammingSeamFinder.java:21-48 | column 0 holds the energies, every later cell its energy plus its predecessor's cost, and the predecessor table the chosen rows |
| SeamFinding.CheapestEnd | seamfinding/DynamicProgrammingSeamFinder.java:50-59 | the seam ends at the lowest row holding the least cost of the last column |
| SeamFinding.TraceBack | seamfinding/DynamicProgrammingSeamFinder.java:61-67 | the collected and reversed rows are the predecessor chain from the chosen end |
| SeamFinding.PickAndTrace | seamfinding/DynamicProgrammingSeamFinder.java:50-69 | the seam is valid, follows the predecessors, ends at the lowest cheapest row, and has least total energy |
| SeamFinding.FindHorizontal | seamfinding/DynamicProgrammingSeamFinder.java:17-70 | a picture without a column or a row throws `IndexOutOfBoundsException`; otherwise the seam has one row per column, moves at most one row per step, and has least total energy |

## Left out

- `HeapMinPQ` is not part of this model. It wraps `java.util.PriorityQueue`, whose behaviour is library code.
- `ReportAnalyzer` is not part of this model: file reading, `Files.walk`, regular expressions and printing.
- The test harnesses are not part of this model; they use file I/O and random input.
- Interfaces not part of this model are modelled by stand-ins:
  - `MinPQ`'s default methods (`isEmpty`, `addOrChangePriority`) and `Autocomplete` are left out;
  - `PriorityNode` is an immutable pair, and `setPriority` replaces the node;
  - `Graph` and `Edge` become a finite adjacency map and an edge datatype;
  - `Picture` and `EnergyFunction` become one total function from column and row to an energy.
- Doubles are Dafny `real`s. There is no rounding and no NaN. `Double.POSITIVE_INFINITY` is the `Inf` value of `ShortestPaths.Dist`.
- Terms are sequences of Unicode scalar values, while a Java `CharSequence` is a sequence of UTF-16 code units. `Compare`, the sorted order and the ternary search tree's shape therefore agree with Java only on text inside the Basic Multilingual Plane, and a lone surrogate cannot be written as a term.
- Java hashing and `equals` are Dafny equality.
- `HashMap`/`HashSet` iteration order is left unspecified: the bulk constructors and the `distTo` initialisation pick the next key nondeterministically. The contracts hold for every order.
- Allocation and the capacity hints of `ArrayList` and `HashMap` are left out.
- `null` terms and the `null` prefixes of the sequential and binary-search structures are left out; they would throw `NullPointerException`. The ternary search tree's `null` prefix is modelled.
- BinarySearch.SortTerms: stands in for `Collections.sort`, a library merge sort. Its contract is sorted and a permutation, and `SortedUnique` shows any such sort gives the same list, but stability and the comparison sequence are not modelled.
- `Collections.binarySearch` is modelled as the JDK's `indexedBinarySearch` loop, written as a recursive function.
- `Collections.reverse` is modelled on list values, not in place.
- The ternary search tree's linked `Node` objects are modelled as an immutable tree value. `put` rebuilds the path it changes instead of updating node fields, so aliasing between nodes is not modelled.
- `StringBuilder` and the `matches` list are small classes holding only what `collect` uses.
- `ToposortDAGSolver`'s private helpers `getAllVertices` and `dfsPostOrder` are module-level methods.
  - `dfsPostOrder` takes `visited` and `result` as values and returns the updated ones, rather than mutating shared collections.
- ShortestPaths.ToposortDAGSolver.constructor: requires an acyclic graph, as the class is documented for directed acyclic graphs. On a cyclic graph the Java code still terminates but computes no shortest-path guarantee, and that case is not modelled.
- Draining a queue in non-decreasing priority order has no member of its own. It follows from `RemoveMin`'s contract, which returns a least priority and removes exactly that pair.
- The `picture.width()`/`height()` calls become the `width` and `height` parameters.

## Findings

| source | as written | input that shows it | evidently intended | confidence | as-written member | corrected member |
|---|---|---|---|---|---|---|
| autocomplete/BinarySearchAutocomplete.java:38-40 | `start < 1` also rewrites a found index 0 into `-(0 + 1) = -1`, and `elements.get(-1)` throws | `elements = ["a", "ab"]`, prefix `"a"`: the search returns 0 | keep a found index and convert only a negative one, or start at the first term not below the prefix | not executed | BinarySearch.SmallestTermIsFoundAtZero | BinarySearch.BinarySearchAutocomplete.AllMatches |
| autocomplete/BinarySearchAutocomplete.java:37-49 | the scan starts at whichever equal term the search lands on, so stored copies of the prefix before it are missed | `elements = ["a", "a", "a"]`, prefix `"a"`: the search returns 1 and the result is `["a", "a"]` | every stored copy of a matching term is returned, as `addAll` keeps duplicates | not executed | BinarySearch.DuplicatesBeforeTheFoundIndexAreMissed | BinarySearch.BinarySearchAutocomplete.AllMatches |

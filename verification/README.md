# Design and Analysis of Algorithms practicals, modelled in Dafny

The repository is a set of lab practicals, each written three times: in
Python, in Java and in C++. This project models their algorithmic cores as
pure Dafny functions and methods over sequences, and proves what each
algorithm promises.

- **Sorts** (Practical-1 and Practical-3): selection sort, insertion sort and
  bubble sort; quick sort, merge sort and heap sort. Each returns the sorted
  list with the counters the Python functions return (comparisons, swaps or
  shifts). Arrays sorted in place become a sequence in, a sequence out.
  `SortSpec` holds the shared vocabulary: sortedness, inversions and counts.
- **Binary search** (Practical-2): the Python iterative and recursive
  versions, which count their probes, and the Java/C++ version with its
  overflow-safe midpoint.
- **Job sequencing with deadlines** (Practical-4):
  - the sort by profit, in `JobOrder`: stable in Python and Java;
  - Python's `-1`-marked slot table;
  - the Java/C++ `filled`/`slot` arrays.
- **0/1 knapsack** (Practical-5): the dynamic-programming table, Python's
  backtracking of the chosen items, and the greedy pass.
- **Bellman-Ford** (Practical-6): distance initialisation, `V - 1` rounds of
  relaxation, and the negative-cycle check. `Walks` supplies walks in an
  edge list and the pigeonhole argument that cuts a walk short.
- **N-Queens** (Practical-7): `is_safe` in both its forms; the backtracking
  search with its solution counter and printed solutions; and `main`'s guard
  on `n`.
- **Travelling salesman by branch and bound** (Practical-8):
  - the row minimum and second minimum;
  - the root bound and its rounding in each port;
  - the recursive search;
  - the global result holder, modelled as an explicit `State` record that
    each call receives and returns.

Where the three ports differ, the difference is modelled explicitly:
- a `Dialect` parameter in the travelling-salesman modules;
- separate members for the Java/C++ forms, such as `JavaSearch`,
  `AssignSlots` and `CrossSafe`.

Integers are unbounded. Where the Java and C++ ports rely on `int` arithmetic
not overflowing, that is listed under "Left out".

Behaviour of the code worth knowing, which the model follows:
- The Java and C++ travelling-salesman ports halve the root bound toward
  zero and do not round an odd sum up, except for a sum of exactly 1.
  `TspBounds.RootRound` models each port.
- On one city, a nonzero diagonal entry makes the search record the tour
  `[0, 0]`.
- Python and Java fail on zero cities: they set `visited[0]` before
  searching. `TspSearch.Problem.Valid` requires a city for them. C++
  accepts zero cities and leaves the holder unchanged.
- When no tour is found, Java and C++ still print their initial path of
  `n + 1` zeros (`TspSearch.NoTour`); Python prints "No solution found!".
- N-Queens' guard refuses every `n` below 4 other than 1, zero and negative
  `n` included, although the empty board is a placement for `n = 0`.

## Model

| member | source | states |
|---|---|---|
| `SortSpec.SortedIffNoInversions` | Python/Practical-1/bubble_sort.py:11-23 | A list is in non-decreasing order exactly when no pair of positions is out of order. This is why a pass without a swap lets bubble sort stop. |
| `SortSpec.SwapRemovesInversion` | Python/Practical-1/bubble_sort.py:15-18 | Exchanging an adjacent out-of-order pair removes exactly one inversion and leaves every other pair's order unchanged. |
| `SortSpec.CountAboveMultiset` | Python/Practical-1/insertion_sort.py:16-20 | How many entries exceed a key depends only on the multiset of entries, not on their order. |
| `SortSpec.PassSum` | Python/Practical-1/selection_sort.py:11-17 | Passes `0..i-1` of `n - p - 1` comparisons each make `i(2n - i - 1)/2` comparisons in total. |
| `SortSpec.Choose2Passes` | Python/Practical-1/bubble_sort.py:11-14 | All `n` passes together make one comparison per pair of positions, `Choose2(n)` in all. With `Choose2Closed` (`2 * Choose2(n) == n(n-1)`) that is `n(n-1)/2` comparisons. |
| `SortSpec.SortedConcat` | Python/Practical-3/quick_sort.py:39-40 | Two sorted lists, where every entry of the first is at most every entry of the second, are sorted when joined. |
| `SelectionSort.MinIndex` | Python/Practical-1/selection_sort.py:13-17 | Returns a position of a smallest entry of the unsorted tail, after exactly one comparison per other tail entry. |
| `SelectionSort.SelectionSort` | Python/Practical-1/selection_sort.py:5-24 | The result is sorted and a permutation of the input. Exactly `n(n-1)/2` comparisons are made. At most `n - 1` swaps are made, since a position already holding its minimum is not swapped. |
| `InsertionSort.InsertKey` | Python/Practical-1/insertion_sort.py:12-25 | Shifts right the entries above the key that sit directly before it, then stores the key in the gap. The shift count is the number of entries moved. A comparison is counted for each shift, plus one when the scan stops at an entry. |
| `InsertionSort.InsertionSort` | Python/Practical-1/insertion_sort.py:5-27 | Sorts and permutes. The shift count equals the number of inversions of the input. Comparisons lie between the shifts and the shifts plus `n - 1`. Sorted input costs no shift and `n - 1` comparisons. |
| `BubbleSort.Pass` | Python/Practical-1/bubble_sort.py:12-19 | One pass over the unsorted prefix carries its largest entry to the end. It makes one comparison per adjacent pair. Each swap removes one inversion. No swap means the prefix was already sorted and is unchanged. |
| `BubbleSort.BubbleSort` | Python/Practical-1/bubble_sort.py:5-25 | Sorts and permutes. The swap count equals the number of inversions of the input. At most `n(n-1)/2` comparisons are made. On sorted input, the early exit stops after one pass of `n - 1` comparisons. |
| `QuickSort.Scan` | Python/Practical-3/quick_sort.py:14-19 | The Lomuto scan moves every entry at most the pivot in front of those above it. It makes one comparison per entry and one swap per entry at most the pivot. Nothing outside the range moves. |
| `QuickSort.Partition` | Python/Practical-3/quick_sort.py:7-24 | The pivot lands at the returned index with smaller-or-equal entries before it and larger ones after. There are `high - low` comparisons and one more swap than there are entries at most the pivot. |
| `QuickSort.QuickSort` | Python/Practical-3/quick_sort.py:27-45 | The range `low..high` ends sorted and permuted, and the rest of the list is untouched. A range of at most one entry costs nothing. |
| `MergeSort.Interleave` | Python/Practical-3/merge_sort.py:18-26 | The first merge loop takes heads of the two runs until one run is used up, with one comparison per entry taken. On sorted runs, its output is sorted and no higher than the next entry of either run. |
| `MergeSort.MergeRuns` | Python/Practical-3/merge_sort.py:18-37 | Merging two sorted runs gives a sorted permutation of their union with at most `|lhs| + |rhs| - 1` comparisons. If a run is empty, no comparison is made. |
| `MergeSort.Merge` | Python/Practical-3/merge_sort.py:7-39 | `merge(arr, left, mid, right)` sorts `left..right` when both halves are sorted and leaves the rest alone. It makes at most `right - left` comparisons. |
| `MergeSort.MergeSort` | Python/Practical-3/merge_sort.py:42-56 | The range `left..right` ends sorted and permuted, and the rest of the list is untouched. |
| `HeapSort.Largest` | Python/Practical-3/heap_sort.py:9-24 | Picks the largest of a node and its children inside the heap. Ties stay with the node. It makes one comparison per child present. |
| `HeapSort.Heapify` | Python/Practical-3/heap_sort.py:7-31 | Sifting down restores the max-heap property below `i` when it held below `i`'s children. The result is a permutation. It makes at most two comparisons per level under `i`. |
| `HeapSort.RootIsMax` | Python/Practical-3/heap_sort.py:44-46 | In a max-heap the root is at least every entry, so swapping it to the end places a maximum. |
| `HeapSort.BuildHeap` | Python/Practical-3/heap_sort.py:40-41 | Heapifying from `n/2 - 1` down to 0 gives a max-heap permutation with at most `n·⌊log2 n⌋` comparisons. |
| `HeapSort.ExtractMax` | Python/Practical-3/heap_sort.py:44-49 | Moving the root behind the heap and re-heapifying grows the sorted suffix by one. It keeps every heap entry at most every suffix entry. |
| `HeapSort.HeapSort` | Python/Practical-3/heap_sort.py:34-51 | Sorts and permutes with at most `3n·⌊log2 n⌋` comparisons. |
| `BinarySearch.Midpoint` | Python/Practical-2/binary_search.py:17 | `(left + right) // 2` splits the range into halves that differ by at most one element. |
| `BinarySearch.JavaMidpoint` | Java/Practical-2/BinarySearch.java:8 | `low + (high - low) / 2` is the same index as Python's midpoint on non-negative bounds. |
| `BinarySearch.SearchComplete` | Python/Practical-2/binary_search.py:30-43 | On a sorted list, the recursive search returns -1 only when the target is absent from the range. |
| `BinarySearch.SearchProbes` | Python/Practical-2/binary_search.py:32-36 | On a range of `m` entries, `p` probes satisfy `2^(p-1) <= m`: at least one probe, and at most `⌊log2 m⌋ + 1`. An empty range returns -1 without a probe. |
| `BinarySearch.BinarySearchLoop` | Python/Practical-2/binary_search.py:7-27 | The iterative search returns the same result as the recursive one. A returned index holds the target. On sorted input, -1 means the target is absent. Probes are between 1 and `⌊log2 n⌋ + 1`, and an empty list needs none. |
| `BinarySearch.WholeArray` | Python/Practical-2/binary_search.py:30-43 | Over the whole list the recursive search is sound and has the same probe bounds. On sorted input it finds the target exactly when the target is present. |
| `BinarySearch.JavaMatchesPython` | C++/Practical-2/binary_search.cpp:5-28 | The Java/C++ search, which tests the greater case before the smaller, returns the same index as Python's on every input. |
| `BinarySearch.JavaCorrect` | Java/Practical-2/BinarySearch.java:6-25 | On sorted input the Java/C++ search returns -1 exactly when the key is absent, and otherwise an index holding the key. |
| `JobOrder.StableSort` | Python/Practical-4/job_sequencing.py:21 | The sort leaves the jobs in non-increasing order of profit. |
| `JobOrder.StableSortPermutes` | Python/Practical-4/job_sequencing.py:21 | The sort neither drops nor adds a job. |
| `JobOrder.StableSortStable` | Java/Practical-4/JobSequencing.java:21 | Jobs of equal profit keep their input order, as Python's `list.sort` and Java's object sort guarantee. |
| `JobOrder.StableSortUnique` | Python/Practical-4/job_sequencing.py:21 | Any order that is by non-increasing profit and stable is exactly this one. |
| `JobSequencing.MaxDeadline` | Python/Practical-4/job_sequencing.py:24 | The largest deadline: no job's deadline is above it, and some job's is equal to it. |
| `JobSequencing.MaxDeadlineFrom0` | Java/Practical-4/JobSequencing.java:24-28 | The Java/C++ scan that starts from 0 gives the largest deadline, or 0 when all deadlines are at most 0 or there are no jobs. |
| `JobSequencing.MaxDeadlineAgree` | C++/Practical-4/job_sequencing.cpp:23-28 | The Java/C++ value is Python's maximum, clamped below at 0. |
| `JobSequencing.LatestFree` | Python/Practical-4/job_sequencing.py:34-35 | The slot the inner loop stops at is the latest free slot below the limit. It is -1 exactly when every slot below the limit is taken. |
| `JobSequencing.FindSlot` | Python/Practical-4/job_sequencing.py:34-39 | The downward scan with its early exit returns that slot. |
| `JobSequencing.ScheduleAccounted` | Python/Practical-4/job_sequencing.py:32-41 | For any ids, `sequence` lists the jobs placed in the order placed, and `max_profit` is their total profit. |
| `JobSequencing.ScheduleConsistent` | Python/Practical-4/job_sequencing.py:27-41 | When no id equals the free marker -1, the slot table is consistent. Every job placed holds its own slot below its deadline and the largest deadline. Every occupied slot belongs to a placed job. A job is skipped only when every slot it could take is occupied. |
| `JobSequencing.SequenceFits` | Python/Practical-4/job_sequencing.py:27-39 | No more jobs are scheduled than there are slots. |
| `JobSequencing.PyJobSequencing` | Python/Practical-4/job_sequencing.py:15-41 | Empty input fails, because `max` of no deadlines raises. Otherwise the jobs are stably sorted and scheduled, and `max_profit` totals the sequence. Without a -1 id, the run is consistent and fits in the slots. |
| `JobSequencing.FillMatchesPlace` | Java/Practical-4/JobSequencing.java:40-53 | Without a -1 id, the Java/C++ `filled`/`slot` loop fills the same slots with the same ids as Python's table. Its `totalProfit` and `jobCount` equal Python's `max_profit` and `len(sequence)`. |
| `JobSequencing.AssignSlots` | C++/Practical-4/job_sequencing.cpp:22-59 | For jobs in whatever order the (unstable) sort left them: `jobCount` is the number of filled slots and at most the largest deadline. Without a -1 id, `totalProfit` equals Python's profit for that order. |
| `JobSequencing.JavaJobSequencing` | Java/Practical-4/JobSequencing.java:17-57 | Java sorts stably, exactly as Python does. `jobCount` counts the filled slots and is at most the largest deadline. Without a -1 id, `totalProfit` equals Python's `max_profit` on the same jobs. |
| `Knapsack.CellAgrees` | Java/Practical-5/KnapsackComparison.java:47-57 | With every weight at least 1, the table's zeroed column 0 changes nothing: each entry equals the plain recurrence. |
| `Knapsack.CellNonNegative` | Python/Practical-5/knapsack_comparison.py:50-62 | Table entries are never negative and never fall when an item is added. |
| `Knapsack.CellAtMostOptimum` | Java/Practical-5/KnapsackComparison.java:47-57 | Whatever the weights, each table entry is the value of some choice that fits, so it lies between 0 and the optimum. |
| `Knapsack.WitnessAchieves` | Python/Practical-5/knapsack_comparison.py:64-70 | The items read back from the table fit in the capacity and are worth exactly the table entry. |
| `Knapsack.CellAllOptimal` | Python/Practical-5/knapsack_comparison.py:53-62 | The recurrence without the zeroed column gives the largest value of any choice of items that fits, zero weights included. |
| `Knapsack.CellOptimal` | Python/Practical-5/knapsack_comparison.py:45-72 | With positive weights, `dp[n][capacity]` is the optimum: some choice that fits reaches it, and no choice that fits beats it. |
| `Knapsack.ZeroWeightCounterexample` | C++/Practical-5/knapsack_comparison.cpp:57-58 | For items (5, 0) and (10, 1) at capacity 1, the ports' table gives 10 while taking both is worth 15. The corrected recurrence gives 15, which is optimal. |
| `Knapsack.FillRow` | Python/Practical-5/knapsack_comparison.py:54-62 | One row of the table, computed from the previous row, is the ports' row at every capacity: 0 in column 0, the better of leaving the item out and putting it in elsewhere. |
| `Knapsack.BuildTable` | Java/Practical-5/KnapsackComparison.java:44-57 | Every entry `dp[i][w]` is the ports' entry for the first `i` items in room `w`, column 0 forced to zero. |
| `Knapsack.Backtrack` | Python/Practical-5/knapsack_comparison.py:65-70 | Walking the rows upward and taking an item where its row differs from the one above recovers exactly the witness choice. |
| `Knapsack.KnapsackDp` | Python/Practical-5/knapsack_comparison.py:45-72 | Returns the ports' table, its corner value and a choice of items. The choice fits and is worth the corner value, which lies between 0 and the optimum. When no item weighs zero, the corner value is the optimum. |
| `Knapsack.Knapsack01` | C++/Practical-5/knapsack_comparison.cpp:48-68 | `knapsack01` returns the ports' corner entry. Some choice that fits is worth it, it lies between 0 and the optimum, and it is the optimum when no item weighs zero. |
| `Knapsack.Greedy` | Python/Practical-5/knapsack_comparison.py:28-42 | The greedy choice fits and is worth the value returned. Every item left out did not fit in the room left at its turn. |
| `Knapsack.GreedyAtMostDp` | Python/Practical-5/knapsack_comparison.py:28-72 | With positive weights, no choice that fits, greedy or not, beats the table. |
| `Knapsack.CounterExample` | Python/Practical-5/knapsack_comparison.py:171-195 | On items (60, 10), (100, 20), (120, 30) and capacity 50, the greedy pass takes the first two for 160. The table gives 220, which is the optimum. |
| `Walks.WeightAppend` | Python/Practical-6/bellman_ford.py:26-28 | The weight of a walk is additive over concatenation. |
| `Walks.WalkAppend` | Python/Practical-6/bellman_ford.py:24-28 | A walk to `y` followed by a walk from `y` is a walk. |
| `Walks.Shorten` | Python/Practical-6/bellman_ford.py:23-24 | Every walk between two vertices can be cut to fewer than `V` edges. With no negative cycle reachable, the cut walk weighs no more. This is why `V - 1` rounds suffice. |
| `Walks.CutCycle` | Python/Practical-6/bellman_ford.py:23-24 | A walk that revisits a vertex loses the closed walk in between, and becomes shorter and no heavier when that closed walk is not negative. |
| `BellmanFord.Init` | Python/Practical-6/bellman_ford.py:20-21 | The source starts at distance 0 and every other vertex starts unreached. |
| `BellmanFord.Relax` | Python/Practical-6/bellman_ford.py:26-28 | Relaxing an edge never raises a distance and changes only its head. Afterwards, the head is within the tail's distance plus the edge weight. |
| `BellmanFord.PassCovers` | Python/Practical-6/bellman_ford.py:25-28 | After a full pass, every edge from a reached tail has its head within the tail's distance plus the edge weight. |
| `BellmanFord.PassSound` | Java/Practical-6/BellmanFord.java:26-35 | Relaxation keeps every finite distance equal to the weight of some walk from the source. |
| `BellmanFord.RoundsBound` | Python/Practical-6/bellman_ford.py:24-28 | After `k` rounds, every vertex is within the weight of each walk of at most `k` edges from the source. |
| `BellmanFord.FinalLeast` | C++/Practical-6/bellman_ford.cpp:24-35 | With no negative cycle reachable, after `V - 1` rounds each distance is at most the weight of every walk from the source. |
| `BellmanFord.NoCycleSettled` | Python/Practical-6/bellman_ford.py:31-36 | With no negative cycle reachable, the check finds no edge it can still relax. |
| `BellmanFord.SettledNoCycle` | Java/Practical-6/BellmanFord.java:41-51 | If no edge can still be relaxed, no negative cycle is reachable. |
| `BellmanFord.Sweep` | Python/Practical-6/bellman_ford.py:25-28 | The inner loop over the edges is one relaxation pass. |
| `BellmanFord.FindRelaxable` | Python/Practical-6/bellman_ford.py:31-36 | The check with its early exit reports a cycle exactly when some edge can still be relaxed. |
| `BellmanFord.Run` | Python/Practical-6/bellman_ford.py:14-38 | The negative-cycle flag is set exactly when a negative cycle is reachable from the source. Every finite distance is the weight of a walk. A vertex is unreached exactly when no walk reaches it. Without the flag, each distance is the least walk weight. |
| `NQueens.SafeForms` | Java/Practical-7/NQueens.java:20-30 | Python's `abs` diagonal test and the Java/C++ two-diagonal test accept the same squares. |
| `NQueens.IsSafe` | Python/Practical-7/n_queens.py:8-23 | Returns true exactly when no queen in an earlier row shares the column or a diagonal. |
| `NQueens.PlaceSafe` | Python/Practical-7/n_queens.py:43-45 | A safe square extends a non-attacking placement to a non-attacking placement one row longer. |
| `NQueens.Blocked` | Python/Practical-7/n_queens.py:42-43 | An unsafe square is in no completion of the current rows, so skipping it loses no solution. |
| `NQueens.SolveCounts` | Python/Practical-7/n_queens.py:26-54 | From a non-attacking prefix, the search prints exactly the completions of that prefix, each once. The counter grows by the number printed. It returns true exactly when it printed one. It keeps the rows above `row`; each row from `row` on is left unchanged or reset to -1. |
| `NQueens.ColumnsCount` | C++/Practical-7/n_queens.cpp:48-61 | Columns `col..n-1` of one row print exactly the completions whose queen in that row is at or right of `col`, each once. |
| `NQueens.Untouched` | Python/Practical-7/n_queens.py:51-52 | Starting from empty rows, the search hands the board back unchanged. |
| `NQueens.Queens` | Python/Practical-7/n_queens.py:82-94 | `main` refuses exactly the `n` below 4 other than 1. Otherwise the solutions printed are exactly the non-attacking placements of `n` queens, each once. The count equals the number printed, and the search succeeds exactly when one exists. |
| `NQueens.TooSmall` | Java/Practical-7/NQueens.java:66-70 | For 2 and 3 queens no placement exists, as the guard claims. |
| `TspTour.TourVisitsAll` | Python/Practical-8/travelling_salesman.py:46-56 | A closed tour's first `n` cities are all the cities. |
| `TspBounds.FirstMin` | Python/Practical-8/travelling_salesman.py:12-18 | The least off-diagonal entry of a row, or the sentinel when it is smaller. |
| `TspBounds.SecondMin` | Python/Practical-8/travelling_salesman.py:21-36 | The second smallest off-diagonal entry of a row, counted with multiplicity, or the sentinel. It is never below the row minimum. |
| `TspBounds.SecondMinTie` | Java/Practical-8/TravellingSalesman.java:25-39 | A row minimum that occurs in two columns is also the second minimum. |
| `TspBounds.FewColumns` | C++/Practical-8/tsp_branch_bound.cpp:30-49 | With fewer than two off-diagonal columns the second minimum is the sentinel, as is the minimum with none. |
| `TspBounds.TruncHalf` | Java/Practical-8/TravellingSalesman.java:60-63 | Java/C++ `int` halving truncates toward zero. |
| `TspBounds.Halve` | Python/Practical-8/travelling_salesman.py:65-74 | Python halves exactly. Java and C++ halve to a whole number, at most half of a non-negative sum. |
| `TspBounds.RootRound` | Python/Practical-8/travelling_salesman.py:110 | Python rounds half of an odd sum up. Java and C++ halve toward zero, except that 1 gives 1. |
| `TspBounds.RootRoundDivergence` | C++/Practical-8/tsp_branch_bound.cpp:109 | The ports agree on even sums, on 1 and on negative sums. On odd sums above 1, Java and C++ start one lower than Python. |
| `TspSearch.Rebuild` | Python/Practical-8/travelling_salesman.py:88-91 | The reset after a branch marks exactly the cities of the path prefix as visited. |
| `TspSearch.Leaf` | Java/Practical-8/TravellingSalesman.java:42-53 | At full depth a closed tour is recorded only if its closing edge exists and it is strictly cheaper. Its cost is the path weight plus the closing edge. |
| `TspSearch.PyRecordedPath` | Python/Practical-8/travelling_salesman.py:53-54 | Python records a copy of the whole `n + 1`-slot path array followed by the start city. |
| `TspSearch.PyRecordedPathNotTour` | Python/Practical-8/travelling_salesman.py:53-54 | Python's record has `n + 2` entries and is never a closed tour. The corrected record of the same leaf is one. |
| `TspSearch.Attempt` | Python/Practical-8/travelling_salesman.py:60-91 | One branch adds the edge, lowers the bound, recurses if promising, and then restores the weight, the bound and the visited flags. |
| `TspSearch.Descend` | Python/Practical-8/travelling_salesman.py:77-82 | A child whose bound plus weight is not below the best cost is pruned, leaving the state untouched. |
| `TspSearch.Rec` | C++/Practical-8/tsp_branch_bound.cpp:51-97 | The search keeps the path prefix and the visited flags. It only ever replaces the best tour by a strictly cheaper closed tour through the current prefix, recorded with its edge sum. |
| `TspSearch.ChildIsNode` | Python/Practical-8/travelling_salesman.py:78-79 | Entering an unvisited city along an existing edge extends a simple path from city 0. The flags and the weight follow. |
| `TspSearch.SolveTsp` | C++/Practical-8/tsp_branch_bound.cpp:99-115 | The holder's cost never rises. When it falls, it holds a closed tour through every city whose edge sum is the new cost. |
| `TspSearch.Solve` | Java/Practical-8/TravellingSalesman.java:82-126 | The holder starts at the sentinel cost with the port's initial path: Python's empty list, or `n + 1` zeros in Java (line 106) and C++. The result is either the sentinel with that initial path untouched, or a closed tour with its edge sum as cost. In Python the path is empty exactly when no tour was found. |
| `TspSearch.TwoCitiesPruned` | Python/Practical-8/travelling_salesman.py:105-117 | On two cities joined both ways by positive edges, each row's second minimum is the sentinel. In exact arithmetic the one branch is pruned, so no tour is reported although `0 -> 1 -> 0` is one. |

## Left out

- Fractional knapsack (Practical-4 `fractional_knapsack` and Practical-5 `fractional_knapsack_greedy`/`fractionalKnapsack`): floating-point arithmetic, not part of the modelled core.
- Knapsack.Greedy: the sort by value-to-weight ratio before the greedy pass is not modelled (a floating-point key), so the pass runs over the items in the order given; `Knapsack.CounterExample` uses items already in ratio order.
- Input reading, printing (`print_dp_table`, `print_solution`, `main`'s reports) and the timing calls: I/O and clocks. The N-Queens printed boards are modelled as a list of boards.
- Java and C++ `int` overflow (in the Bellman-Ford sums against `INT_MAX`, in the knapsack and job-sequencing totals, in Java's `b.profit - a.profit` comparator, and in the travelling-salesman bound sums that add the `INT_MAX` sentinel): integers are unbounded; `INT_MAX` and Python's `inf` as a distance are the unreached value `Inf`.
- TspSearch.Problem.Valid: for C++ it requires `n <= 10`, the capacity of the fixed `N = 10` arrays; a larger `n` writes past them. C++ accepts `n = 0`, and the search then returns the holder unchanged. Python and Java need at least one city.
- MergeSort.MergeSort: no bound on the total comparison count is stated, only the per-merge bound of `MergeSort.Merge`; stability is not stated either, since the sorted values are plain integers.
- QuickSort.QuickSort: no bound on the total comparison or swap count is stated, only the exact counts of `QuickSort.Partition`.
- JobSequencing.PyJobSequencing: the greedy schedule's optimality is not stated; the properties proved are the consistency of the slot table and the profit accounting.
- TspSearch.Solve: it is not stated that the reported tour is the cheapest; the branch bound deducts half the sum of a row's second minimum and the next row's minimum, which is not in general a lower bound on the cost of completing the path, so the pruning can cut off the cheapest tour. On the symmetric matrix `[[0, 8, 1, 7], [8, 0, 7, 1], [1, 7, 0, 8], [7, 1, 8, 0]]` the search first records `0 -> 1 -> 3 -> 2 -> 0` at 18. The tours `0 -> 2 -> 1 -> 3 -> 0` and `0 -> 3 -> 1 -> 2 -> 0` cost 16, but at depth 2 their bound 11 plus weight 8 is 19, not below 18, so every port reports 18.
- BellmanFord.Run: requires every edge endpoint and the source to be a vertex below `V` (Python would wrap negative indices or raise, Java and C++ index out of bounds), and `E` is the length of the edge list.
- TspSearch.SolveTsp: in every dialect, Python's included, the leaf records the corrected `ClosedPath` of `n + 1` entries, not Python's `n + 2`-entry copy (see "Findings"), so for Python the reported tour is the corrected one.
- TspBounds.RowBoundSum: the sum is unbounded. On two cities every row's second minimum is the `INT_MAX` sentinel, and Java's `int` sum `currBound += firstMin(i) + secondMin(i)` wraps around. C++'s overflow is undefined. For the matrix `[[0, 5], [5, 0]]` Java's root bound becomes 4, and it reports the tour `0 -> 1 -> 0` at cost 10. The model, like Python, prunes that tour (`TspSearch.TwoCitiesPruned`).
- TspBounds.Halve: Python's bound is a float after its first `/ 2`. The model halves exactly in `real`, so rounding near `sys.maxsize` is not modelled.
- TspSearch.TwoCitiesPruned: holds for exact halving only. On `[[0, 1], [2000, 0]]` Python's root bound is `2^63 + 1000`. As a float it is `2^63`, and subtracting `1000.5` rounds to `2^63 - 1024`, below `sys.maxsize`. So Python descends and records the tour at cost 2001, where the model prunes it. On `[[0, 5], [5, 0]]` the float arithmetic is exact enough, and Python prunes as the model does.
- Knapsack.Item: weights are natural numbers. Python's `Item` accepts a negative weight (only weight 0 fails, in the ratio). At capacity 1 or more, the table lookup `w - weight` then points past the last column: Python raises, Java throws, C++ is undefined. At capacity 0 every port returns 0. Negative capacities are left out too: no port has a table to read the corner from.
- NQueens.Queens: the global `solution_count` is modelled as a field of the search state that starts at 0, as `main` sets it.

## Findings

| source | as written | input that shows it | evidently intended | confidence | as-written member | corrected member |
|---|---|---|---|---|---|---|
| Python/Practical-8/travelling_salesman.py:53-54 | the leaf records `curr_path.copy()` plus the start city; `curr_path` has `n + 1` slots (line 101), the last never written, so the record has `n + 2` entries with a -1 before the final 0 | any instance with a tour, e.g. one city: the record is `[0, -1, 0]` | record the `n` cities of the path followed by the start city, `n + 1` entries | not executed | `TspSearch.PyRecordedPathNotTour` | `TspSearch.Leaf` |
| Java/Practical-5/KnapsackComparison.java:49-50 | every entry of column 0 is forced to 0 (the same in C++ at lines 57-58, and Python's loop starts at `w = 1`), so an item of weight 0 is never counted in room 0 and the entries built on it miss it | items (value 5, weight 0) and (value 10, weight 1), capacity 1: the table gives 10, taking both gives 15 | fill column 0 with the same recurrence, so zero-weight items fit in any room | not executed | `Knapsack.ZeroWeightCounterexample` | `Knapsack.CellAllOptimal` |

# N-Queens CSP solver and manual min-heap, modelled in Dafny

This project models two sequential components of a Python N-Queens project.

- **`NQueensCSP`** (`main.py`) solves N-Queens as a constraint-satisfaction problem. A partial assignment maps a row to the column of its queen. The solver works in these steps:
  - a safety predicate says when a new queen shares no column or diagonal with a placed queen;
  - the candidate columns of a row are its safe columns, in ascending order;
  - a lookahead cost counts the cells of the free rows that a placement makes unsafe;
  - three boolean flags control the search order. MRV picks the row with the fewest candidate columns. Degree picks the earliest row, and breaks MRV ties. LCV stably sorts the columns by lookahead cost;
  - the recursive backtracking search does forward checking and counts the nodes it explores and its backtracks;
  - a validator checks every pair of rows.
- **`ManualMinHeap`** (`models/min_heap.py`) is the binary min-heap of the best-first search. It stores `(f, g, board)` tuples in a Python list and orders them with Python's tuple `<`. `push` sifts the new item up, and `pop` moves the last item to the root and sifts it down.

Layout:

| file | module | contents |
|---|---|---|
| `wrappers.dfy` | `Wrappers` | `Option`, standing for Python's `None` beside a value |
| `board.dfy` | `Board` | pure specification: `Safe`, `Consistent`, `IsSolution`, `Completable`, `Available`, `Conflicts`, `NoAttacks`, with lemmas |
| `lcv_order.dfy` | `LcvOrder` | stable sort of `(column, count)` pairs by count, with lemmas for permutation, order and stability |
| `nqueens.dfy` | `NQueens` | class `NQueensCSP`: its loops as methods proved against `Board` and `LcvOrder` |
| `heap_order.dfy` | `HeapOrder` | `Entry(f, g, board)` and Python's lexicographic `<`, proved a strict total order |
| `min_heap.dfy` | `MinHeap` | `SiftUp` and `SiftDown` as functions with their lemmas, and class `ManualMinHeap`, whose methods are proved against them |

Main results:

- `NQueensCSP.Backtrack` is **sound**. A result is a complete, pairwise non-attacking placement that keeps the input's queens.
- `NQueensCSP.Backtrack` is **complete**. It returns no result only when no solution keeps the input's queens.
- So `Solve` finds a solution exactly when one exists (`result.Some? <==> Completable(n, map[])`), whatever the heuristic flags are. The validator accepts every solution the search returns.
- For small boards: there is no solution for 2 or 3 queens, the only solution for 1 queen is `{0: 0}`, and a solution for 4 queens exists.
- `ManualMinHeap` keeps heap order. `push` adds exactly its item, as a multiset. `pop` returns a minimum and removes exactly one occurrence of it.

`_backtrack` is modelled by three mutually recursive methods. `Backtrack` is one search node. `TryColumns` is its loop over the ordered columns. `TryColumn` is one pass of that loop: it places the queen, runs the forward check and recurses. The split keeps each proof small. The statements and their order are those of the source.

Assignments are Dafny map values. The copies the source takes (`assignment.copy()`, main.py:56 and 230) therefore happen automatically: no method can change the caller's assignment.

## Model

| member | source | states |
|---|---|---|
| `Board.Safe` | main.py:26-40 | definition: no placed queen shares the column or a diagonal with (row, col); `IsSafeAssignment` is proved to compute it, `PlaceSafeQueen` to keep placements non-attacking |
| `Board.Available` | main.py:42-48 | definition: the safe columns 0..n-1 of a row, ascending (`AvailableUpTo` states it); `GetAvailableColumns` is proved to compute it |
| `Board.UnsafeUpTo` | main.py:62-64 | definition: the number of unsafe columns of a future row; bounded by `UnsafeBounds` |
| `Board.ConflictsUpTo` | main.py:59-64 | definition: the sum of the unsafe counts over the free rows below k; bounded by `ConflictsUpToBounds` |
| `Board.Conflicts` | main.py:50-66 | definition: the count on the temporary assignment with (row, col) added; `CountConflicts` is proved to compute it, `ConflictsBounds` bounds it |
| `Board.Rows` | main.py:159 | `set(range(n))`: exactly the rows 0..n-1, n of them |
| `Board.AvailableUpTo` | main.py:42-48 | the columns collected are exactly the safe columns below the bound, strictly ascending (so no duplicates) |
| `Board.Min` | main.py:101 | Python's `min` on a set: a member of the set that is at most every member |
| `Board.PlaceSafeQueen` | main.py:230-231 | adding a safe queen in a free row keeps the placement on the board and pairwise non-attacking, with one more entry |
| `Board.SolutionColumnIsAvailable` | main.py:42-48 | in any solution that keeps the placed queens, a free row's queen stands on one of that row's candidate columns |
| `Board.DeadRowBlocksCompletion` | main.py:247-251 | forward checking prunes soundly: a free row with no candidate column means that no solution keeps the placed queens |
| `Board.FullPlacement` | main.py:210 | for a placement on the board, `len(assignment) == n` holds exactly when every row has a queen |
| `Board.SolutionPassesValidator` | main.py:170-172 | the validator is given every row of a solution and accepts it |
| `Board.ValidatorAgreesWithConsistency` | main.py:186-203 | on a placement with every row, the validator's check of pairs r1 < r2 holds iff no two queens attack each other |
| `Board.UnsafeBounds` | main.py:62-64 | a row has at most k unsafe columns below k, and at least one when a placed queen stands in one of them |
| `Board.ConflictsBounds` | main.py:50-66 | the lookahead cost lies between the number of free rows (each loses the queen's column) and n times that number |
| `Board.FreeRowsCount` | main.py:60-61 | the free rows counted are exactly the board rows that the temporary assignment leaves out |
| `Board.TwoQueensAttack` | main.py:159-171 | every full placement on a 2-by-2 board has an attacking pair; `NoSolutionForTwo` builds on it |
| `Board.ThreeQueensAttack` | main.py:159-171 | every full placement on a 3-by-3 board has an attacking pair; `NoSolutionForThree` builds on it |
| `Board.NoSolutionForTwo` | main.py:159-171 | no 2-queens solution exists; through `Solve`'s `result.Some? <==> Completable(n, map[])`, the search returns no result for n = 2 |
| `Board.NoSolutionForThree` | main.py:159-171 | no 3-queens solution exists; through `Solve`'s `result.Some? <==> Completable(n, map[])`, the search returns no result for n = 3 |
| `Board.OneQueenSolution` | main.py:159-171 | the only 1-queen solution is `{0: 0}`; through `Solve`'s contract, that is the result for n = 1, and it is non-empty, so it is stored and validated |
| `Board.FourQueensSolvable` | main.py:159-171 | a 4-queens solution exists; through `Solve`'s `result.Some? <==> Completable(n, map[])`, the search returns one for n = 4 |
| `LcvOrder.Scores` | main.py:134-137 | pairs each column with its conflict count, in input order |
| `LcvOrder.Columns` | main.py:142 | keeps the column of each pair, in order |
| `LcvOrder.InsertByCount` | main.py:140 | definition: one step of the stable sort, inserting a pair before the first pair of greater or equal count; `InsertPermutes`, `InsertSorted` and `InsertStable` state its properties |
| `LcvOrder.SortByCount` | main.py:140 | definition: `col_conflicts.sort(key=lambda x: x[1])` as a stable insertion sort; `SortPermutes`, `SortSorted` and `SortStable` prove it is a permutation, ordered by count and stable |
| `LcvOrder.InsertPermutes` | main.py:140 | one insertion step adds exactly its pair, and its column, as a multiset |
| `LcvOrder.SortPermutes` | main.py:140 | the sort permutes the pairs, and their columns |
| `LcvOrder.InsertSorted` | main.py:140 | inserting into a list sorted by count keeps it sorted |
| `LcvOrder.SortSorted` | main.py:140 | the sorted pairs have non-decreasing counts |
| `LcvOrder.InsertStable` | main.py:140 | one insertion step puts its pair in front of the pairs of equal count |
| `LcvOrder.SortStable` | main.py:140 | the sort is stable: for every count, the pairs with that count keep their input order |
| `LcvOrder.LcvOrderIsSortedPermutation` | main.py:124-142 | the LCV order is a permutation of the columns, by non-decreasing conflict count |
| `NQueens.RemainingValues` | main.py:76-79 | definition: `len(self.get_available_columns(assignment, row))`, the count MRV minimises here and in the combined heuristic (main.py:112-115), as `IsMrvChoice` states |
| `NQueens.EmptyBoardLeavesColumns` | main.py:159 | on the empty board every row 0..n-1 has a candidate column, so the root call meets the search's entry condition |
| `NQueens.RowsLeft` | main.py:210-214 | rows remain unassigned exactly when fewer than n queens are placed |
| `NQueens.PlaceTakesRow` | main.py:244 | `unassigned_rows - {row}` is exactly the complement of the new assignment's rows |
| `NQueens.ExtendsDropsQueen` | main.py:255-257 | a solution that keeps the new assignment also keeps the caller's |
| `NQueens.NoColumnLeft` | main.py:228-262 | once every candidate column has failed, no solution keeps the placed queens |
| `NQueens.NQueensCSP.constructor` | main.py:7-16 | stores n and the three flags, and zeroes the counters with no solution stored |
| `NQueens.NQueensCSP.IsSafeAssignment` | main.py:26-40 | the early-exit scan over the placed queens returns exactly `Safe`: no placed queen shares the column or a diagonal |
| `NQueens.NQueensCSP.GetAvailableColumns` | main.py:42-48 | returns `Available(n, a, row)`: exactly the safe columns in 0..n-1, ascending |
| `NQueens.NQueensCSP.CountConflicts` | main.py:50-66 | the nested loop on the temporary copy returns `Conflicts`, the number of unsafe cells in the free rows |
| `NQueens.NQueensCSP.MrvHeuristic` | main.py:68-83 | no row for an empty set; otherwise a row of the set with the fewest candidate columns, the first (smallest) on ties |
| `NQueens.NQueensCSP.DegreeHeuristic` | main.py:85-92 | the earliest unassigned row |
| `NQueens.NQueensCSP.CombinedHeuristic` | main.py:94-122 | a member of the set: the smallest row without MRV; with MRV, the smallest of the rows with the fewest candidate columns |
| `NQueens.NQueensCSP.LcvOrderValues` | main.py:124-142 | the input unchanged without LCV; with LCV, the stable sort by conflict count, a permutation with non-decreasing counts |
| `NQueens.NQueensCSP.ValidateSolution` | main.py:186-203 | returns true iff no pair r1 < r2 shares a column or a diagonal |
| `NQueens.NQueensCSP.ForwardCheck` | main.py:244-251 | true iff every remaining row still has a candidate column under the new assignment |
| `NQueens.NQueensCSP.Backtrack` | main.py:205-262 | entered only when every unassigned row still has a candidate column, the state forward checking (main.py:244-255) and the empty root board guarantee; so the chosen row always has a column. A result is a solution that keeps the input; no result means that none exists; at least one node is counted per call (and at least n - len(a) + 1 on success); backtracks never decrease and grow on failure |
| `NQueens.NQueensCSP.TryColumns` | main.py:228-262 | the column loop: a result is a solution that keeps the input; no result means that no solution puts the row's queen in any of the tried columns, with one backtrack or more per column |
| `NQueens.NQueensCSP.TryColumn` | main.py:229-257 | one column: a result is a solution that keeps the input; no result means that no solution keeps the input with this queen added, whether forward checking pruned it or the recursive search failed |
| `NQueens.NQueensCSP.Solve` | main.py:159-171 | a result exists iff a solution exists, whatever the flags; it is a solution; a non-empty result is stored and validated |
| `HeapOrder.SeqLess` | models/min_heap.py:31-32 | definition: Python's lexicographic `<` on tuples of integers, a proper prefix first; a strict total order by the three lemmas below |
| `HeapOrder.Less` | models/min_heap.py:31-32 | definition: Python's `<` on `(f, g, board)`, field by field; `LessIsStrictTotalOrder` |
| `HeapOrder.SeqLessIrreflexive` | models/min_heap.py:31-32 | no tuple of integers is `<` itself |
| `HeapOrder.SeqLessTransitive` | models/min_heap.py:31-32 | `<` on tuples of integers is transitive |
| `HeapOrder.SeqLessTrichotomous` | models/min_heap.py:31-32 | any two tuples of integers are equal or ordered one way |
| `HeapOrder.LessIsStrictTotalOrder` | models/min_heap.py:31-32 | `<` on `(f, g, board)` is irreflexive, transitive and total |
| `HeapOrder.LessEqTransitive` | models/min_heap.py:31-32 | "not greater" is transitive, which heap order relies on |
| `MinHeap.Parent` | models/min_heap.py:29 | `(index - 1) // 2` for a positive index: the index is the left or the right child of the result |
| `MinHeap.SiftUp` | models/min_heap.py:28-34 | definition: swap with the parent while smaller; `SiftUpPermutes` and `SiftUpRestores` state its properties, `BubbleUp` is proved to compute it |
| `MinHeap.SiftDown` | models/min_heap.py:36-50 | definition: swap with the smaller child while that child is smaller; `SiftDownPermutes` and `SiftDownRestores` state its properties, `BubbleDown` is proved to compute it |
| `MinHeap.Swap` | models/min_heap.py:33 | exchanges two positions, leaves the others and the multiset unchanged |
| `MinHeap.Smallest` | models/min_heap.py:37-46 | picks the index or one of its two children, within the list |
| `MinHeap.SmallestIsLeast` | models/min_heap.py:42-46 | the picked position holds an item no greater than the index or either child |
| `MinHeap.SiftUpPermutes` | models/min_heap.py:28-34 | `_bubble_up` keeps the length and the multiset |
| `MinHeap.SiftDownPermutes` | models/min_heap.py:36-50 | `_bubble_down` keeps the length and the multiset |
| `MinHeap.SiftUpRestores` | models/min_heap.py:28-34 | `_bubble_up` turns a heap broken only at the index into a heap |
| `MinHeap.SiftDownRestores` | models/min_heap.py:36-50 | `_bubble_down` turns a heap broken only below the index into a heap |
| `MinHeap.RootIsLeast` | models/min_heap.py:19 | the root of a heap is no greater than any element |
| `MinHeap.AppendIsHeapExceptUp` | models/min_heap.py:9 | appending to a heap breaks the order only at the new position |
| `MinHeap.LastToRootIsHeapExceptDown` | models/min_heap.py:20 | moving the last element to the root breaks the order only at the root |
| `MinHeap.ManualMinHeap.constructor` | models/min_heap.py:4-5 | starts empty, a heap |
| `MinHeap.ManualMinHeap.Push` | models/min_heap.py:7-10 | heap order kept, length one more, the old multiset plus the item |
| `MinHeap.ManualMinHeap.Pop` | models/min_heap.py:12-22 | see below |
| `MinHeap.ManualMinHeap.IsNotEmpty` | models/min_heap.py:24-26 | true iff the list is non-empty |
| `MinHeap.ManualMinHeap.BubbleUp` | models/min_heap.py:28-34 | the recursive swaps give `SiftUp` of the old list |
| `MinHeap.ManualMinHeap.BubbleDown` | models/min_heap.py:36-50 | the recursive swaps give `SiftDown` of the old list |

`MinHeap.ManualMinHeap.Pop` behaves as follows:

- On an empty heap it returns no item and the list stays empty.
- On one item it returns that item and the list becomes empty.
- Otherwise it returns the old root, which is a minimum. The new list is the sift-down of the last item moved to the root.
- Whenever it returns an item, heap order holds, the length drops by one, and exactly one occurrence of the root is removed.

## Left out

- The search-tree graph and board drawing are not modelled: `self.G`, `node_labels`, `exploration_order`, the `parent_state` and `new_state` arguments, `plot_search_tree`, `plot_chessboard` and `_hierarchy_pos`. They only feed networkx and matplotlib, and the search does not depend on them.
- Console output and wall-clock timing in `solve` and `compare_heuristics` are not modelled. `Solve` returns the validator's verdict as `validated` in place of the message it would print.
- The field `self.assignment` is never used by the source and is not modelled.
- Python's default arguments (all three flags `True`) have no counterpart: the constructor takes all four arguments.
- NQueens.NQueensCSP.constructor: n is a `nat`. With a negative n the source raises `ValueError` from `min` of an empty set in three of the four flag settings. Nothing in the source rejects n ≤ 0: `__init__` (main.py:7-24) has no check on n, so n = 0 is accepted, and the model keeps it. For n = 0 the search returns `{}`, which `if result:` treats as false, so nothing is stored or validated.
- NQueens.NQueensCSP.CombinedHeuristic: requires a non-empty set of rows. The source raises `ValueError` on an empty set, except with MRV alone, where it returns `None`. `Backtrack` only calls it with rows left.
- NQueens.NQueensCSP.ValidateSolution: requires rows 0..n-1 to be present. The source raises `KeyError` when a row it reaches is missing. `Solve` only passes complete solutions.
- NQueens.NQueensCSP.Backtrack: the counters get lower bounds, not their exact values. It counts at least one node per call, at least n - len(a) + 1 on success, and at least one backtrack per failing call.
- NQueens.NQueensCSP.TryColumns: the backtrack counter gets a lower bound, at least one per column on failure. On success it states nothing about the backtracks of the columns that failed first, only that the counter did not decrease.
- NQueens.NQueensCSP.TryColumn: both counters are only stated not to decrease, and on success the node counter to grow by at least n - len(a). The exact counts of the recursive search are not stated.
- Set iteration order is fixed where it matters. `MrvHeuristic` visits rows in ascending order, so it breaks ties by the smallest row. The combined loop, the safety scan and the forward check take elements in any order, and their results are proved not to depend on that order.
- `float('inf')` is replaced by n + 1, which is above every count of candidate columns.
- The `if not available_cols` branch (main.py:220-222) is proved unreachable from `solve`. `Backtrack` requires every unassigned row to keep a candidate column. `Solve` meets this through `EmptyBoardLeavesColumns`, and `TryColumn` meets it through `ForwardCheck`'s result. The model therefore has an assertion where the source has this branch, and the branch's backtrack count never happens.
- Python's `list.sort` (Timsort) is modelled by a stable insertion sort. A stable sort by key has only one possible output, so the order is the same.
- Heap items are fixed to `(int, int, tuple of ints)`, the `(f, g, board)` triples of the best-first search. Python's `<` on other item types is not modelled.
- `ManualMinHeap.Push` and `Pop` require the heap invariant, which every method keeps. The source relies on the list being touched only through these methods.
- The best-first search that uses the heap, and its randomised column order, are not part of this model.
- The N = 8 runs in `compare_heuristics` and `__main__` (main.py:370-430) compare run-time statistics and are not stated. Solvability is stated for n = 1 and n = 4, and its absence for n = 2 and n = 3.

# Instrumented classic algorithms, modelled in Dafny

`algoritmos.py` holds four textbook algorithms that each charge their work to
a caller-owned operation counter: insertion sort, top-down merge sort,
iterative binary search, and a backtracking N-Queens solver that fills an
n x n board of 0/1 cells. The counter is a dictionary with five keys that
the algorithms increment in place. Those keys are `comparacoes`, `trocas`,
`chamadas_recursivas`, `passos_laco` and `backtracks`.

This project models the four algorithms in their own imperative form:

- The counter is the class `Counters.Counter`. Its five `int` fields are
  updated under `modifies`.
- Lists are `array<int>`, sorted in place.
- The board is an `array2<int>`.

Each method is proved against a pure reference definition of what it
computes and what it charges. The properties that matter are then proved
about those definitions:

- both sorts return a non-decreasing permutation of their input;
- binary search finds an index holding the target, or gives up only when a
  sorted list does not contain it;
- the N-Queens search succeeds exactly when a solution exists, and leaves
  that solution on the board;
- the counters reach closed forms or bounds: insertion sort's quadratic
  worst case and linear best case, merge sort's `2n-1` calls and `n log n`
  comparisons, binary search's logarithmic number of probes, and the
  backtracking identity `calls = 1 + backtracks + solved rows`.

Files:

- `counters.dfy` (module `Counters`): the counter and its `Tally` snapshot.
- `ordering.dfy` (module `Ordering`): sortedness, and the uniqueness of a
  sorted permutation.
- `insertion.dfy` (module `Insertion`): `insertion_sort`.
- `merging.dfy` (module `Merging`): `merge_sort`.
- `searching.dfy` (module `Searching`): `binary_search`.
- `queens.dfy` (module `Queens`): `_is_safe_n_queens`,
  `_solve_n_queens_util` and `n_queens_backtracking`.
- `powers.dfy` (module `Powers`): powers of two, for the logarithmic bounds.
- `agreement.dfy` (module `Agreement`): the two sorts compared.

The model follows the code in two places where a plain description of the
algorithms would differ:

- **Merge tie-break.** The merge compares with a strict `<`
  (`algoritmos.py:48`), so when the two heads are equal the element of the
  right half is written first. `Merging.MergeFrom` does the same. The sorted
  result is the same either way (`Ordering.SortedPermutationUnique`), and
  the two sorts return the same list (`Agreement.SortsAgree`), but the
  comparison counts depend on it.
- **Diagonal scans.** Both diagonal scans of `_is_safe_n_queens` start at
  `(row, col)` itself, not at the row above (`algoritmos.py:108`,
  `algoritmos.py:115`). That cell is always empty when the solver asks, but
  it is still read and charged one comparison. `Queens.UpLeft` and
  `Queens.UpRight` include it.

## Model

| member | source | states |
|---|---|---|
| Counters.Counter.constructor | analisador.py:65 | a new counter reads 0 in every category, as a fresh `defaultdict(int)` does |
| Ordering.SortedPermutationUnique | algoritmos.py:1-67 | two non-decreasing lists with the same elements are equal |
| Agreement.SortsAgree | algoritmos.py:1-67 | `insertion_sort` and `merge_sort` leave the same list on every input |
| Insertion.InsertionSort | algoritmos.py:1-22 | the array ends sorted and is a permutation of the input, equal to the outer-loop reference; `comparacoes` grows by len-1 plus the shifts, `trocas` by the shifts, and the other keys are untouched; the same list object is returned |
| Insertion.SortStep | algoritmos.py:5-20 | one outer iteration at position i extends the handled prefix by one element and leaves the rest of the array as it was in the input |
| Insertion.InsertPass | algoritmos.py:6-20 | the key is shifted into its place in the prefix (the prefix becomes `Insert(prefix, key)`); later cells are unchanged; one comparison is charged up front plus one comparison and one `trocas` per shift |
| Insertion.Insert | algoritmos.py:13-20 | inserting a key lengthens the prefix by exactly one |
| Insertion.SortedUpTo | algoritmos.py:5-20 | the prefix handled after position i-1 has exactly i elements |
| Insertion.InsertionSorted | algoritmos.py:1-22 | the sorted result has the input's length |
| Insertion.Shifts | algoritmos.py:13-17 | definition, no contract of its own: the number of inner-loop steps of one pass, counting prefix elements from the right while the key is strictly smaller; each step charges one `comparacoes` and one `trocas` (bounds in `Insertion.ShiftsBounds`) |
| Insertion.ShiftsUpTo | algoritmos.py:5-17 | definition, no contract of its own: the inner-loop steps of the outer iterations for positions 1..i-1, each pass working on the prefix handled so far (bounds in `Insertion.ShiftsUpToBounds`) |
| Insertion.TotalShifts | algoritmos.py:5-17 | definition, no contract of its own: the inner-loop steps of the whole sort (bounds in `Insertion.TotalShiftsBounds`) |
| Insertion.OuterPasses | algoritmos.py:5-12 | definition, no contract of its own: the outer iterations of `range(1, len(arr))`, each charging the up-front comparison of line 12 |
| Insertion.InsertGap | algoritmos.py:13-20 | when the loop stops at gap m, the result is the prefix with the key spliced in at m, after len-m shifts |
| Insertion.InsertAtGap | algoritmos.py:13-20 | an array that holds the prefix below m, the key at m and the shifted elements above is exactly `Insert`'s result |
| Insertion.InsertPermutes | algoritmos.py:13-20 | a pass adds the key and loses no element |
| Insertion.SortedUpToPermutes | algoritmos.py:5-20 | the handled prefix is a permutation of the same prefix of the input |
| Insertion.InsertionSortedPermutes | algoritmos.py:1-22 | the sorted result is a permutation of the input |
| Insertion.InsertSorted | algoritmos.py:13-20 | inserting into a sorted prefix keeps it sorted |
| Insertion.InsertBounded | algoritmos.py:13-20 | inserting values no larger than b yields values no larger than b |
| Insertion.SortedUpToSorted | algoritmos.py:5-20 | the handled prefix is always non-decreasing |
| Insertion.InsertionSortedSorted | algoritmos.py:1-22 | the sorted result is non-decreasing |
| Insertion.SortedPrefixUnchanged | algoritmos.py:5-20 | on a sorted input every prefix is left as it is, with no shift |
| Insertion.SortedInputUnchanged | algoritmos.py:1-22 | a sorted input comes out unchanged, with no shift |
| Insertion.SortedInputCost | algoritmos.py:12-16 | best case: on a sorted input the sort charges exactly len-1 comparisons and no `trocas` |
| Insertion.ShiftsBounds | algoritmos.py:13-17 | one pass shifts at most the whole prefix, and all of it when the key is smaller than every element |
| Insertion.ShiftsUpToBounds | algoritmos.py:5-17 | handling the first i positions costs at most i(i-1)/2 shifts, and exactly that on a strictly decreasing input |
| Insertion.KeyBelowHandled | algoritmos.py:13 | on a strictly decreasing input each key is below every element already handled, so the inner loop runs to the front |
| Insertion.TotalShiftsBounds | algoritmos.py:12-17 | worst case: at most len(len-1)/2 shifts, exactly that on a strictly decreasing input |
| Insertion.InsertionSortIdempotent | algoritmos.py:1-22 | sorting a sorted result changes nothing and shifts nothing |
| Merging.MergeSort | algoritmos.py:27-67 | the array ends sorted and is a permutation of the input, equal to the recursive reference; `chamadas_recursivas` grows by 2n-1 (1 for the empty list), `comparacoes` by the reference count, and the other keys are untouched; the same list object is returned |
| Merging.MergeHalves | algoritmos.py:42-66 | the three merge loops write exactly the merge of the two sorted halves and charge one comparison per step of the first loop |
| Merging.CopyTail | algoritmos.py:57-66 | a tail loop copies what remains of one half into the rest of the array and leaves the cells before it alone |
| Merging.MergeFrom | algoritmos.py:46-66 | the merge from a point on has as many elements as remain in both halves (its contents are stated by `Merging.MergeFromPermutes` and `Merging.MergeFromSorted`) |
| Merging.Merge | algoritmos.py:42-66 | the merge has the combined length of the halves |
| Merging.MergeSorted | algoritmos.py:27-67 | merge sort keeps the length of the list |
| Merging.ComparisonsFrom | algoritmos.py:46-54 | definition, no contract of its own: one `comparacoes` per step of the first merge loop from (i, j) on, while both halves have elements, following the strict `<` (bounds in `Merging.ComparisonsFromBounds`) |
| Merging.MergeComparisons | algoritmos.py:42-54 | definition, no contract of its own: the comparisons of one whole merge (bounds in `Merging.MergeComparisonsBounds`) |
| Merging.MergeSortComparisons | algoritmos.py:27-54 | definition, no contract of its own: the comparisons of both recursive calls on the halves split at len // 2 plus those of merging their sorted results; none for a list of length 0 or 1 (bounds in `Merging.MergeSortComparisonsWorstCase` and `Merging.MergeSortComparisonsBound`) |
| Merging.Calls | algoritmos.py:30-39 | definition, no contract of its own: one `chamadas_recursivas` per entry, plus the calls on both halves when the list is longer than one (closed form in `Merging.CallsClosedForm`) |
| Merging.Depth | algoritmos.py:31-39 | definition, no contract of its own: how many times the longer half is split again before reaching length 1 (logarithm in `Merging.DepthIsLog`) |
| Merging.WorstCase | algoritmos.py:31-54 | definition, no contract of its own: the comparisons when every merge of two halves charges the most, len - 1 (bounds in `Merging.MergeSortComparisonsWorstCase` and `Merging.WorstCaseBound`) |
| Merging.MergeFromLowerBound | algoritmos.py:46-66 | anything still to be written is at least any common lower bound of what remains in the halves |
| Merging.MergeFromSorted | algoritmos.py:46-66 | merging the rest of two sorted halves gives a sorted list |
| Merging.MergeFromPermutes | algoritmos.py:46-66 | merging the rest of two halves keeps exactly their remaining elements |
| Merging.MergeKeepsSorted | algoritmos.py:42-66 | merging two sorted halves gives a sorted list |
| Merging.MergePermutes | algoritmos.py:42-66 | merging keeps every element of both halves and adds none |
| Merging.MergeSortedSorted | algoritmos.py:27-67 | merge sort's result is non-decreasing |
| Merging.MergeSortedPermutes | algoritmos.py:27-67 | merge sort's result is a permutation of its input |
| Merging.ComparisonsFromBounds | algoritmos.py:46-54 | once a half is used up nothing more is charged; otherwise what is left costs at least the shorter remainder and at most one less than all that remains |
| Merging.MergeComparisonsBounds | algoritmos.py:46-54 | one merge of two non-empty halves costs between the shorter half's length and len-1 comparisons, and nothing when a half is empty |
| Merging.CallsClosedForm | algoritmos.py:30-39 | merge sort is entered 2n-1 times on a list of n >= 1 elements, and once on the empty list |
| Merging.DepthMonotone | algoritmos.py:31-39 | a longer list is split at least as many times |
| Merging.WorstCaseSplits | algoritmos.py:31-54 | unfolding helper, one step of the definition: the worst-case count of a list is its halves' worst cases plus len-1 for the merge |
| Merging.MergeSortComparisonsWorstCase | algoritmos.py:27-67 | on any input merge sort charges no more than the worst case for its length |
| Merging.SortedSplits | algoritmos.py:31-66 | unfolding helper, one step of the definition: on a list of two or more elements the result is the merge of the sorted halves split at len // 2 |
| Merging.CostSplits | algoritmos.py:31-54 | unfolding helper, one step of the definition: on a list of two or more elements the comparisons are the two halves' comparisons plus those of their merge |
| Merging.WorstCaseBound | algoritmos.py:27-67 | the worst case is at most n comparisons per level of splitting |
| Merging.MergeSortComparisonsBound | algoritmos.py:27-67 | merge sort charges at most n times the splitting depth, the n log n bound |
| Merging.DepthIsLog | algoritmos.py:31-39 | the splitting depth is the base-2 logarithm of the length, rounded up |
| Merging.SortedInputFixed | algoritmos.py:27-67 | a sorted input comes out unchanged |
| Merging.MergeSortIdempotent | algoritmos.py:27-67 | sorting a sorted result changes nothing |
| Searching.BinarySearch | algoritmos.py:72-88 | the result is -1 or an index that holds the target; on a sorted list -1 means the target is absent; `comparacoes` grows by two per missed probe and one for a hit, and the other keys are untouched |
| Searching.Search | algoritmos.py:75-88 | a search that does not give up returns an index inside its window that holds the target |
| Searching.Charged | algoritmos.py:76-88 | definition, no contract of its own: two `comparacoes` per probe, one less when the last probe hits and returns at line 80 (bounds in `Searching.SearchChargeBounds`) |
| Searching.SearchGoesRight | algoritmos.py:84-85 | unfolding helper, one step of the definition: a probe below the target moves the window to the upper half, at the cost of one more probe |
| Searching.SearchGoesLeft | algoritmos.py:86-87 | unfolding helper, one step of the definition: a probe above the target moves the window to the lower half, at the cost of one more probe |
| Searching.AbsentWhenMissed | algoritmos.py:72-88 | on a sorted list a search that returns -1 means the target is nowhere in it |
| Searching.SearchMissesOnlyWhenAbsent | algoritmos.py:75-88 | on a sorted list the search gives up if and only if the target is absent from the window |
| Searching.SearchRoundsLogarithmic | algoritmos.py:76-87 | every missed probe at least halves the window, so a search makes at most floor(log2 len)+1 probes |
| Searching.SearchChargeBounds | algoritmos.py:76-88 | the comparisons charged lie between one and two per probe, and are zero exactly on the empty list |
| Queens.IsSafe | algoritmos.py:98-121 | the answer is true exactly when the column above and both upward diagonals hold no queen; `comparacoes` grows by one per cell read, the scans stop at the first queen, and nothing else changes |
| Queens.ScanColumn | algoritmos.py:101-104 | the column scan answers whether rows 0..row-1 of the column hold no queen, at one comparison per cell read |
| Queens.ScanUpLeft | algoritmos.py:108-111 | the up-left scan, starting at (row, col), answers whether the diagonal holds no queen, at one comparison per cell read |
| Queens.ScanUpRight | algoritmos.py:115-118 | the up-right scan, starting at (row, col), answers whether the diagonal holds no queen, at one comparison per cell read |
| Queens.ColumnAbove | algoritmos.py:101 | the column scan reads `row` cells |
| Queens.UpLeft | algoritmos.py:108 | the up-left scan reads min(row, col)+1 cells |
| Queens.UpRight | algoritmos.py:115 | the up-right scan reads min(row+1, n-col) cells |
| Queens.FirstQueen | algoritmos.py:101-118 | a scan stops within its cells |
| Queens.FirstQueenIsFirst | algoritmos.py:101-118 | the scan stops at the first cell holding a queen, and no earlier |
| Queens.ScanCostBounds | algoritmos.py:101-118 | a scan charges at most its length; it is clear exactly when it holds no queen, and it charges at least one comparison when it meets one |
| Queens.Clear | algoritmos.py:101-118 | definition, no contract of its own: a scan meets no cell holding 1 (characterised in `Queens.ScanCostBounds`) |
| Queens.ScanCost | algoritmos.py:101-118 | definition, no contract of its own: one `comparacoes` per cell read, up to and including the first queen (bounds in `Queens.ScanCostBounds`) |
| Queens.Safe | algoritmos.py:98-121 | definition, no contract of its own: the three scans all meet no queen (tied to the placement in `Queens.SafeIffCompatible`) |
| Queens.SafetyCost | algoritmos.py:98-121 | definition, no contract of its own: the column scan's comparisons, then the up-left scan's only when the column was clear, then the up-right scan's only when both were clear |
| Queens.BoardOf | algoritmos.py:136 | the board of a placement is square n x n |
| Queens.ColumnClearIff | algoritmos.py:101-104 | on a board holding the queens placed so far, the column scan is clear exactly when no earlier queen shares the column |
| Queens.UpLeftClearIff | algoritmos.py:108-111 | the up-left scan is clear exactly when no earlier queen lies on that diagonal |
| Queens.UpRightClearIff | algoritmos.py:115-118 | the up-right scan is clear exactly when no earlier queen lies on that anti-diagonal |
| Queens.SafeIffCompatible | algoritmos.py:98-121 | the board test is safe exactly when the new queen is attacked by no earlier queen |
| Queens.ExtendNonAttacking | algoritmos.py:135-140 | adding a queen that passes the test keeps the placement free of attacks |
| Queens.Solve | algoritmos.py:124-149 | definition, no contract of its own: with every row filled the search succeeds with the queens it has; otherwise it is the column loop from column 0 (soundness and completeness in `Queens.SolveSound`, `Queens.SolveComplete`) |
| Queens.TryFrom | algoritmos.py:133-149 | definition, no contract of its own: the first column from col on that is safe and from which the search of the next row succeeds gives the result; when none does the search fails with the queens it started from (`Queens.TrySound`, `Queens.TryComplete`) |
| Queens.SolveCost | algoritmos.py:124-149 | definition, no contract of its own: one `chamadas_recursivas` on entry, then the column loop's charges unless every row is filled (identity in `Queens.SolveAccounting`) |
| Queens.ColumnCost | algoritmos.py:134-146 | definition, no contract of its own: one `passos_laco` and the safety test's comparisons; a safe column adds the search of the next row, and one `backtracks` when that search fails |
| Queens.TryCost | algoritmos.py:133-149 | definition, no contract of its own: the charges of each column tried from col on, stopping after the column that succeeds (identity in `Queens.TryAccounting`) |
| Queens.NQueensBacktracking | algoritmos.py:152-158 | a new n x n board is returned; when the search succeeds it holds a solution, otherwise only zeros; the counter grows by the search's reference cost |
| Queens.SolveUtil | algoritmos.py:124-149 | the answer and the final board are those of the reference search from the queens already placed; a failed search leaves the board as it found it; the counter grows by the reference cost |
| Queens.TryColumns | algoritmos.py:133-149 | the column loop ends with the reference loop's answer and board, at the reference loop's cost |
| Queens.TryColumn | algoritmos.py:134-146 | one column is placed exactly when it is safe and the search below it succeeds; otherwise the board is as before; it charges one `passos_laco`, the test and any sub-search |
| Queens.PlaceQueen | algoritmos.py:136-146 | the queen stays exactly when the search below it succeeds; otherwise it is removed and one `backtracks` is charged |
| Queens.TryStep | algoritmos.py:133-146 | unfolding helper, one step of the definition: one loop step: a column that leads to a solution ends the loop, any other passes on to the next column and adds its cost |
| Queens.SolveSound | algoritmos.py:124-149 | a search keeps the queens it started from and stays on the board; a success fills every row without attacks, and a failure leaves only the starting queens |
| Queens.TrySound | algoritmos.py:133-149 | the same soundness for the column loop from any column on |
| Queens.FoundIsSolution | algoritmos.py:152-158 | a successful search from the empty board ends with a solution, and a failed one with no queen |
| Queens.SolveComplete | algoritmos.py:124-149 | a search from a prefix of some solution always succeeds |
| Queens.TryComplete | algoritmos.py:133-149 | the column loop succeeds when it starts no later than the column a solution uses |
| Queens.SolveFindsIffSolvable | algoritmos.py:152-158 | the search from the empty board succeeds if and only if the n-queens problem has a solution |
| Queens.SmallBoardsAttack | algoritmos.py:98-121 | every placement of one queen per row on a 2 x 2 or 3 x 3 board has two queens attacking each other |
| Queens.NoSolutionForTwoOrThree | algoritmos.py:152-158 | for n = 2 and n = 3 there is no solution and the search fails |
| Queens.FourQueensFound | algoritmos.py:152-158 | for n = 4 the search succeeds |
| Queens.SolveAccounting | algoritmos.py:124-149 | calls = 1 + backtracks + the rows the successful path fills; the search never swaps |
| Queens.TryAccounting | algoritmos.py:133-149 | the same identity for the column loop; a loop that fails steps through at least the remaining columns |
| Queens.SolutionBoardValid | algoritmos.py:152-158 | the board of a solution has exactly one queen per row, and no two queens share a column or a diagonal |
| Queens.ShowsBoardOf | algoritmos.py:136 | a board that holds exactly the queens placed so far has BoardOf's contents |

## Left out

- The benchmarking driver in `analisador.py` is not part of this model:
  input generation, random data, timing with `timeit`, progress printing,
  the results table printed with `tabulate`, and the matplotlib charts. Its only modelled trace is the fresh counter
  (`Counters.Counter.constructor`).
- `floyd_warshall`, its wrapper `fw_wrapper` and the constant `INF` are not
  part of this model.
- The counter dictionary is a class with one field per key that the
  algorithms use. Keys that no algorithm writes have no field.
- Python integers are unbounded, and so are Dafny's `int`. No width or
  wrap-around applies.
- Searching.BinarySearch: takes the list as a `seq<int>`, not as an array,
  because `binary_search` only reads it.
- The loop bodies of `insertion_sort`, `merge_sort`, `_is_safe_n_queens` and
  `_solve_n_queens_util` are methods of their own. These are
  `Insertion.SortStep`, `Insertion.InsertPass`, `Merging.MergeHalves`,
  `Merging.CopyTail`, the three scans, `Queens.TryColumns`,
  `Queens.TryColumn` and `Queens.PlaceQueen`. They run the same statements
  in the same order, with one exception. After the first merge loop,
  `Merging.MergeHalves` runs only the closing copy loop of the half that
  still has elements; the source runs both loops, one after the other
  (`algoritmos.py:57-66`). The first merge loop stops only when one half is
  used up, so the other closing loop would do nothing: the array and the
  counter end the same.
- `merge_sort` copies its halves into new lists. The model copies them into
  new arrays.
- Queens.SolveUtil: the queens already on the board are passed as a ghost
  list of columns. The board must hold exactly those queens, which is true
  of every call the solver makes.
- `n` is a `nat`. `range(n)` with a negative `n` is empty, so the Python
  code then returns an empty board; the model does not cover negative `n`.
- Whether the search succeeds for every n >= 4 is not proved. Only n = 4
  succeeding and n = 2, 3 failing are proved. In general, success is tied
  to the existence of a solution (`Queens.SolveFindsIffSolvable`).
- `n_queens_backtracking` discards the solver's boolean. The model discards
  it too.

# Verified model of a collection of teaching algorithms

This project models, in Dafny, the algorithmic core of a repository of teaching exercises. The code is mostly C++, with some Java and one Python file. Each source file becomes one Dafny module:

- **Balanced ordered containers.**
  - `IntervalSearchTree`: the generic left-leaning red-black interval tree with its `tree_hi` augmentation.
  - `RectangleIntersections`: the `int` copy of that tree, the event ordering and the sweep that counts intersecting rectangles.
  - `LlrbSymbolTable` and `OrderedSymbolTable`: the two Java ordered symbol tables with rank, select, floor and ceiling. Both are specified against one ordered-map model, `SymbolTableSpec`.
- **Containers with mutable state.** Each is a class whose fields the methods update, specified against an abstract sequence, multiset or partition.
  - `PriorityQueue`: the binary heap.
  - `ResizingArrayQueue`: the circular resizing queue.
  - `DisjointSet`: union-find with path halving and union by size.
  - `QueueUsingTwoStacks`, `Deque` and `RandomizedQueue`.
- **Puzzle board and k-d tree.**
  - `Board`: the sliding-puzzle board, with its metrics, neighbours and twin.
  - `KDTree`: k-d tree construction, box search and nearest-neighbour search.
- **In-place sorts**, each proved to leave a sorted permutation (shared definitions are in `SortSpec` and `SeqFacts`):
  - insertion sort, in three variants;
  - selection sort;
  - bubble sort, in two variants;
  - heap sort;
  - bottom-up merge sort, with the merge in `Merging`;
  - recursive merge sort;
  - quicksort;
  - counting sort.
- **Dynamic programming and divide and conquer.**
  - Longest common subsequence and Needleman–Wunsch.
  - 0/1 knapsack and the alternating coin game.
  - Longest increasing subsequence.
  - The two maximum-subarray programs.
  - Sorted array to balanced BST.
  - Huffman coding.
  - The two-pointer 3-sum count.
- **Graph helpers.**
  - `Johnson`: relax_edge, bellman_ford and recalculate_path_weights from Johnson's algorithm.
  - `Kosaraju`: the transpose, the two searches and the component loop.
  - `DagRelaxation`: the DAG check and shortest paths by relaxation.

Dafny integers are unbounded. Where the source's fixed-width arithmetic matters, the wrap-around is written out: Java `int` in the 3-sum count, `size_t` in selection sort, and `INT_MIN` in counting sort. Random choices become parameters of the operation. These are the random index of the randomized queue and its iterator's shuffle.

## Model

| member | source | states |
|---|---|---|
| SortedArrayToBst.Daq | divide_and_conquer/sorted_array_to_balanced_BST.cpp:24-29 | the tree's in-order sequence is `a[low..high]` (empty, i.e. nullptr, when `low > high`), its size is the length of the range, and at every node the two subtree sizes differ by at most one |
| SortedArrayToBst.MiddleSplit | divide_and_conquer/sorted_array_to_balanced_BST.cpp:27-28 | `mid = (low + high) / 2` lies in `[low, high)` and splits the range around `a[mid]` into halves whose lengths differ by at most one |
| SortedArrayToBst.SearchTreeIffSorted | divide_and_conquer/sorted_array_to_balanced_BST.cpp:24-29 | a tree is a binary search tree exactly when its in-order sequence is sorted (both directions) |
| SortedArrayToBst.DaqOfSorted | divide_and_conquer/sorted_array_to_balanced_BST.cpp:27-28 | a sorted range yields a binary search tree |
| SortedArrayToBst.SizeBalancedHeight | divide_and_conquer/sorted_array_to_balanced_BST.cpp:27-28 | a tree whose subtree sizes differ by at most one everywhere has height equal to the bit length of its size and is height-balanced |
| SortedArrayToBst.DaqHeightBalanced | divide_and_conquer/sorted_array_to_balanced_BST.cpp:24-29 | every tree daq builds is height-balanced: the subtree heights differ by at most one at every node |
| Board.JavaDivRem | princeton_algs_1/mystic_square_puzzle/Board.java:59 | Java's truncating `/` and `%` satisfy `(a / d) * d + a % d == a` |
| Board.HammingZero | princeton_algs_1/mystic_square_puzzle/Board.java:16-25 | the hamming count over the first rows is 0 exactly when every non-blank tile of those rows sits at its goal cell `j + n*i + 1` |
| Board.MisplacedMoves | princeton_algs_1/mystic_square_puzzle/Board.java:59 | a misplaced non-blank tile is at Manhattan distance at least 1 from its goal cell |
| Board.HammingBelowManhattan | princeton_algs_1/mystic_square_puzzle/Board.java:16-64 | hamming never exceeds manhattan |
| Board.SlideBack | princeton_algs_1/mystic_square_puzzle/Board.java:113-143 | sliding the tile back into its cell undoes a neighbour move |
| Board.Moves | princeton_algs_1/mystic_square_puzzle/Board.java:113-143 | the cells neighbors moves the blank to are up, down, left and right, in that order; each is at Manhattan distance 1 from the blank and inside the board |
| Board.MovesComplete | princeton_algs_1/mystic_square_puzzle/Board.java:113-143 | every in-bounds cell next to the blank is among the moves, and a board of dimension at least 2 has between 2 and 4 neighbours |
| Board.DeepCloneTiles | princeton_algs_1/mystic_square_puzzle/Board.java:163-171 | a fresh n-by-n array holding the same tiles |
| Board.Board.constructor | princeton_algs_1/mystic_square_puzzle/Board.java:12-26 | the board holds a fresh copy of the tiles, so later writes to the caller's array do not reach it; dimension is the row count and the stored hamming count is computed |
| Board.Board.Dimension | princeton_algs_1/mystic_square_puzzle/Board.java:44-46 | the number of rows |
| Board.Board.Hamming | princeton_algs_1/mystic_square_puzzle/Board.java:49-51 | the number of non-blank tiles not at their goal cell |
| Board.Board.IsGoal | princeton_algs_1/mystic_square_puzzle/Board.java:16-25 | true exactly when every non-blank tile is at its goal cell |
| Board.Board.Manhattan | princeton_algs_1/mystic_square_puzzle/Board.java:54-64 | the sum over non-blank tiles of the row and column distances to the goal cell, computed with Java's truncating division; it is at least hamming |
| Board.Board.Equals | princeton_algs_1/mystic_square_puzzle/Board.java:72-96 | true exactly when `y` is non-null with the same dimension and the same tiles |
| Board.Board.FindBlank | princeton_algs_1/mystic_square_puzzle/Board.java:102-111 | the blank search that only breaks the inner loop: it settles on the blank of the last row holding one, at that row's first blank, or on (0, 0) when there is none |
| Board.Board.Neighbors | princeton_algs_1/mystic_square_puzzle/Board.java:99-146 | one new board per in-bounds move of the blank, up, down, left and right in that order, each the grid with that tile slid into the blank |
| Board.Board.AddNeighbour | princeton_algs_1/mystic_square_puzzle/Board.java:114-118 | appends one fresh neighbour board, keeping the earlier ones |
| Board.Board.NeighbourAt | princeton_algs_1/mystic_square_puzzle/Board.java:114-118 | a fresh valid board holding this grid with the tile at the target slid into the blank |
| Board.SlideTile | princeton_algs_1/mystic_square_puzzle/Board.java:115-116 | the two writes move the tile into the blank and blank its old cell, and nothing else changes |
| Board.Board.Twin | princeton_algs_1/mystic_square_puzzle/Board.java:149-161 | a fresh board with the two cells chosen in the top-left square exchanged |
| Board.SwapTiles | princeton_algs_1/mystic_square_puzzle/Board.java:156-158 | the two cells trade their tiles and nothing else changes |
| Board.TwinSwapsTiles | princeton_algs_1/mystic_square_puzzle/Board.java:152-158 | twin exchanges two different cells of the top-left square; with at most one blank there both hold tiles; exchanging twice gives the grid back |
| SortSpec.FinalSorted | sorting/bubble_optimised/bubble_optimised.cpp:15-23 | a list whose suffix from `k` is in final position and whose prefix up to `k` is sorted is sorted |
| SortSpec.JoinSorted | sorting/merge/merge.cpp:10-39 | two adjacent sorted runs whose boundary is in order form one sorted run |
| SortSpec.Swap | sorting/selection/selection.cpp:17-19 | the three-assignment exchange through `temp`: the array becomes the old contents with the two cells exchanged |
| SortSpec.MoveDownPermutes | sorting/insertion_optimised/insertion_optimised.cpp:14-18 | shifting a run up one place and dropping the saved value into the gap permutes the list |
| SortSpec.MoveDownSorts | sorting/insertion_optimised/insertion_optimised.cpp:14-18 | dropping the saved value after the last cell not larger than it, when the cells it passed are all larger, extends the sorted prefix by one |
| SortSpec.SortedSlice | sorting/merge_recursive/merge_recursive.cpp:34-37 | a range is sorted in place exactly when its slice is sorted (both directions) |
| SortSpec.SplicePermutes | sorting/quick/quick.cpp:14-34 | permuting a range and keeping the cells outside it permutes the whole list |
| InsertionSort.InsertionSort | sorting/insertion/insertion.cpp:10-20 | the list ends sorted and a permutation of its old contents |
| InsertionSort.SinkInto | sorting/insertion/insertion.cpp:12-18 | after the inner loop for `i` the prefix up to `i` is sorted, the list is a permutation of its old contents and the cells after `i` are untouched |
| InsertionSort.SwapDown | sorting/insertion/insertion.cpp:13-17 | one exchange happens only when `list[j-1] > list[j]` (equal neighbours are never exchanged) and moves the out-of-place value one cell down, keeping both runs sorted |
| InsertionSort.SinkStep | sorting/insertion/insertion.cpp:13-17 | the order facts one exchange of the inner loop preserves |
| InsertionSort.OptimisedInsertionSort | sorting/insertion_optimised/insertion_optimised.cpp:10-20 | the list ends sorted and a permutation of its old contents |
| InsertionSort.ShiftInsert | sorting/insertion_optimised/insertion_optimised.cpp:12-18 | the shift loop: the cells strictly greater than the saved value move up one place and it lands after the last cell not greater than it |
| InsertionSort.RecursiveInsertionSort | sorting/insertion_recursive/insertion_recursive.cpp:10-21 | a call with index `k >= 0` sorts `list[0..k]`; an index of at most 0 changes nothing; the list stays a permutation and the cells after `k` are untouched |
| InsertionSort.RecursiveSort | sorting/insertion_recursive/insertion_recursive.cpp:10-21 | called with the last index, the whole list ends sorted and a permutation of its old contents |
| SelectionSort.OuterBound | sorting/selection/selection.cpp:11 | `list.size() - 1` in 64-bit `size_t`: `n - 1` for a non-empty list |
| SelectionSort.EmptyListEntersLoop | sorting/selection/selection.cpp:11 | for an empty list the bound wraps to `2^64 - 1`, so the loop test `0 < size() - 1` holds and the loop is entered |
| SelectionSort.EmptyListSpins | sorting/selection/selection.cpp:11-20 | on an empty list each turn of the loop reads no cell and swaps nothing, since the inner scan ends at once with `minIndex == i`, while the outer test keeps holding for every `int` value of `i`, so the loop spins until `i` overflows |
| SelectionSort.ScanAsWritten | sorting/selection/selection.cpp:13-15 | the inner scan as written: when `j` starts at or past `size()` no cell is read and the scan returns `minIndex` unchanged |
| SelectionSort.SelectionSort | sorting/selection/selection.cpp:10-22 | the list ends sorted and a permutation of its old contents, for every length including 0 |
| SelectionSort.MinIndexFrom | sorting/selection/selection.cpp:12-15 | the index of the first minimum of `list[i..]` |
| SelectionSort.PlaceMinimum | sorting/selection/selection.cpp:16-20 | swapping the minimum into `i` extends the sorted prefix, every prefix cell stays at most every later cell, and the list stays a permutation |
| BubbleSort.BubbleSort | sorting/bubble.cpp:8-21 | the list ends sorted and a permutation of its old contents; an already sorted list is left unchanged |
| BubbleSort.OptimisedBubbleSort | sorting/bubble_optimised/bubble_optimised.cpp:10-25 | the list ends sorted and a permutation of its old contents; an already sorted list is left unchanged; the pass limit `n` drops by one per pass |
| BubbleSort.Pass | sorting/bubble.cpp:11-19 | one pass over `list[0..m)`: it permutes the list and leaves the cells from `m` on alone, puts one more cell in final position and the pass's maximum at `m - 1`; it swaps nothing exactly when that range was already sorted, and then changes nothing |
| BubbleSort.PassStep | sorting/bubble.cpp:13-18 | one comparison of the pass keeps the pass invariant |
| HeapSort.Parent | sorting/heap/heap.cpp:13 | the parent of child `c` is the `r` with `c == 2r + 1` or `c == 2r + 2` |
| HeapSort.RootIsMax | sorting/heap/heap.cpp:33-37 | in a max-heap over `list[0..n)` the root is at least every cell |
| HeapSort.HeapSort | sorting/heap/heap.cpp:28-42 | the list ends sorted and a permutation of its old contents |
| HeapSort.Heapify | sorting/heap/heap.cpp:30-31 | after the heapify loop the whole list is a max-heap and a permutation of its old contents |
| HeapSort.PlaceLargest | sorting/heap/heap.cpp:33-41 | one extraction moves the current maximum to `i`, so the suffix from `i` is in final position, and the prefix is a max-heap again |
| HeapSort.ExtractStep | sorting/heap/heap.cpp:35-37 | exchanging the root with cell `i` leaves a heap below the root and the suffix from `i` in final position |
| HeapSort.Sink | sorting/heap/heap.cpp:10-25 | when only `i` may violate the max-heap within `size`, sink restores it, permuting the list and leaving the cells from `size` on alone |
| HeapSort.SwapWithChild | sorting/heap/heap.cpp:18-22 | exchanging with the larger child moves the violation down to that child |
| Merging.Merge | sorting/merge/merge.cpp:17-38 | the merge of two runs, taking the left cell on ties; its length is the sum of theirs |
| Merging.MergeIsPermutation | sorting/merge/merge.cpp:17-38 | the merge holds exactly the cells of the two runs |
| Merging.MergeOfSorted | sorting/merge/merge.cpp:17-38 | merging two sorted runs gives a sorted run |
| Merging.LeftStep | sorting/merge/merge.cpp:19-21 | writing the left cell when it is not larger than the right one writes the next cell of the merge |
| Merging.RightStep | sorting/merge/merge.cpp:23-25 | writing the right cell when the left one is larger writes the next cell of the merge |
| Merging.MergeWritten | sorting/merge/merge.cpp:30-38 | once all cells are written both runs are used up, the range holds the merge and the rest of the list is untouched |
| Merging.RunsJoin | sorting/merge/merge.cpp:44-49 | a list whose cells before `j` form sorted runs of width `w` and whose cells from `j` do too is made of sorted runs of width `w` |
| MergeSort.MergeRuns | sorting/merge/merge.cpp:10-39 | merge(list, l, m, r): `list[l..r]` becomes the merge of the two old halves, nothing else changes, the list stays a permutation, and two sorted halves give a sorted range |
| MergeSort.MergeBack | sorting/merge/merge.cpp:17-38 | the three write loops put the merge of `L` and `R` into the range and touch nothing else |
| MergeSort.MergeWhileBoth | sorting/merge/merge.cpp:18-28 | the first loop writes the merge's prefix until one run is used up |
| MergeSort.DrainLeft | sorting/merge/merge.cpp:30-33 | the second loop uses up the left run |
| MergeSort.DrainRight | sorting/merge/merge.cpp:35-38 | the third loop uses up the right run |
| MergeSort.CopyRun | sorting/merge/merge.cpp:14-15 | the copy of a run into a fresh array |
| MergeSort.MergeDone | sorting/merge/merge.cpp:10-39 | writing the merge of two adjacent runs back permutes the list and sorts the range when both runs were sorted |
| MergeSort.MergeSort | sorting/merge/merge.cpp:42-50 | the list ends sorted and a permutation of its old contents, for every length including 0 and 1 |
| MergeSort.MergePass | sorting/merge/merge.cpp:45-49 | a pass over a list of sorted runs of width `i` leaves sorted runs of width `2i`, permuting the list |
| MergeSort.MergeNext | sorting/merge/merge.cpp:46-48 | one merge of the pass, with `mid` and `rightEnd` clipped to the last index, extends the merged prefix by `2i` |
| MergeSort.PassDone | sorting/merge/merge.cpp:45 | when `j` reaches the last index the whole list is made of runs of width `2i` |
| MergeSort.TwoRuns | sorting/merge/merge.cpp:46-47 | the two ranges the clipped `mid` and `rightEnd` delimit are sorted runs |
| RecursiveMergeSort.TopDown | sorting/merge_recursive/merge_recursive.cpp:24-30 | the top-down merge sort of a sequence, split at half its length; its length is the input's |
| RecursiveMergeSort.TopDownSorts | sorting/merge_recursive/merge_recursive.cpp:24-30 | the top-down merge sort returns a sorted permutation of its input |
| RecursiveMergeSort.RecursiveMergeSort | sorting/merge_recursive/merge_recursive.cpp:34-37 | the list becomes the top-down merge sort of its old contents, hence sorted and a permutation of them |
| RecursiveMergeSort.MergeSplit | sorting/merge_recursive/merge_recursive.cpp:24-31 | with the two lists agreeing on `l..r`, the target's range becomes the top-down sort of its old range, and neither list changes outside it, although the roles of the two lists swap at every level |
| RecursiveMergeSort.SplitDone | sorting/merge_recursive/merge_recursive.cpp:26-29 | sorting both halves into the other list and merging them back gives the top-down sort of the range |
| RecursiveMergeSort.MergeInto | sorting/merge_recursive/merge_recursive.cpp:10-21 | the target's range becomes the merge of the source's two halves, and nothing else of the target changes |
| RecursiveMergeSort.MergeLoop | sorting/merge_recursive/merge_recursive.cpp:12-20 | after the loop the whole range is written and both halves are used up |
| RecursiveMergeSort.WriteLeft | sorting/merge_recursive/merge_recursive.cpp:13-16 | taking the left cell while the right half is used up or its cell is larger writes the next cell of the merge |
| RecursiveMergeSort.WriteRight | sorting/merge_recursive/merge_recursive.cpp:17-20 | otherwise taking the right cell writes the next cell of the merge |
| QuickSort.ScanUpFrom | sorting/quick/quick.cpp:21 | the up scan stops at the first cell from `i` that is not smaller than the pivot, or past `hi`; every cell it passed is smaller |
| QuickSort.ScanDownFrom | sorting/quick/quick.cpp:22 | the down scan stops at the first cell from `j` down that is not larger than the pivot, or at `lo`; every cell it passed is larger |
| QuickSort.ScanUp | sorting/quick/quick.cpp:21 | the loop stops where the up scan says |
| QuickSort.ScanDown | sorting/quick/quick.cpp:22 | the loop stops where the down scan says |
| QuickSort.QuickSort | sorting/quick/quick.cpp:37-44 | the list ends sorted and a permutation of its old contents |
| QuickSort.PartitionAndSort | sorting/quick/quick.cpp:14-34 | the range `lo..hi` ends sorted and a permutation of its old cells, and nothing outside it changes |
| QuickSort.SortedAroundPivot | sorting/quick/quick.cpp:28-32 | sorting the two sides of a partitioned range sorts the range |
| QuickSort.Partition | sorting/quick/quick.cpp:16-28 | the old first cell lands at `j`, the cells before it are not larger and the cells after it not smaller, with the range permuted and the rest untouched |
| QuickSort.ExchangeLoop | sorting/quick/quick.cpp:20-25 | the loop ends with the scans met or crossed, every cell before `i` at most the pivot and every cell after `j` at least it |
| QuickSort.BothScans | sorting/quick/quick.cpp:21-23 | both scans keep the partition invariant |
| QuickSort.ExchangeStep | sorting/quick/quick.cpp:24 | exchanging the two cells the scans stopped at puts each on its own side |
| QuickSort.PivotPlaced | sorting/quick/quick.cpp:28 | exchanging the pivot with the cell where the down scan stopped puts it between the two sides |
| QuickSort.RoundAsWritten | sorting/quick/quick.cpp:20-25 | one round of the loop as written: it either breaks with the scans met or crossed and the list unchanged, or exchanges and leaves the scans no further apart |
| QuickSort.EqualKeysFixedPoint | sorting/quick/quick.cpp:20-25 | as written, a round whose scans rest on two cells equal to the pivot changes nothing and does not break |
| QuickSort.EqualKeysNeverBreak | sorting/quick/quick.cpp:20-25 | from such a state, no number of rounds as written reaches the `break` |
| QuickSort.ThreeEqualKeys | sorting/quick/quick.cpp:20-25 | on `[5, 5, 5]` the loop as written never breaks |
| CountingSort.FindMinMax | sorting/counting/counting.cpp:10-19 | the smallest and largest cells, both attained; `INT_MAX` and `INT_MIN` for an empty list |
| CountingSort.Offset | sorting/counting/counting.cpp:24 | the shift that takes the smallest value to 0 or above; 0 when no value is negative |
| CountingSort.CountsLength | sorting/counting/counting.cpp:25-27 | the size `k + 1` of the counts vector; every shifted value is a valid index in it |
| CountingSort.EmptyListCountsLength | sorting/counting/counting.cpp:23-27 | for an empty list `k + 1` is `INT_MIN + 1`, a negative size for `vector<int> counts(k + 1)` |
| CountingSort.LessStep | sorting/counting/counting.cpp:30-31 | the running sum: cells below `x + 1` are cells below `x` plus the copies of `x` |
| CountingSort.OccMultiset | sorting/counting/counting.cpp:28-29 | the count of `x` is its multiplicity |
| CountingSort.CountingSort | sorting/counting/counting.cpp:22-38 | the list ends sorted and a permutation of its old contents; an empty list is left alone |
| CountingSort.CountValues | sorting/counting/counting.cpp:27-29 | count `c` is the number of copies of `c - offset` |
| CountingSort.Accumulate | sorting/counting/counting.cpp:30-31 | after the prefix sums count `c` is the number of cells below `c - offset + 1` |
| CountingSort.Place | sorting/counting/counting.cpp:33-35 | the backward placement writes each value into its own block of positions, leaving count `c` at the number of cells below `c - offset` |
| CountingSort.PlaceOne | sorting/counting/counting.cpp:35 | one placement keeps the placement invariant for the cells still to place |
| CountingSort.PlaceSlot | sorting/counting/counting.cpp:35 | the position a cell is placed at lies inside its value's block |
| CountingSort.CopyBack | sorting/counting/counting.cpp:37 | `list = sorted` copies every cell |
| CountingSort.CountingResult | sorting/counting/counting.cpp:33-37 | a list filled block by block is sorted and a permutation of the input |
| LongestCommonSubsequence.LcsSteps | dynamic_programming/longest_common_subsequence.cpp:8-10 | dropping the first character of either suffix lowers the LCS length by at most one and never raises it |
| LongestCommonSubsequence.LcsIsUpperBound | dynamic_programming/longest_common_subsequence.cpp:6-13 | no common subsequence of the two suffixes is longer than the recurrence's value |
| LongestCommonSubsequence.SubSkip | dynamic_programming/longest_common_subsequence.cpp:19-20 | a subsequence stays one when a character is appended to the string |
| LongestCommonSubsequence.SubTake | dynamic_programming/longest_common_subsequence.cpp:18 | appending the same character to both keeps a subsequence |
| LongestCommonSubsequence.Lcs | dynamic_programming/longest_common_subsequence.cpp:6-13 | lcs returns the LCS length of the two suffixes, stores it in the memo, keeps every filled cell correct, and leaves earlier filled cells and cells above or left of `(i1, i2)` alone |
| LongestCommonSubsequence.Fill | dynamic_programming/longest_common_subsequence.cpp:8-10 | storing a value in one cell changes only that cell and keeps the memo's invariant |
| LongestCommonSubsequence.Backtrack | dynamic_programming/longest_common_subsequence.cpp:15-22 | the walk through the filled memo builds a common subsequence of the two strings whose length is the LCS length |
| LongestCommonSubsequence.SubExtend | dynamic_programming/longest_common_subsequence.cpp:17-20 | one step of the walk keeps `result` a subsequence of the prefix consumed so far |
| LongestCommonSubsequence.LongestCommonSubsequence | dynamic_programming/longest_common_subsequence.cpp:28-31 | the length and the string main prints: a common subsequence of that length, and no common subsequence is longer |
| NeedlemanWunsch.Max3 | dynamic_programming/needleman_wunsch.cpp:33 | `max({diagonal, up, left})`: one of the three and at least each |
| NeedlemanWunsch.Top | dynamic_programming/needleman_wunsch.cpp:44-53 | the first aligned line, with `-` for a gap, one character per column |
| NeedlemanWunsch.Bottom | dynamic_programming/needleman_wunsch.cpp:45-54 | the second aligned line, one character per column |
| NeedlemanWunsch.Borders | dynamic_programming/needleman_wunsch.cpp:14-19 | the first column and row are multiples of the gap penalty |
| NeedlemanWunsch.FillMatrix | dynamic_programming/needleman_wunsch.cpp:11-35 | the matrix is `(|s1|+1) x (|s2|+1)` and every cell holds the recurrence's score of the two prefixes |
| NeedlemanWunsch.FillRow | dynamic_programming/needleman_wunsch.cpp:23-34 | after row `i` every cell of rows `0..i` holds its score |
| NeedlemanWunsch.FillCell | dynamic_programming/needleman_wunsch.cpp:24-33 | the cell gets the best of diagonal, up and left, and no other cell changes |
| NeedlemanWunsch.Traceback | dynamic_programming/needleman_wunsch.cpp:38-57 | the traceback yields the two lines of an alignment of the two strings whose score is the corner cell |
| NeedlemanWunsch.TraceStep | dynamic_programming/needleman_wunsch.cpp:43-56 | the branch taken names a column that consumes the right characters and accounts for the cell's score from the cell it moves to |
| NeedlemanWunsch.TakeColumn | dynamic_programming/needleman_wunsch.cpp:44-55 | prepending the column's characters to both lines prepends the column to the alignment of the remaining suffixes |
| NeedlemanWunsch.NeedlemanWunsch | dynamic_programming/needleman_wunsch.cpp:9-60 | two lines of one length spelling an alignment of the two strings that scores the corner cell, and no alignment of them scores more |
| NeedlemanWunsch.CellIsBest | dynamic_programming/needleman_wunsch.cpp:22-35 | every alignment of two prefixes scores at most their cell |
| NeedlemanWunsch.LastColumn | dynamic_programming/needleman_wunsch.cpp:30-33 | an alignment of two prefixes splits into an alignment of shorter prefixes and a last column, scoring their sum |
| NeedlemanWunsch.CellCovers | dynamic_programming/needleman_wunsch.cpp:30-33 | every last column's option is at most the cell |
| NeedlemanWunsch.ScoreConcat | dynamic_programming/needleman_wunsch.cpp:43-56 | an alignment's score is additive over its columns |
| NeedlemanWunsch.Strip | dynamic_programming/needleman_wunsch.cpp:50-53 | a line with its gap characters removed, which holds no `-` |
| NeedlemanWunsch.StripLines | dynamic_programming/needleman_wunsch.cpp:44-54 | removing the gaps from the two lines gives back the aligned characters of each string |
| NeedlemanWunsch.NoDoubleGap | dynamic_programming/needleman_wunsch.cpp:43-56 | no column has a gap in both lines |
| Knapsack.Knapsack | 01_knapsack_dp.cpp:7-18 | the last cell of the table, the value of some set of items whose weight fits the capacity; with positive weights no fitting set is worth more |
| Knapsack.FillRow | 01_knapsack_dp.cpp:11-15 | after row `i` every cell of rows `0..i` holds the recurrence's value, and column 0 stays 0 |
| Knapsack.TableGrows | 01_knapsack_dp.cpp:12-14 | a row is at least the row above, and equal to it when the item does not fit |
| Knapsack.TableZero | 01_knapsack_dp.cpp:9 | capacity 0 is worth 0 |
| Knapsack.Extend | 01_knapsack_dp.cpp:12-14 | weight and value are additive over the chosen items |
| Knapsack.TableIsBest | 01_knapsack_dp.cpp:10-16 | with positive weights no set of the first `i` items that fits `j` is worth more than cell `(i, j)` |
| Knapsack.Achieved | 01_knapsack_dp.cpp:10-16 | some set of the first `i` items that fits `j` is worth exactly cell `(i, j)` |
| Knapsack.WeightlessItemMissed | 01_knapsack_dp.cpp:9-11 | with a weightless item the table misses the best set: values 5 and 3 with weights 0 and 1 fit capacity 1 together, worth 8, but the last cell is 5 |
| Knapsack.KnapsackFixed | 01_knapsack_dp.cpp:7-18 | with every row filled from capacity 0, the result is the value of some set of items whose weight fits the capacity, and no fitting set is worth more, whatever the weights |
| Knapsack.FillFullRow | 01_knapsack_dp.cpp:11-15 | after row `i` is filled from capacity 0, every cell of rows `0..i` holds the corrected recurrence's value |
| Knapsack.FullTableIsBest | 01_knapsack_dp.cpp:10-16 | no set of the first `i` items that fits `j` is worth more than the corrected cell `(i, j)`, for any weights |
| Knapsack.FullAchieved | 01_knapsack_dp.cpp:10-16 | some set of the first `i` items that fits `j` is worth exactly the corrected cell `(i, j)` |
| CoinGame.ParitySumLeft | dynamic_programming/alternating_coin_game.cpp:1-7 | the sum of the coins of one position parity, taken from the left |
| CoinGame.EvenRowGuarantee | dynamic_programming/alternating_coin_game.cpp:17-33 | on a row of even length the first player scores at least the coins on either end's parity |
| CoinGame.TakeLeftPlan | dynamic_programming/alternating_coin_game.cpp:21 | taking the left coin secures the left end's parity |
| CoinGame.TakeRightPlan | dynamic_programming/alternating_coin_game.cpp:21 | taking the right coin secures the right end's parity |
| CoinGame.Player1 | dynamic_programming/alternating_coin_game.cpp:17-24 | player_1 returns the first player's best total on `i..j` with the first player to move, 0 for an empty or out-of-range row, and fills the memo consistently |
| CoinGame.Player2 | dynamic_programming/alternating_coin_game.cpp:26-33 | player_2 returns the first player's total on `i..j` with the second player to move and minimising, and fills the memo consistently |
| CoinGame.Store1 | dynamic_programming/alternating_coin_game.cpp:20-21 | storing a first-player value changes one entry and keeps the memo's invariant |
| CoinGame.Store2 | dynamic_programming/alternating_coin_game.cpp:29-30 | storing a second-player value changes one entry and keeps the memo's invariant |
| CoinGame.PlayGame | dynamic_programming/alternating_coin_game.cpp:53-58 | main: the score is player_1 over the whole row, the moves alternate 1, 2, 1, …, take every coin from the two ends, and the first player's coins add up to the score |
| CoinGame.LeftsSnoc | dynamic_programming/alternating_coin_game.cpp:40-44 | one more left take counts one more |
| CoinGame.TakenSnoc | dynamic_programming/alternating_coin_game.cpp:40-44 | one more move takes the next coin from the end it names |
| CoinGame.Backtrack | dynamic_programming/alternating_coin_game.cpp:35-47 | after player_1 has filled the memo, one move per coin, alternating players, taken from the ends, with the first player's coins totalling player_1's value |
| CoinGame.ReplayStep | dynamic_programming/alternating_coin_game.cpp:38-45 | one step of the backtrack keeps the replay invariant |
| CoinGame.ValueStep | dynamic_programming/alternating_coin_game.cpp:39-44 | the move the memo picks keeps the first player's running total on target |
| CoinGame.MovesSnoc | dynamic_programming/alternating_coin_game.cpp:40-44 | appending a move appends its coin and adds it to the total when it is player 1's |
| CoinGame.ReplayEnd | dynamic_programming/alternating_coin_game.cpp:46 | when the row is empty the moves cover every coin and total the score |
| CoinGame.Move | dynamic_programming/alternating_coin_game.cpp:39-45 | the move the memo test picks is an optimal one: its coin plus the rest of the game equals the value of the position |
| LongestIncreasingSubsequence.UptoCovers | dynamic_programming/longest_increasing_subsequence.cpp:11-17 | the loop's best covers every later position's value |
| LongestIncreasingSubsequence.LisPositive | dynamic_programming/longest_increasing_subsequence.cpp:10 | every position starts an increasing subsequence of length at least 1 |
| LongestIncreasingSubsequence.LisIsUpperBound | dynamic_programming/longest_increasing_subsequence.cpp:7-20 | no strictly increasing subsequence starting at a position is longer than that position's value |
| LongestIncreasingSubsequence.Lis | dynamic_programming/longest_increasing_subsequence.cpp:7-20 | lis returns the longest strictly increasing subsequence length from `i`, 0 past the end, stores it with a child that continues such a subsequence, and leaves earlier entries alone |
| LongestIncreasingSubsequence.FirstMaximum | dynamic_programming/longest_increasing_subsequence.cpp:24-25 | the first index holding the largest memo entry |
| LongestIncreasingSubsequence.Backtrack | dynamic_programming/longest_increasing_subsequence.cpp:22-31 | following the children from the first maximum yields the values of a strictly increasing subsequence that no increasing subsequence outgrows |
| LongestIncreasingSubsequence.FollowStep | dynamic_programming/longest_increasing_subsequence.cpp:26-29 | one step of the walk appends the current value and moves to a later index |
| LongestIncreasingSubsequence.LongestIncreasing | dynamic_programming/longest_increasing_subsequence.cpp:36-42 | main on a non-empty input: a longest strictly increasing subsequence |
| SubarraySums.SumSplit | max_subarray.cpp:11-28 | a range's sum splits at any inner point |
| SubarraySums.BestLeftBound | max_subarray.cpp:11-17 | no sum ending at `mid` and starting in range beats the best left sum |
| SubarraySums.BestRightBound | max_subarray.cpp:22-28 | no sum starting at `mid + 1` and ending in range beats the best right sum |
| SubarraySums.CrossingBound | max_subarray.cpp:7-31 | no subarray across the pivot beats the best left plus best right sum |
| SubarraySums.Combine | max_subarray.cpp:44-46 | the largest of the two halves' best and the crossing best bounds every subarray of the range |
| MaxSubarray.MaxCrossingSubArray | max_subarray.cpp:7-31 | the answer spans the pivot, holds its own sum, and that sum is the best left part plus the best right part |
| MaxSubarray.MaxSubArray | max_subarray.cpp:35-47 | a subarray of `low..high` whose reported value is its sum and at least every subarray's sum; a single cell is its own answer |
| DivideAndConquerSubarray.Across | divide_and_conquest/maximum_subarray.cpp:8-26 | the crossing answer with both best sums started at the floor: each side is the larger of its best sum and the floor, and the answer is a real subarray's sum when both best sums beat the floor |
| DivideAndConquerSubarray.Daq | divide_and_conquest/maximum_subarray.cpp:28-37 | the reported value bounds every subarray's sum and is at least twice the floor on two cells or more; when every sum beats the floor it is the sum of the reported subarray |
| DivideAndConquerSubarray.Achieves | divide_and_conquest/maximum_subarray.cpp:34-36 | the answer chosen among left, right and crossing holds its own sum when every sum beats the floor |
| DivideAndConquerSubarray.AboveSplit | divide_and_conquest/maximum_subarray.cpp:30-33 | sums above the floor in a range are above it in both halves and across the pivot |
| DivideAndConquerSubarray.NinfCounterexample | divide_and_conquest/maximum_subarray.cpp:6-25 | on `[-3e8, -3e8]` daq reports at least `-2e8`, more than every subarray's sum, so no subarray has the value it reports |
| DivideAndConquerSubarray.Floor | divide_and_conquest/maximum_subarray.cpp:6 | a start value below zero and below every sum of the range |
| DivideAndConquerSubarray.FloorBelow | divide_and_conquest/maximum_subarray.cpp:6 | the start value is below every sum inside its range |
| DivideAndConquerSubarray.DaqBelowEverySum | divide_and_conquest/maximum_subarray.cpp:28-37 | with the start value below every sum, daq returns a largest-sum subarray |
| DivideAndConquerSubarray.DaqWithNinf | divide_and_conquest/maximum_subarray.cpp:28-42 | daq with NINF bounds every sum, and returns a largest-sum subarray whenever every sum exceeds NINF |
| Huffman.BuildHuffmanTree | huffman_coding.cpp:25-43 | every character of the non-empty string is at exactly one leaf, each node's frequency is the count of the characters below it, and the root's is the string's length |
| Huffman.CountFrequencies | huffman_coding.cpp:27-28 | the map has a key for each character of the string, holding its count |
| Huffman.PushLeaves | huffman_coding.cpp:30-32 | one leaf per key, holding its count |
| Huffman.MergeLeast | huffman_coding.cpp:34-42 | merging the two least frequent trees until one is left keeps the leaves and the frequency invariant |
| Huffman.MergeStep | huffman_coding.cpp:35-39 | one merge keeps the forest's leaves and invariant |
| Huffman.PopMin | huffman_coding.cpp:35-38 | top and pop give a tree of least frequency and leave the rest of the forest |
| Huffman.FreqIsWeight | huffman_coding.cpp:39 | a tree's frequency is the total count of its leaves' characters |
| Huffman.WeightOfAll | huffman_coding.cpp:25-43 | the counts of the string's distinct characters add up to its length |
| Huffman.SingleCharacter | huffman_coding.cpp:31-42 | a string of one distinct character gives a single leaf, whose code is empty |
| Huffman.GetEncodings | huffman_coding.cpp:46-52 | the map becomes the old one with the codes of the leaves below `node` written over it, where a '.' node is never a leaf |
| Huffman.CodesKeys | huffman_coding.cpp:47 | the codes getEncodings writes are those of the leaf characters other than '.' |
| Huffman.GetEncodingsFixed | huffman_coding.cpp:46-52 | with the leaf test on the children, the map gets the code of every leaf |
| Huffman.LeafCodesKeys | huffman_coding.cpp:46-52 | the corrected codes cover every leaf character |
| Huffman.CodesAgree | huffman_coding.cpp:46-52 | without a '.' in the string both leaf tests give the same codes |
| Huffman.CodeExtends | huffman_coding.cpp:49-50 | a code extends the path it was accumulated on, strictly below an internal node |
| Huffman.CodeIsPath | huffman_coding.cpp:49-50 | walking a leaf's code from the root ('1' left, '0' right) reaches that leaf |
| Huffman.LeafCodesPrefixFree | huffman_coding.cpp:46-52 | no code is a prefix of another character's code |
| Huffman.DecodeEncode | huffman_coding.cpp:61-65 | decoding the encoding of a text over the leaf characters gives the text back, for a tree of two leaves or more |
| Huffman.EncodeSnoc | huffman_coding.cpp:63 | the encoding of one more character appends its code |
| Huffman.GetEncodedString | huffman_coding.cpp:61-65 | the encoded string is the characters' codes in order; the table gains an empty code for each character it lacked |
| Huffman.EncodeOneCode | huffman_coding.cpp:61-65 | with a single empty code the encoding is empty |
| Huffman.HuffmanEncode | huffman_coding.cpp:67-79 | without '.' in the string, prefix-free codes for exactly its characters and an encoding that decodes back when it has two distinct characters; one distinct character gives the empty code and an empty encoding |
| Huffman.IntendedCodes | huffman_coding.cpp:46-65 | the leaf codes of the built tree are prefix-free, cover the string's characters and decode its encoding back |
| Huffman.HuffmanEncodeFixed | huffman_coding.cpp:67-79 | with the corrected leaf test the same promises hold whether or not the string has a '.' |
| Huffman.DotCounterexample | huffman_coding.cpp:47 | on "a." the '.' gets no code and the encoding equals that of "a" |
| Huffman.DotLost | huffman_coding.cpp:46-63 | a '.' leaf gets no code, so it encodes to nothing |
| ThreeSum.Wrap | princeton_algs_1/3sum_analysis/Test_2.java:16 | the Java `int` value of a sum; the sum itself when it fits |
| ThreeSum.Count | princeton_algs_1/3sum_analysis/Test_2.java:7-24 | the array ends sorted and a permutation of its old contents, and the count is the two-pointer scan's count over the sorted values |
| ThreeSum.CountSorted | princeton_algs_1/3sum_analysis/Test_2.java:13-21 | the loops count what the two-pointer scan counts; fewer than three cells count 0 |
| ThreeSum.ScanCounts | princeton_algs_1/3sum_analysis/Test_2.java:15-20 | on sorted distinct values that do not overflow, one scan counts the zero-sum pairs with cell `i` |
| ThreeSum.PairsAtZero | princeton_algs_1/3sum_analysis/Test_2.java:17-18 | at a zero sum with distinct values no other pair with `j` sums to zero, so moving `j` up misses nothing |
| ThreeSum.PairsBelow | princeton_algs_1/3sum_analysis/Test_2.java:18 | below zero `j` pairs with no cell up to `k` |
| ThreeSum.PairsAbove | princeton_algs_1/3sum_analysis/Test_2.java:19 | above zero `k` pairs with no cell from `j` |
| ThreeSum.TwoPointerCounts | princeton_algs_1/3sum_analysis/Test_2.java:13-21 | on sorted distinct values that do not overflow, the scan counts every zero-sum triple |
| ThreeSum.CountDistinct | princeton_algs_1/3sum_analysis/Test_2.java:7-24 | for distinct inputs that do not overflow, count is the number of zero-sum index triples of the sorted array |
| ThreeSum.RepeatedValuesUndercount | princeton_algs_1/3sum_analysis/Test_2.java:17-18 | on `[-2, 1, 1, 1]` three triples sum to zero but the scan counts two |
| ThreeSum.RunIsRow | princeton_algs_1/3sum_analysis/Test_2.java:17 | the run of cells equal to cell `k` counts the zero-sum pairs of `j` with them |
| ThreeSum.ScanAllCounts | princeton_algs_1/3sum_analysis/Test_2.java:15-20 | on sorted values that do not overflow, the corrected scan counts every zero-sum pair with cell `i` |
| ThreeSum.TwoPointerAllCounts | princeton_algs_1/3sum_analysis/Test_2.java:13-21 | the corrected scan counts every zero-sum triple |
| ThreeSum.RunLength | princeton_algs_1/3sum_analysis/Test_2.java:17 | the loop counts the run of cells equal to cell `k` down to `j` |
| ThreeSum.CountAll | princeton_algs_1/3sum_analysis/Test_2.java:7-24 | the corrected count sorts the array and, without overflow, counts every zero-sum index triple |
| ThreeSum.CountAllSorted | princeton_algs_1/3sum_analysis/Test_2.java:13-21 | the corrected loops count what the corrected scan counts |
| ThreeSum.ScanAllRound | princeton_algs_1/3sum_analysis/Test_2.java:14-20 | one round of the corrected pointers counts the corrected scan of cell `i` |
| Kosaraju.ClosedReach | graphs/kosaraju.cpp:13-19 | a set closed under successors outside the avoided nodes holds everything reached from its members |
| Kosaraju.ReachThrough | graphs/kosaraju.cpp:15-17 | what a successor reaches through visited nodes, its parent reaches too |
| Kosaraju.ExploreChild | graphs/kosaraju.cpp:15-17 | a finished search from an unvisited successor carries the search from `node` one successor further |
| Kosaraju.ExploreEnd | graphs/kosaraju.cpp:13-19 | once every successor is done, the search from `node` has visited exactly what `node` reaches through unvisited nodes |
| Kosaraju.StackBuilderDfs | graphs/kosaraju.cpp:13-19 | stackBuilderDFS visits exactly the nodes reached from `node` through unvisited nodes, leaves every successor of a visited node visited, and pushes each new node once with `node` last |
| Kosaraju.SccFinderDfs | graphs/kosaraju.cpp:22-28 | sccFinderDFS collects exactly the unvisited nodes reached from `node` in the transpose, and marks them visited |
| Kosaraju.TransposeGraph | graphs/kosaraju.cpp:31-39 | `u` is a successor of `v` in the transpose exactly when `v` is a successor of `u` in the graph; the transpose's keys are the graph's destinations |
| Kosaraju.InsertSource | graphs/kosaraju.cpp:35-36 | the inner loop adds `u` to `T[v]` for every destination `v`, creating missing entries |
| Kosaraju.TransposeNodes | graphs/kosaraju.cpp:31-39 | the nodes of the transpose are nodes of the graph |
| Kosaraju.FinishOrder | graphs/kosaraju.cpp:74-76 | the first loop of main puts every node of the graph on the stack exactly once |
| Kosaraju.DisjointFromUnion | graphs/kosaraju.cpp:81-89 | a set disjoint from the union of the components is disjoint from each of them |
| Kosaraju.CollectSkip | graphs/kosaraju.cpp:85 | popping an already visited node keeps the components' invariant |
| Kosaraju.CollectNew | graphs/kosaraju.cpp:85-88 | popping an unvisited node and collecting its search adds one component, keeping the partition |
| Kosaraju.CollectComponents | graphs/kosaraju.cpp:81-89 | the second loop of main: the components partition the stacked nodes, each exactly the nodes reached in the transpose from its start node through nodes of no earlier component |
| Kosaraju.StronglyConnectedComponents | graphs/kosaraju.cpp:64-89 | the components main collects partition the nodes of the graph |
| DagRelaxation.WithKeys | graphs/dag_relaxation.cpp:85 | the graph after operator[] has added `keys` as keys: the same edges out of every node, new keys with none |
| DagRelaxation.RankDrops | graphs/dag_relaxation.cpp:21-36 | along a walk of a ranked graph the rank strictly drops |
| DagRelaxation.RankedAcyclic | graphs/dag_relaxation.cpp:38-50 | a graph that a finishing order ranks has no cycle |
| DagRelaxation.CycleFound | graphs/dag_relaxation.cpp:23-25 | an edge from the end of the current path back onto it closes a cycle, so returning false is right |
| DagRelaxation.SearchPush | graphs/dag_relaxation.cpp:26-29 | stepping to an unseen destination keeps the search invariant with the destination on the path |
| DagRelaxation.SearchPop | graphs/dag_relaxation.cpp:34-35 | finishing the last node of the path gives it the next rank and keeps the search invariant |
| DagRelaxation.SuccInNodes | graphs/dag_relaxation.cpp:22 | a destination of an edge is a node of the graph |
| DagRelaxation.DagCheckerDfs | graphs/dag_relaxation.cpp:21-36 | false only when the graph has a cycle; true leaves `source` off the path and ranked below everything it reaches, with `dag[source]` having added at most nodes of the graph as keys |
| DagRelaxation.CheckIsDag | graphs/dag_relaxation.cpp:38-50 | true exactly when the graph has no cycle; then every node of the graph is a key and a rank orders every edge; the edges never change |
| DagRelaxation.WalkThroughKeys | graphs/dag_relaxation.cpp:85 | a walk continues only from nodes with edges |
| DagRelaxation.WalkExtend | graphs/dag_relaxation.cpp:87-88 | a walk extends by an edge out of its end, adding its weight |
| DagRelaxation.Initialise | graphs/dag_relaxation.cpp:70-76 | every key at INT_MAX, then the source at 0 |
| DagRelaxation.Touch | graphs/dag_relaxation.cpp:87 | `distances[v]` adds a missing `v` at 0 and changes nothing else |
| DagRelaxation.ReachedWalk | graphs/dag_relaxation.cpp:81-92 | a queued node's distance is the weight of a walk from the source |
| DagRelaxation.PopStep | graphs/dag_relaxation.cpp:82-85 | taking the front node off the queue and adding it as a key starts the scan of its edges |
| DagRelaxation.TouchStep | graphs/dag_relaxation.cpp:87 | adding a missing destination at 0 keeps the loop's invariant |
| DagRelaxation.KeepStep | graphs/dag_relaxation.cpp:87 | an edge that does not lower its destination is relaxed already |
| DagRelaxation.LowerStep | graphs/dag_relaxation.cpp:87-90 | lowering the destination and queueing it keeps the loop's invariant |
| DagRelaxation.LowerSound | graphs/dag_relaxation.cpp:88 | a lowered distance is still a walk's weight and distances only drop |
| DagRelaxation.Relaxation | graphs/dag_relaxation.cpp:78-92 | on a ranked graph the loop ends with every moved distance a walk's weight, distances only dropped, and no edge out of a reached node violating the triangle inequality; the reached nodes become keys |
| DagRelaxation.ScanEdges | graphs/dag_relaxation.cpp:85-91 | scanning every edge out of `u` leaves them relaxed and the queue's weight below what it was with `u` at the front |
| DagRelaxation.RelaxEdge | graphs/dag_relaxation.cpp:87-90 | one edge: the destination drops to `distances[u] + w` and is queued when that is smaller; the edge is relaxed afterwards and the queue grows by at most the destination's weight |
| DagRelaxation.FindShortestPaths | graphs/dag_relaxation.cpp:67-95 | the relaxed distances from INT_MAX on the keys; when every destination is a key they are the shortest walk weights, and unreached nodes stay at INT_MAX |
| DagRelaxation.RelaxedShortest | graphs/dag_relaxation.cpp:67-95 | relaxation from INT_MAX on every node gives the shortest walk weight of each reached node and INT_MAX for the others |
| DagRelaxation.PrefixBound | graphs/dag_relaxation.cpp:87-90 | along any walk from the source each prefix ends at a node whose distance is at most the prefix's weight |
| DagRelaxation.FindShortestPathsFixed | graphs/dag_relaxation.cpp:67-95 | with every node of the graph, destinations included, started at INT_MAX, the distances are the shortest walk weights |
| DagRelaxation.SinkReadsZero | graphs/dag_relaxation.cpp:71-88 | called directly on the single edge 1 -> 2 of weight 5, where node 2 is not a key, `distances[2]` reads 0 and node 2 keeps distance 0 although its only walk weighs 5 |
| DagRelaxation.SameEdges | graphs/dag_relaxation.cpp:22 | the keys `dag[destination]` adds carry no edges, so the nodes and every node's successors stay the same |
| DagRelaxation.SameEdgesShortest | graphs/dag_relaxation.cpp:67-95 | shortest distances for the keyed map are shortest distances for the original graph |
| DagRelaxation.ShortestPathsAsMain | graphs/dag_relaxation.cpp:104-121 | main: "Not a DAG" exactly when the graph has a cycle, "Source not in DAG" exactly when the source is no node of an acyclic graph, and otherwise the shortest walk weights from the source, since check_is_dag has made every destination a key |
| Johnson.Put | graphs/johnson.cpp:32 | writing one vertex's entry for one root changes that entry and no other |
| Johnson.PutPresent | graphs/johnson.cpp:27-32 | writing back the entry a read returned changes nothing when the entry exists |
| Johnson.Relax | graphs/johnson.cpp:26-37 | relax_edge: true only when the source is reached, and then the destination's entry is the source's distance plus the weight with the source as parent; no root's entry is ever lost |
| Johnson.RelaxUnreached | graphs/johnson.cpp:27-29 | with an unreached source nothing changes and the result is false |
| Johnson.RelaxReached | graphs/johnson.cpp:31-36 | with a reached source the edge relaxes exactly when the destination is unreached or further than the source plus the weight; relaxing rewrites only the destination's entry, otherwise nothing changes |
| Johnson.RelaxQuiet | graphs/johnson.cpp:36 | an edge that does not relax changes nothing |
| Johnson.RelaxEdge | graphs/johnson.cpp:26-37 | the result and vertex vector relax_edge leaves |
| Johnson.GrowsSettled | graphs/johnson.cpp:26-37 | relaxation keeps every vertex's entry for the root |
| Johnson.PassFrom | graphs/johnson.cpp:45-49 | one pass of relax_edge over the edges in order, and whether any relaxed; entries are never lost |
| Johnson.CheckFrom | graphs/johnson.cpp:57-63 | the check pass, stopping with false at the first edge that relaxes; entries are never lost |
| Johnson.Passes | graphs/johnson.cpp:42-54 | up to `n` passes, stopping after a quiet one |
| Johnson.CheckIsPass | graphs/johnson.cpp:57-63 | the check pass returns false exactly when a full pass would relax some edge |
| Johnson.QuietPass | graphs/johnson.cpp:51-53 | a pass that relaxes nothing changes nothing |
| Johnson.RepeatQuiet | graphs/johnson.cpp:51-53 | passes after a quiet one change nothing |
| Johnson.EarlyStop | graphs/johnson.cpp:42-54 | stopping after a quiet pass gives what running every pass gives |
| Johnson.CheckFeasible | graphs/johnson.cpp:57-63 | a check pass that returns true changes nothing, and then every edge out of a reached vertex is tight |
| Johnson.RelaxAll | graphs/johnson.cpp:43-49 | the loop computes one pass and whether it relaxed anything |
| Johnson.CheckPass | graphs/johnson.cpp:57-63 | the loop computes the check pass |
| Johnson.BellmanFord | graphs/johnson.cpp:40-64 | `vertices.size() - 1` passes with the early stop, then the check; false exactly when one more full pass would still relax an edge, true leaving every edge tight |
| Johnson.Shape | graphs/johnson.cpp:96-97 | the edges of each vertex and its parent for the root: what the rewrite reads |
| Johnson.UnderDepth | graphs/johnson.cpp:94-101 | a vertex below `my` in the parent tree is deeper than `my` and below exactly one child of it |
| Johnson.UnderChild | graphs/johnson.cpp:97-98 | the vertices under a child are those under `my` through that child, and carry the same weight from it |
| Johnson.WithDist | graphs/johnson.cpp:95 | setting a vertex's distance for the root keeps its parent, edges and keys |
| Johnson.StepAt | graphs/johnson.cpp:96-99 | the edge to `dest` settles exactly the vertices under `dest` when `my` is its parent |
| Johnson.ChildStep | graphs/johnson.cpp:98 | the recursion on one child leaves each vertex as the staged rewrite says |
| Johnson.WithDistShape | graphs/johnson.cpp:95 | setting one distance keeps the tree of parent links |
| Johnson.RecalculatePathWeights | graphs/johnson.cpp:94-101 | every vertex under `my` in the parent tree ends with `carry` plus the edge weights down the tree to it; every other vertex, every parent and every edge is untouched |
| Johnson.VisitEdge | graphs/johnson.cpp:96-99 | one turn of the loop over `my`'s edges recurses exactly on the children of `my` |
| KDTree.OrderedAxesBelow | geometry/kd_tree.py:32 | in an ordered tree every node's axis is below the dimension, so every coordinate access is in range |
| KDTree.OrderedDims | geometry/kd_tree.py:14-17 | every point of an ordered tree has the tree's dimension |
| KDTree.InsertOn | geometry/kd_tree.py:33 | inserting a point into a run sorted on one axis keeps its points and adds one |
| KDTree.SortOn | geometry/kd_tree.py:33 | `sorted(points, key = p[axis])`: a permutation of the points |
| KDTree.InsertOnSorted | geometry/kd_tree.py:33 | inserting into a run sorted on the axis keeps it sorted |
| KDTree.SortOnSorted | geometry/kd_tree.py:33 | the sort is ordered on the axis |
| KDTree.MedianSplits | geometry/kd_tree.py:35-40 | the points before the median are not above it on the axis, those after not below |
| KDTree.Split | geometry/kd_tree.py:33-40 | the median and the two halves: together a permutation of the points, the lower half `n // 2` points not above the median on the axis, the upper half the rest not below it |
| KDTree.Build | geometry/kd_tree.py:28-42 | `_build_kd_tree`: empty exactly for no points |
| KDTree.BuildPoints | geometry/kd_tree.py:28-42 | the tree holds exactly the given points, `n // 2` on the left of the root and the rest but one on the right |
| KDTree.BuildOrdered | geometry/kd_tree.py:28-42 | every node splits its subtree on axis `depth % k`: left points not above its coordinate, right points not below |
| KDTree.DistSq | geometry/kd_tree.py:44-45 | the squared distance, never negative |
| KDTree.SquareMono | geometry/kd_tree.py:68 | squaring is monotone on non-negative numbers, which is what lets the squared gap stand for the gap |
| KDTree.DistSqAtLeastAxis | geometry/kd_tree.py:68 | the squared distance is at least the square of the gap on one axis |
| KDTree.Nearest | geometry/kd_tree.py:47-71 | `_nearest_neighbour`: an answer exactly when there was a best or a node |
| KDTree.Closer | geometry/kd_tree.py:55-58 | the current point replaces the best only when strictly closer |
| KDTree.NearestFrom | geometry/kd_tree.py:47-71 | the answer is the best so far or a point of the subtree |
| KDTree.NearestIsNearest | geometry/kd_tree.py:47-71 | the answer is no farther than the best so far and than every point of the subtree |
| KDTree.NearestExplored | geometry/kd_tree.py:67-69 | when the other branch is searched, the answer beats every point of both branches |
| KDTree.NearestPruned | geometry/kd_tree.py:68 | when the other branch is skipped, none of its points is closer: they all lie beyond the splitting plane |
| KDTree.FarIsFar | geometry/kd_tree.py:68 | a point within the plane's gap beats every point on the far side |
| KDTree.BeyondPlane | geometry/kd_tree.py:60-68 | a point on the far side of the plane is at least the plane's gap away |
| KDTree.WithinOrth | geometry/kd_tree.py:77-82 | the loop answers whether the point is inside the box, bounds included |
| KDTree.PointsInOrthotopeFrom | geometry/kd_tree.py:73-91 | the points appended are exactly the subtree's points inside the box, in tree order; the pruning loses none |
| KDTree.InBoxPointsAppend | geometry/kd_tree.py:84-91 | the points in the box of a concatenation are those of each part, in order |
| KDTree.InBoxPointsNone | geometry/kd_tree.py:87-91 | points all outside the box on one axis contribute nothing |
| KDTree.SubtreeFrom | geometry/kd_tree.py:87-91 | a subtree the box does not reach holds no point in the box |
| KDTree.InBoxPointsSplit | geometry/kd_tree.py:87-91 | the points in the box split into the node and the two subtrees, and a subtree beyond the box's reach holds none |
| KDTree.KDTree.constructor | geometry/kd_tree.py:2-18 | a tree over exactly the given points, of the first point's dimension |
| KDTree.KDTree.NearestNeighbour | geometry/kd_tree.py:93-109 | ValueError exactly for a query of another dimension; otherwise a stored point no farther from the query than any stored point |
| KDTree.KDTree.PointsInOrthotope | geometry/kd_tree.py:111-132 | ValueError exactly when a bound has another dimension; otherwise exactly the stored points inside the box |
| KDTree.NewKDTree | geometry/kd_tree.py:2-18 | ValueError exactly for no points or points of different dimensions; ZeroDivisionError exactly for points of dimension 0 (`depth % 0`); otherwise a tree over exactly the points |
| Deque.LinkedListNode.constructor | princeton_algs_1/deque_and_randomized_queue/Deque.java:11-15 | a node holding the payload and the two links given |
| Deque.Deque.constructor | princeton_algs_1/deque_and_randomized_queue/Deque.java:43-46 | an empty deque |
| Deque.Deque.IsEmpty | princeton_algs_1/deque_and_randomized_queue/Deque.java:48-50 | true exactly when there are no items |
| Deque.Deque.Size | princeton_algs_1/deque_and_randomized_queue/Deque.java:52-54 | the number of items |
| Deque.Deque.AddFirst | princeton_algs_1/deque_and_randomized_queue/Deque.java:56-69 | null is refused with IllegalArgumentException and nothing changes; otherwise the item goes in front, the links stay consistent both ways |
| Deque.Deque.AddLast | princeton_algs_1/deque_and_randomized_queue/Deque.java:71-83 | null is refused; otherwise the item goes at the back |
| Deque.Deque.RemoveFirst | princeton_algs_1/deque_and_randomized_queue/Deque.java:85-101 | NoSuchElementException on an empty deque; otherwise the first item comes back and is removed |
| Deque.Deque.RemoveLast | princeton_algs_1/deque_and_randomized_queue/Deque.java:103-119 | NoSuchElementException on an empty deque; otherwise the last item comes back and is removed |
| Deque.Deque.Iterator | princeton_algs_1/deque_and_randomized_queue/Deque.java:121-123 | a fresh iterator at the front |
| Deque.ListIterator.constructor | princeton_algs_1/deque_and_randomized_queue/Deque.java:18-19 | an iterator at the first node |
| Deque.ListIterator.HasNext | princeton_algs_1/deque_and_randomized_queue/Deque.java:21-23 | true exactly while items remain |
| Deque.ListIterator.Next | princeton_algs_1/deque_and_randomized_queue/Deque.java:25-33 | the next item in order, advancing; NoSuchElementException at the end; the deque is unchanged |
| Deque.ListIterator.Remove | princeton_algs_1/deque_and_randomized_queue/Deque.java:35-37 | always UnsupportedOperationException |
| Deque.Iterate | princeton_algs_1/deque_and_randomized_queue/Deque.java:18-38 | a for-each loop sees exactly the items, front to back |
| RandomizedQueue.RandomizedQueue.Resize | princeton_algs_1/deque_and_randomized_queue/RandomizedQueue.java:40-47 | a fresh array of the new capacity holding the same first `size` cells, the rest null |
| RandomizedQueue.RandomizedQueue.constructor | princeton_algs_1/deque_and_randomized_queue/RandomizedQueue.java:49-52 | an empty queue with four cells |
| RandomizedQueue.RandomizedQueue.IsEmpty | princeton_algs_1/deque_and_randomized_queue/RandomizedQueue.java:54-56 | true exactly when there are no items |
| RandomizedQueue.RandomizedQueue.Size | princeton_algs_1/deque_and_randomized_queue/RandomizedQueue.java:58-60 | the number of items |
| RandomizedQueue.RandomizedQueue.Enqueue | princeton_algs_1/deque_and_randomized_queue/RandomizedQueue.java:62-72 | null is refused with IllegalArgumentException; otherwise the item is appended, the capacity doubling when full |
| RandomizedQueue.RandomizedQueue.Dequeue | princeton_algs_1/deque_and_randomized_queue/RandomizedQueue.java:74-91 | NoSuchElementException when empty; otherwise the chosen item comes back, the last item fills its place, exactly one copy of it leaves the queue, and the capacity halves when at most a quarter is used but never below four |
| RandomizedQueue.FillHole | princeton_algs_1/deque_and_randomized_queue/RandomizedQueue.java:83-84 | filling the hole with the last item and dropping the last cell removes exactly the chosen item |
| RandomizedQueue.RandomizedQueue.Sample | princeton_algs_1/deque_and_randomized_queue/RandomizedQueue.java:93-99 | NoSuchElementException when empty; otherwise the chosen item, left in place |
| RandomizedQueue.RandomizedQueue.Iterator | princeton_algs_1/deque_and_randomized_queue/RandomizedQueue.java:101-103 | a fresh iterator over the shuffled indices |
| RandomizedQueue.RandomizedIterator.constructor | princeton_algs_1/deque_and_randomized_queue/RandomizedQueue.java:12-18 | an iterator at the start of the shuffled indices |
| RandomizedQueue.RandomizedIterator.HasNext | princeton_algs_1/deque_and_randomized_queue/RandomizedQueue.java:20-22 | true exactly while indices remain |
| RandomizedQueue.RandomizedIterator.Next | princeton_algs_1/deque_and_randomized_queue/RandomizedQueue.java:24-30 | the item at the next shuffled index, advancing; NoSuchElementException at the end |
| RandomizedQueue.RandomizedIterator.Remove | princeton_algs_1/deque_and_randomized_queue/RandomizedQueue.java:32-34 | always UnsupportedOperationException |
| RandomizedQueue.Iterate | princeton_algs_1/deque_and_randomized_queue/RandomizedQueue.java:8-35 | a for-each loop sees the items in the shuffled order |
| QueueUsingTwoStacks.Reverse | data_structures/QueueUsingTwoStacks.java:77-81 | the order in which moving a whole stack onto another leaves its items: position i holds the item from the other end |
| QueueUsingTwoStacks.ReverseReverse | data_structures/QueueUsingTwoStacks.java:6-11 | reversing twice gives the sequence back |
| QueueUsingTwoStacks.ReverseMove | data_structures/QueueUsingTwoStacks.java:78-80 | moving the top of one stack onto another keeps the reversed first stack followed by the second |
| QueueUsingTwoStacks.LinkedListNode.constructor | data_structures/QueueUsingTwoStacks.java:24-27 | a node whose list is its payload followed by the list of its successor |
| QueueUsingTwoStacks.LinkedListStack.constructor | data_structures/QueueUsingTwoStacks.java:30-31 | an empty stack |
| QueueUsingTwoStacks.LinkedListStack.Push | data_structures/QueueUsingTwoStacks.java:33-36 | the payload goes on top of the stack |
| QueueUsingTwoStacks.LinkedListStack.Pop | data_structures/QueueUsingTwoStacks.java:38-47 | IndexOutOfBoundsException on an empty stack; otherwise the top item comes back and is removed |
| QueueUsingTwoStacks.LinkedListStack.IsEmpty | data_structures/QueueUsingTwoStacks.java:49-51 | true exactly when the stack holds no items |
| QueueUsingTwoStacks.LinkedListStack.Size | data_structures/QueueUsingTwoStacks.java:53-55 | the counter equals the number of items |
| QueueUsingTwoStacks.QueueUsingTwoStacks.constructor | data_structures/QueueUsingTwoStacks.java:58 | an empty queue over two fresh stacks |
| QueueUsingTwoStacks.QueueUsingTwoStacks.IsEmpty | data_structures/QueueUsingTwoStacks.java:60-62 | true exactly when the queue holds no items |
| QueueUsingTwoStacks.QueueUsingTwoStacks.Size | data_structures/QueueUsingTwoStacks.java:64-66 | the two stack sizes add up to the number of queued items |
| QueueUsingTwoStacks.QueueUsingTwoStacks.Enqueue | data_structures/QueueUsingTwoStacks.java:68-70 | the item joins the back of the queue; the dequeue stack is untouched |
| QueueUsingTwoStacks.QueueUsingTwoStacks.Transfer | data_structures/QueueUsingTwoStacks.java:77-81 | moving the enqueue stack onto the empty dequeue stack leaves the queue's items on the dequeue stack, front on top, and the enqueue stack empty |
| QueueUsingTwoStacks.QueueUsingTwoStacks.Dequeue | data_structures/QueueUsingTwoStacks.java:72-84 | NoSuchElementException on an empty queue; otherwise first in, first out: the front item comes back and is removed; the enqueue stack is touched only when the dequeue stack was empty |
| ResizingArrayQueue.ModWrap | data_structures/resizing_array_queue.cpp:16 | `%` on an index below twice the capacity is a single wrap |
| ResizingArrayQueue.SizeRange | data_structures/resizing_array_queue.cpp:108-120 | size() lies between 0 and the capacity, and is 0 exactly when `first` is -1 |
| ResizingArrayQueue.EndIndex | data_structures/resizing_array_queue.cpp:108-116 | in a non-empty queue `next` lies size() slots after `first` |
| ResizingArrayQueue.SizeAfter | data_structures/resizing_array_queue.cpp:108-116 | m items from `first` report size m, for every m up to the capacity, full included |
| ResizingArrayQueue.AdvanceNext | data_structures/resizing_array_queue.cpp:79-83 | enqueue's bump and wrap of `next` adds exactly one item |
| ResizingArrayQueue.AdvanceFirst | data_structures/resizing_array_queue.cpp:91-99 | dequeue's bump and wrap of `first` meets `next` exactly when one item was left, and otherwise removes exactly one |
| ResizingArrayQueue.CircularWrite | data_structures/resizing_array_queue.cpp:79 | writing the slot just past the items appends to them |
| ResizingArrayQueue.CircularDrop | data_structures/resizing_array_queue.cpp:91-95 | advancing the start by one slot drops the front item |
| ResizingArrayQueue.CircularFront | data_structures/resizing_array_queue.cpp:18-19 | items stored from slot 0 are a prefix of the buffer |
| ResizingArrayQueue.Queue.Size | data_structures/resizing_array_queue.cpp:108-116 | the number of queued items |
| ResizingArrayQueue.Queue.IsEmpty | data_structures/resizing_array_queue.cpp:118-120 | true exactly when no items are queued |
| ResizingArrayQueue.Queue.Resize | data_structures/resizing_array_queue.cpp:9-25 | a fresh array of the new capacity holding the items in order from slot 0; an empty queue stays marked empty |
| ResizingArrayQueue.Queue.constructor | data_structures/resizing_array_queue.cpp:28-32 | an empty queue with four slots |
| ResizingArrayQueue.Queue.Enqueue | data_structures/resizing_array_queue.cpp:70-84 | the item joins the back of the queue; the capacity doubles exactly when the buffer was full |
| ResizingArrayQueue.Queue.Push | data_structures/resizing_array_queue.cpp:75-83 | writing into a buffer with a free slot appends the item and keeps the buffer |
| ResizingArrayQueue.Queue.Dequeue | data_structures/resizing_array_queue.cpp:86-106 | out_of_range on an empty queue; otherwise the front item comes back and is removed, and the capacity halves exactly when at most a quarter of it is then used and the result has at least four slots |
| ResizingArrayQueue.Queue.Pop | data_structures/resizing_array_queue.cpp:91-99 | reading from a non-empty buffer returns and removes the front item |
| ResizingArrayQueue.Queue.CopyAsWritten | data_structures/resizing_array_queue.cpp:34-44 | the copy constructor as written: same capacity, items copied to slots 0 onwards, `first` always 0 and `next` always the item count |
| ResizingArrayQueue.CopiedSizeAsWritten | data_structures/resizing_array_queue.cpp:34-44 | after the copy as written, size() is right exactly when the copied queue was neither empty nor full; an empty copy reports a full buffer |
| ResizingArrayQueue.EmptyCopyReportsFull | data_structures/resizing_array_queue.cpp:34-37 | a copy of an empty four-slot queue reports four items |
| ResizingArrayQueue.FullCopyOverrun | data_structures/resizing_array_queue.cpp:34-37 | a copy of a full queue has `next` at the capacity; after one dequeue size() reports a free slot, so the next enqueue writes one past the end |
| ResizingArrayQueue.Queue.Copy | data_structures/resizing_array_queue.cpp:34-44 | the copy constructor as intended: a valid queue with the same items in the same order and the same capacity |
| ResizingArrayQueue.Queue.Assign | data_structures/resizing_array_queue.cpp:46-64 | copy assignment as intended: a valid queue holding the other's items and capacity, self-assignment included |
| DisjointSet.MergedSymmetric | data_structures/disjoint_set.cpp:27-33 | which of the two classes is named first does not change the merge |
| DisjointSet.MergedJoint | data_structures/disjoint_set.cpp:22-38 | after joining i and j, two elements are joint exactly when they were already, or one was with i and the other with j |
| DisjointSet.MergedClasses | data_structures/disjoint_set.cpp:25-33 | the winning class becomes the union of the two, its size their sum, and every other class stays |
| DisjointSet.HalveFind | data_structures/disjoint_set.cpp:9-12 | path halving keeps a forest and every element's root |
| DisjointSet.LinkFind | data_structures/disjoint_set.cpp:27-33 | hanging one root under another keeps a forest and sends exactly the elements of the lower tree to the new root |
| DisjointSet.HalveReps | data_structures/disjoint_set.cpp:9-12 | path halving keeps every representative |
| DisjointSet.LinkReps | data_structures/disjoint_set.cpp:27-33 | hanging one root under another merges the lower class into the upper |
| DisjointSet.ExactAfterLink | data_structures/disjoint_set.cpp:27-33 | counts that are the class sizes before a link of two distinct roots still are after it |
| DisjointSet.DisjointSet.constructor | data_structures/disjoint_set.cpp:17-20 | n singleton classes, each element its own root with count one, no two elements joint |
| DisjointSet.DisjointSet.GetRoot | data_structures/disjoint_set.cpp:8-14 | the representative of i, which is a root; the path halving changes no representative |
| DisjointSet.DisjointSet.AreJoint | data_structures/disjoint_set.cpp:36-38 | true exactly when the two elements share a representative; no class changes |
| DisjointSet.DisjointSet.Link | data_structures/disjoint_set.cpp:27-33 | hanging root b under root a merges b's class into a's and adds b's count to a's |
| DisjointSet.DisjointSet.JoinAsWritten | data_structures/disjoint_set.cpp:22-34 | join as written: the root with the larger count, `i`'s on a tie, represents both classes and its count grows by the other's, even when both are the same root |
| DisjointSet.JoinWithinClass | data_structures/disjoint_set.cpp:22-34 | joining an element with itself doubles its count while its class still holds one element |
| DisjointSet.DisjointSet.Join | data_structures/disjoint_set.cpp:22-34 | join as intended: the classes of i and j merge under the root with the larger count, and every root's count stays the size of its class |
| PriorityQueue.FrontDominates | data_structures/priority_queue.cpp:8-11 | in a heap the front has priority at least that of every element |
| PriorityQueue.PushStart | data_structures/priority_queue.cpp:73-75 | appending to a heap leaves only the new element's parent link to repair |
| PriorityQueue.UpStep | data_structures/priority_queue.cpp:18-22 | one exchange with a parent that compares below moves the only broken link up one level |
| PriorityQueue.UpDone | data_structures/priority_queue.cpp:18-26 | heapify_up stops with a heap, at the front or at a parent that does not compare below |
| PriorityQueue.PopStart | data_structures/priority_queue.cpp:92-96 | moving the last element to the front and dropping the old front leaves only the front's child links to repair |
| PriorityQueue.DownStep | data_structures/priority_queue.cpp:31-45 | one exchange with the higher-priority child moves the only broken links down one level |
| PriorityQueue.DownDone | data_structures/priority_queue.cpp:30-46 | heapify_down stops with a heap when no child compares above |
| PriorityQueue.ChildrenOf | data_structures/priority_queue.cpp:31-32 | the positions 2k+1 and 2k+2 are exactly those whose parent is k |
| PriorityQueue.PriorityQueue.constructor | data_structures/priority_queue.cpp:50-51 | an empty queue with the chosen comparator |
| PriorityQueue.PriorityQueue.HeapifyUp | data_structures/priority_queue.cpp:17-27 | restores the heap, moving elements only, when only the link from the index to its parent was broken |
| PriorityQueue.PriorityQueue.HeapifyDown | data_structures/priority_queue.cpp:30-47 | restores the heap, moving elements only, when only the links below the index were broken |
| PriorityQueue.PriorityQueue.Top | data_structures/priority_queue.cpp:54-60 | out_of_range exactly when empty; otherwise an element that no element outranks |
| PriorityQueue.PriorityQueue.Empty | data_structures/priority_queue.cpp:63-65 | true exactly when the queue holds nothing |
| PriorityQueue.PriorityQueue.Size | data_structures/priority_queue.cpp:68-70 | the number of elements |
| PriorityQueue.PriorityQueue.Push | data_structures/priority_queue.cpp:73-89 | the value joins the elements and the heap is restored |
| PriorityQueue.PriorityQueue.Pop | data_structures/priority_queue.cpp:92-98 | nothing happens to an empty queue; otherwise exactly one copy of the top element leaves and the heap is restored |
| PriorityQueue.PriorityQueue.Swap | data_structures/priority_queue.cpp:101-111 | the two queues exchange their elements and comparators |
| SymbolTableSpec.LookupMeaning | data_structures/OrderedSymbolTable.java:29-44 | the value found for a key is one stored with it, and no key is found that is not stored |
| SymbolTableSpec.PutLookup | data_structures/OrderedSymbolTable.java:24-44 | after put(k, v), get(k) is v and every other key keeps its value |
| SymbolTableSpec.DelLookup | data_structures/OrderedSymbolTable.java:191-194 | after delete(k), k is absent and every other key keeps its value |
| SymbolTableSpec.PutDelStrict | data_structures/OrderedSymbolTable.java:24-27 | put and delete keep the keys strictly ascending |
| SymbolTableSpec.FilterSizes | data_structures/OrderedSymbolTable.java:143-165 | the keys below and above k together are all keys but k itself |
| SymbolTableSpec.PutDelSize | data_structures/OrderedSymbolTable.java:56-59 | put of a stored key keeps size(), of a new key adds one; delete of a stored key takes one away |
| SymbolTableSpec.DelAbsent | data_structures/OrderedSymbolTable.java:191-194 | deleting an absent key changes nothing |
| SymbolTableSpec.RankOfSelect | data_structures/OrderedSymbolTable.java:143-189 | rank(select(i)) == i: exactly i keys lie below the i-th key |
| SymbolTableSpec.SelectOfRank | data_structures/OrderedSymbolTable.java:143-189 | select(rank(k)) == k for every stored key |
| SymbolTableSpec.StrictSlice | data_structures/OrderedSymbolTable.java:210-216 | every slice of a strictly ascending table is strictly ascending |
| OrderedSymbolTable.Resized | data_structures/OrderedSymbolTable.java:239 | recomputing a node's size keeps its entries, and makes the sizes right when the children's are |
| OrderedSymbolTable.StrictSplit | data_structures/OrderedSymbolTable.java:9-22 | a node's keys ascend exactly when each side's do and the node's key separates them |
| OrderedSymbolTable.InsertContents | data_structures/OrderedSymbolTable.java:224-242 | insert replaces the entry for the key or adds it between the smaller and the larger keys |
| OrderedSymbolTable.InsertSized | data_structures/OrderedSymbolTable.java:224-242 | insert keeps every size equal to its subtree's node count |
| OrderedSymbolTable.DelMinContents | data_structures/OrderedSymbolTable.java:286-294 | deleteMin removes exactly the first entry in order |
| OrderedSymbolTable.DelMaxContents | data_structures/OrderedSymbolTable.java:297-305 | deleteMax removes exactly the last entry in order |
| OrderedSymbolTable.DelMinSized | data_structures/OrderedSymbolTable.java:286-294 | deleteMin keeps the sizes right |
| OrderedSymbolTable.DelMaxSized | data_structures/OrderedSymbolTable.java:297-305 | deleteMax keeps the sizes right |
| OrderedSymbolTable.SizeCounts | data_structures/OrderedSymbolTable.java:218-221 | with sizes maintained, a node's size is the number of entries below it |
| OrderedSymbolTable.Leftmost | data_structures/OrderedSymbolTable.java:261-271 | the successor walk ends at the first entry in order |
| OrderedSymbolTable.DelHereContents | data_structures/OrderedSymbolTable.java:253-276 | the matched node's own step of delete removes exactly its entry, whichever of the four cases applies |
| OrderedSymbolTable.DelContents | data_structures/OrderedSymbolTable.java:245-283 | Hibbard deletion removes exactly the entry for the key and changes nothing when it is absent |
| OrderedSymbolTable.DelSized | data_structures/OrderedSymbolTable.java:245-283 | delete keeps the sizes right |
| OrderedSymbolTable.KeysOf | data_structures/OrderedSymbolTable.java:307-315 | the in-order traversal lists each entry's key in order |
| OrderedSymbolTable.KeysSplit | data_structures/OrderedSymbolTable.java:307-315 | a node's keys are those on its left, all smaller, its own, and those on its right, all larger |
| OrderedSymbolTable.FindComplete | data_structures/OrderedSymbolTable.java:30-44 | with ascending keys, get's descent finds exactly the stored value |
| OrderedSymbolTable.SelectSplit | data_structures/OrderedSymbolTable.java:168-189 | the i-th entry lies on the left, at the node or on the right, according to the left size |
| OrderedSymbolTable.RankSplit | data_structures/OrderedSymbolTable.java:144-165 | the keys below k are counted from the left size at each node |
| OrderedSymbolTable.OrderedTable.constructor | data_structures/OrderedSymbolTable.java:22 | an empty table |
| OrderedSymbolTable.OrderedTable.Put | data_structures/OrderedSymbolTable.java:24-27 | the table maps the key to the value and keeps every other pair |
| OrderedSymbolTable.OrderedTable.Get | data_structures/OrderedSymbolTable.java:29-44 | the value stored under the key, or none |
| OrderedSymbolTable.OrderedTable.IsEmpty | data_structures/OrderedSymbolTable.java:46-49 | true exactly when no pair is stored |
| OrderedSymbolTable.OrderedTable.Contains | data_structures/OrderedSymbolTable.java:51-54 | true exactly when the key is stored |
| OrderedSymbolTable.OrderedTable.Size | data_structures/OrderedSymbolTable.java:56-59 | the number of stored pairs |
| OrderedSymbolTable.OrderedTable.Minimum | data_structures/OrderedSymbolTable.java:61-76 | none exactly when empty; otherwise a stored key no larger than any other |
| OrderedSymbolTable.OrderedTable.Maximum | data_structures/OrderedSymbolTable.java:78-93 | none exactly when empty; otherwise a stored key no smaller than any other |
| OrderedSymbolTable.OrderedTable.Floor | data_structures/OrderedSymbolTable.java:95-117 | a stored key at most k that no stored key at most k exceeds; none only when there is no such key |
| OrderedSymbolTable.OrderedTable.Ceiling | data_structures/OrderedSymbolTable.java:119-141 | a stored key at least k below which no stored key at least k lies; none only when there is no such key |
| OrderedSymbolTable.OrderedTable.Rank | data_structures/OrderedSymbolTable.java:143-165 | the number of stored keys below k |
| OrderedSymbolTable.OrderedTable.Select | data_structures/OrderedSymbolTable.java:167-189 | the key with exactly `rank` smaller keys, or none when the rank is out of range |
| OrderedSymbolTable.OrderedTable.Delete | data_structures/OrderedSymbolTable.java:191-194 | the pair for the key is gone and every other pair stays |
| OrderedSymbolTable.OrderedTable.DeleteMinimum | data_structures/OrderedSymbolTable.java:196-201 | the smallest pair is gone; nothing happens to an empty table |
| OrderedSymbolTable.OrderedTable.DeleteMaximum | data_structures/OrderedSymbolTable.java:203-208 | the largest pair is gone; nothing happens to an empty table |
| OrderedSymbolTable.OrderedTable.Keys | data_structures/OrderedSymbolTable.java:210-216 | every stored key, strictly ascending |
| LlrbSymbolTable.RotateLeft | data_structures/LLRBSymbolTable.java:250-265 | rotating left keeps the entries in order |
| LlrbSymbolTable.RotateRight | data_structures/LLRBSymbolTable.java:268-283 | rotating right keeps the entries in order |
| LlrbSymbolTable.FlipColours | data_structures/LLRBSymbolTable.java:286-290 | flipping colours keeps the entries in order |
| LlrbSymbolTable.FixUp | data_structures/LLRBSymbolTable.java:293-309 | fixUp keeps the entries in order |
| LlrbSymbolTable.StrictSplit | data_structures/LLRBSymbolTable.java:6-21 | a node's keys ascend exactly when each side's do and the node's key separates them |
| LlrbSymbolTable.InsertBounds | data_structures/LLRBSymbolTable.java:312-328 | inserting a key inside a bound keeps every key inside it |
| LlrbSymbolTable.InsertStrict | data_structures/LLRBSymbolTable.java:312-328 | insert keeps the keys strictly ascending |
| LlrbSymbolTable.InsertContents | data_structures/LLRBSymbolTable.java:312-328 | insert replaces the entry for the key or adds it between the smaller and the larger keys |
| LlrbSymbolTable.FixUpSized | data_structures/LLRBSymbolTable.java:293-309 | fixUp leaves correct sizes everywhere when the children have them |
| LlrbSymbolTable.InsertSized | data_structures/LLRBSymbolTable.java:312-328 | insert keeps every size equal to its subtree's node count |
| LlrbSymbolTable.FixUpShape | data_structures/LLRBSymbolTable.java:293-309 | fixUp keeps the black height and turns every configuration insert and delete hand it into a 2-3 tree, or a red root over a red left child when the node was red |
| LlrbSymbolTable.InsertBalance | data_structures/LLRBSymbolTable.java:312-328 | insert keeps the black height; into a black root it returns a 2-3 tree, into a red root a red root over at most a red left child |
| LlrbSymbolTable.MoveRedLeft | data_structures/LLRBSymbolTable.java:331-343 | moveRedLeft keeps the entries in order and leaves the left side no smaller |
| LlrbSymbolTable.MoveRedRight | data_structures/LLRBSymbolTable.java:346-357 | moveRedRight keeps the entries in order and leaves the node-and-right side no smaller |
| LlrbSymbolTable.Leftmost | data_structures/LLRBSymbolTable.java:381-385 | the successor walk ends at the first entry in order |
| LlrbSymbolTable.KeyPlace | data_structures/LLRBSymbolTable.java:361-394 | a stored key lies on the side of the node its comparison picks |
| LlrbSymbolTable.FixUpDel | data_structures/LLRBSymbolTable.java:396 | after a deletion step fixUp restores a 2-3 tree of the same black height |
| LlrbSymbolTable.MoveRedLeftShape | data_structures/LLRBSymbolTable.java:331-343 | moveRedLeft hands deletion a left child that is red or has a red left child, keeping the black height |
| LlrbSymbolTable.DelMinShape | data_structures/LLRBSymbolTable.java:400-412 | deleteMin keeps a 2-3 tree and its black height, and a black root black |
| LlrbSymbolTable.DelMinContents | data_structures/LLRBSymbolTable.java:400-412 | deleteMin removes exactly the first entry in order |
| LlrbSymbolTable.DelShape | data_structures/LLRBSymbolTable.java:360-397 | delete keeps a 2-3 tree and its black height, and a black root black |
| LlrbSymbolTable.DelMaxShape | data_structures/LLRBSymbolTable.java:415-431 | deleteMax keeps a 2-3 tree and its black height, and a black root black |
| LlrbSymbolTable.DelMaxContents | data_structures/LLRBSymbolTable.java:415-431 | deleteMax removes exactly the last entry in order |
| LlrbSymbolTable.DelContents | data_structures/LLRBSymbolTable.java:360-397 | delete removes exactly the entry for the stored key |
| LlrbSymbolTable.DelHereContents | data_structures/LLRBSymbolTable.java:380-393 | replacing the matched node by its successor and deleting the successor removes exactly the key's entry |
| LlrbSymbolTable.DelMinSized | data_structures/LLRBSymbolTable.java:400-412 | deleteMin keeps the sizes right |
| LlrbSymbolTable.DelMaxSized | data_structures/LLRBSymbolTable.java:415-431 | deleteMax keeps the sizes right |
| LlrbSymbolTable.DelSized | data_structures/LLRBSymbolTable.java:360-397 | delete keeps the sizes right |
| LlrbSymbolTable.SizeCounts | data_structures/LLRBSymbolTable.java:244-247 | with sizes maintained, a node's size is the number of entries below it |
| LlrbSymbolTable.KeysOf | data_structures/LLRBSymbolTable.java:433-440 | the in-order traversal lists each entry's key in order |
| LlrbSymbolTable.KeysAscending | data_structures/LLRBSymbolTable.java:232-237 | keys() lists the keys strictly ascending |
| LlrbSymbolTable.KeysSplit | data_structures/LLRBSymbolTable.java:433-440 | a node's keys are those on its left, all smaller, its own, and those on its right, all larger |
| LlrbSymbolTable.FindComplete | data_structures/LLRBSymbolTable.java:30-44 | with ascending keys, get's descent finds exactly the stored value |
| LlrbSymbolTable.SelectSplit | data_structures/LLRBSymbolTable.java:164-185 | the i-th entry lies on the left, at the node or on the right, according to the left size |
| LlrbSymbolTable.RankSplit | data_structures/LLRBSymbolTable.java:140-161 | the keys below k are counted from the left size at each node |
| LlrbSymbolTable.Blacken | data_structures/LLRBSymbolTable.java:26 | colouring the root black keeps the entries |
| LlrbSymbolTable.Redden | data_structures/LLRBSymbolTable.java:190-192 | reddening a root with two black children keeps the entries |
| LlrbSymbolTable.DeleteRoot | data_structures/LLRBSymbolTable.java:188-200 | the public delete of a stored key leaves a 2-3 tree with right sizes and ascending keys, minus exactly that key's entry |
| LlrbSymbolTable.DeleteMinRoot | data_structures/LLRBSymbolTable.java:203-215 | the public deleteMinimum leaves a valid tree minus exactly the first entry |
| LlrbSymbolTable.DeleteMaxRoot | data_structures/LLRBSymbolTable.java:218-230 | the public deleteMaximum leaves a valid tree minus exactly the last entry |
| LlrbSymbolTable.SymbolTable.constructor | data_structures/LLRBSymbolTable.java:21 | an empty table |
| LlrbSymbolTable.SymbolTable.Put | data_structures/LLRBSymbolTable.java:24-27 | the table maps the key to the value, keeps every other pair, and stays a balanced tree |
| LlrbSymbolTable.SymbolTable.Get | data_structures/LLRBSymbolTable.java:30-44 | the value stored under the key, or none |
| LlrbSymbolTable.SymbolTable.IsEmpty | data_structures/LLRBSymbolTable.java:47-49 | true exactly when no pair is stored |
| LlrbSymbolTable.SymbolTable.Contains | data_structures/LLRBSymbolTable.java:52-54 | true exactly when the key is stored |
| LlrbSymbolTable.SymbolTable.Size | data_structures/LLRBSymbolTable.java:57-59 | the number of stored pairs |
| LlrbSymbolTable.SymbolTable.Minimum | data_structures/LLRBSymbolTable.java:62-74 | none exactly when empty; otherwise a stored key no larger than any other |
| LlrbSymbolTable.SymbolTable.Maximum | data_structures/LLRBSymbolTable.java:77-89 | none exactly when empty; otherwise a stored key no smaller than any other |
| LlrbSymbolTable.SymbolTable.Floor | data_structures/LLRBSymbolTable.java:92-113 | a stored key at most k that no stored key at most k exceeds; none only when there is no such key |
| LlrbSymbolTable.SymbolTable.Ceiling | data_structures/LLRBSymbolTable.java:116-137 | a stored key at least k below which no stored key at least k lies; none only when there is no such key |
| LlrbSymbolTable.SymbolTable.Rank | data_structures/LLRBSymbolTable.java:140-161 | the number of stored keys below k |
| LlrbSymbolTable.SymbolTable.Select | data_structures/LLRBSymbolTable.java:164-185 | the key with exactly `rank` smaller keys, or none when the rank is out of range |
| LlrbSymbolTable.SymbolTable.Delete | data_structures/LLRBSymbolTable.java:188-200 | the pair for the key is gone, every other pair stays, and the tree stays balanced; an absent key changes nothing |
| LlrbSymbolTable.SymbolTable.DeleteMinimum | data_structures/LLRBSymbolTable.java:203-215 | the smallest pair is gone; nothing happens to an empty table |
| LlrbSymbolTable.SymbolTable.DeleteMaximum | data_structures/LLRBSymbolTable.java:218-230 | the largest pair is gone; nothing happens to an empty table |
| LlrbSymbolTable.SymbolTable.Keys | data_structures/LLRBSymbolTable.java:232-237 | every stored key, strictly ascending |
| IntervalSearchTree.RotateLeft | geometry/interval_search_tree.cpp:37-66 | rotate_left keeps the intervals in order |
| IntervalSearchTree.RotateRight | geometry/interval_search_tree.cpp:69-98 | rotate_right keeps the intervals in order |
| IntervalSearchTree.FlipColours | geometry/interval_search_tree.cpp:101-109 | flip_colours keeps the intervals in order |
| IntervalSearchTree.FixUp | geometry/interval_search_tree.cpp:112-134 | fix_up keeps the intervals in order |
| IntervalSearchTree.LookupMeaning | geometry/interval_search_tree.cpp:280-292 | the value found for [lo, hi] is one stored with it, and nothing is found for an interval not stored |
| IntervalSearchTree.InsertSorted | geometry/interval_search_tree.cpp:137-151 | insert keeps the intervals sorted on `lo`, whatever it is given |
| IntervalSearchTree.InsertContents | geometry/interval_search_tree.cpp:137-151 | with distinct `lo` values and `lo` new or stored with the same `hi`, insert adds or updates [lo, hi] between the smaller and the larger `lo` values |
| IntervalSearchTree.FixUpAugmented | geometry/interval_search_tree.cpp:123-131 | fix_up recomputes size and tree_hi so the node is augmented whenever its children are |
| IntervalSearchTree.InsertAugmented | geometry/interval_search_tree.cpp:137-151 | insert keeps every size and tree_hi right |
| IntervalSearchTree.FixUpShape | geometry/interval_search_tree.cpp:112-134 | fix_up keeps the black height and turns every configuration insert and delete hand it into a 2-3 tree, or a red root over a red left child when the node was red |
| IntervalSearchTree.InsertBalance | geometry/interval_search_tree.cpp:137-151 | insert keeps the black height; into a black root it returns a 2-3 tree, into a red root a red root over at most a red left child |
| IntervalSearchTree.MoveRedLeft | geometry/interval_search_tree.cpp:154-164 | move_red_left keeps the intervals in order and leaves the left side no smaller |
| IntervalSearchTree.MoveRedRight | geometry/interval_search_tree.cpp:167-176 | move_red_right keeps the intervals in order and leaves the node-and-right side no smaller |
| IntervalSearchTree.Leftmost | geometry/interval_search_tree.cpp:215-219 | the successor walk ends at the first interval in order |
| IntervalSearchTree.KeyPlace | geometry/interval_search_tree.cpp:194-229 | a stored interval lies on the side of the node its `lo` comparison picks |
| IntervalSearchTree.FixUpDel | geometry/interval_search_tree.cpp:231 | after a deletion step fix_up restores a 2-3 tree of the same black height |
| IntervalSearchTree.DelMinShape | geometry/interval_search_tree.cpp:179-191 | del_min keeps a 2-3 tree and its black height, and a black root black |
| IntervalSearchTree.DelMinContents | geometry/interval_search_tree.cpp:179-191 | del_min removes exactly the first interval in order |
| IntervalSearchTree.DelShape | geometry/interval_search_tree.cpp:194-232 | del keeps a 2-3 tree and its black height, and a black root black |
| IntervalSearchTree.DelContents | geometry/interval_search_tree.cpp:194-232 | del of a stored interval removes exactly the entry with its `lo` |
| IntervalSearchTree.DelHereContents | geometry/interval_search_tree.cpp:214-225 | replacing the matched node by its successor and deleting the successor removes exactly the matched interval |
| IntervalSearchTree.DelMinAugmented | geometry/interval_search_tree.cpp:179-191 | del_min keeps every size and tree_hi right |
| IntervalSearchTree.DelAugmented | geometry/interval_search_tree.cpp:194-232 | del keeps every size and tree_hi right |
| IntervalSearchTree.PutLookup | geometry/interval_search_tree.cpp:273-292 | after put(lo, hi, v), get(lo, hi) is v, no other interval starting at lo is found, and every other key keeps its value |
| IntervalSearchTree.DelLookup | geometry/interval_search_tree.cpp:294-307 | after deleting the interval at lo nothing starting at lo is found and every other key keeps its value |
| IntervalSearchTree.PutDelStrict | geometry/interval_search_tree.cpp:273-307 | put and del keep the `lo` values distinct |
| IntervalSearchTree.PutDelEntries | geometry/interval_search_tree.cpp:273-307 | put adds only the new interval and del adds nothing |
| IntervalSearchTree.PutOverwrites | geometry/interval_search_tree.cpp:142-143 | putting a stored interval again only overwrites its value, in place |
| IntervalSearchTree.SizeCounts | geometry/interval_search_tree.cpp:20 | with sizes maintained, a node's size is the number of intervals below it |
| IntervalSearchTree.TreeHiIsMax | geometry/interval_search_tree.cpp:16-17 | with tree_hi maintained, a node's tree_hi is the largest `hi` stored below it, and some stored interval attains it |
| IntervalSearchTree.RotateLeftStaleSize | geometry/interval_search_tree.cpp:46-47 | rotate_left computes the new root's size from the old root's stale size, one subtree too large, until fix_up recomputes it |
| IntervalSearchTree.FindSound | geometry/interval_search_tree.cpp:280-292 | whatever get returns is stored under [lo, hi] |
| IntervalSearchTree.FindComplete | geometry/interval_search_tree.cpp:280-292 | with distinct `lo` values get finds exactly the stored value |
| IntervalSearchTree.EqualLoMissed | geometry/interval_search_tree.cpp:142-148 | with two intervals sharing `lo`, get misses one that is stored: put(5, 6) then put(5, 7), and get(5, 6) finds nothing |
| IntervalSearchTree.PreOrderPermutes | geometry/interval_search_tree.cpp:235-253 | the node-left-right visit holds the same intervals as the in-order sequence |
| IntervalSearchTree.OverlapValuesMeaning | geometry/interval_search_tree.cpp:240-242 | a value is reported exactly when some stored interval holding it overlaps the query, bounds included |
| IntervalSearchTree.PreOrderReportsSame | geometry/interval_search_tree.cpp:235-253 | the values reported in visiting order are those of the overlapping intervals, as a multiset |
| IntervalSearchTree.PrunedByTreeHi | geometry/interval_search_tree.cpp:244-251 | a subtree whose tree_hi is below the query's lo holds nothing overlapping it |
| IntervalSearchTree.PrunedByLo | geometry/interval_search_tree.cpp:248 | a subtree whose intervals all start after the query's hi holds nothing overlapping it |
| IntervalSearchTree.IntersectionsExact | geometry/interval_search_tree.cpp:235-253 | the pruning of find_intersections loses nothing: it reports the value of every overlapping interval, in visiting order |
| IntervalSearchTree.FindIntersectionStep | geometry/interval_search_tree.cpp:319-331 | when the node does not overlap, the subtree find_intersection moves to still holds an overlap whenever the tree did |
| IntervalSearchTree.FindGoesRight | geometry/interval_search_tree.cpp:324-327 | when the left subtree is empty or ends below lo, every overlap lies on the right |
| IntervalSearchTree.FindGoesLeft | geometry/interval_search_tree.cpp:328-329 | when the left subtree reaches lo and the node does not overlap, an overlap lies on the left: anything on the right starts after hi |
| IntervalSearchTree.Tree.constructor | geometry/interval_search_tree.cpp:265-267 | an empty tree |
| IntervalSearchTree.Tree.Put | geometry/interval_search_tree.cpp:273-277 | the tree stays a balanced, augmented tree with a black root sorted on `lo`; with distinct `lo` values and `lo` new or stored with the same `hi`, [lo, hi] maps to the value and nothing else changes |
| IntervalSearchTree.Tree.Get | geometry/interval_search_tree.cpp:279-292 | the value stored under [lo, hi], if any; with distinct `lo` values exactly the stored value |
| IntervalSearchTree.Tree.Delete | geometry/interval_search_tree.cpp:294-307 | when get finds [lo, hi] its entry is gone and nothing else changes; otherwise the tree is unchanged |
| IntervalSearchTree.Tree.FindIntersections | geometry/interval_search_tree.cpp:309-314 | the values of exactly the overlapping intervals, in visiting order |
| IntervalSearchTree.Tree.FindIntersection | geometry/interval_search_tree.cpp:316-334 | none exactly when no stored interval overlaps the query; otherwise the value of one that does |
| RectangleIntersections.RectInsertSorted | geometry/rectangle_intersections.cpp:181-197 | the int tree's insert keeps the intervals sorted on `lo` |
| RectangleIntersections.RectInsertContents | geometry/rectangle_intersections.cpp:181-197 | with distinct `lo` values it performs the same update as put |
| RectangleIntersections.RectInsertAugmented | geometry/rectangle_intersections.cpp:186-189 | returning a matched node without fix_up keeps every size and tree_hi right |
| RectangleIntersections.RectInsertBalance | geometry/rectangle_intersections.cpp:181-197 | the int tree's insert keeps the black height and the 2-3 shape, as the generic insert does |
| RectangleIntersections.RectTree.constructor | geometry/rectangle_intersections.cpp:310-312 | an empty tree |
| RectangleIntersections.RectTree.MoveFrom | geometry/rectangle_intersections.cpp:324-327 | the new tree takes the other's root and leaves the other empty |
| RectangleIntersections.RectTree.MoveAssign | geometry/rectangle_intersections.cpp:330-338 | unless it is the same tree, this tree takes the other's root and leaves the other empty |
| RectangleIntersections.RectTree.Put | geometry/rectangle_intersections.cpp:341-344 | as the generic put: with distinct `lo` values and `lo` new or stored with the same `hi`, [lo, hi] maps to the value |
| RectangleIntersections.RectTree.Get | geometry/rectangle_intersections.cpp:347-359 | the value stored under [lo, hi], if any; with distinct `lo` values exactly the stored value |
| RectangleIntersections.RectTree.Delete | geometry/rectangle_intersections.cpp:362-374 | when get finds [lo, hi] its entry is gone; otherwise nothing changes |
| RectangleIntersections.RectTree.FindIntersections | geometry/rectangle_intersections.cpp:377-381 | the ids of exactly the overlapping intervals, in visiting order |
| RectangleIntersections.MakeEvent | geometry/rectangle_intersections.cpp:44-46 | an end event sits at the right edge and a start event at the left edge of its rectangle |
| RectangleIntersections.GreaterIsLexicographic | geometry/rectangle_intersections.cpp:48-54 | operator> is the strict lexicographic order on x and then type: irreflexive, transitive, total up to ties, and a start precedes an end at the same x |
| RectangleIntersections.HasFirst | geometry/rectangle_intersections.cpp:408-409 | a non-empty queue of events has a top: an event no pending event precedes |
| RectangleIntersections.AllEvents | geometry/rectangle_intersections.cpp:401-404 | one start and one end event per rectangle |
| RectangleIntersections.HandleEvent | geometry/rectangle_intersections.cpp:409-424 | one event on the int tree: a start adds to the count the number of active y-ranges overlapping its own and then makes its y-range active, an end removes its y-range when get finds it; the tree stays a valid tree of distinct `lo` values |
| RectangleIntersections.SweepStep | geometry/rectangle_intersections.cpp:408-424 | taking the top event keeps the handled events in order and ahead of every pending event |
| RectangleIntersections.CountIntersections | geometry/rectangle_intersections.cpp:399-427 | every event is handled exactly once, in priority order, and the count is what handling them in that order adds up to |
| RectangleIntersections.EndAfterStart | geometry/rectangle_intersections.cpp:48-54 | in priority order a rectangle's end event never comes before its start event |
| RectangleIntersections.ActiveExact | geometry/rectangle_intersections.cpp:408-425 | with well-formed rectangles whose bottom edges differ, the active y-ranges after any number of events are exactly those of the rectangles started and not yet ended, with distinct `lo` values |
| RectangleIntersections.OverlapCount | geometry/rectangle_intersections.cpp:412-419 | with distinct `lo` values the number of ids find_intersections returns is the number of distinct stored intervals overlapping the query |
| RectangleIntersections.FoundCounts | geometry/rectangle_intersections.cpp:410-419 | under the same conditions a start event adds to the count the number of rectangles open at that point whose y-range overlaps its own |
| RectangleIntersections.SharedOrderSorted | geometry/rectangle_intersections.cpp:401-409 | the example's six events, in the order given, are in priority order |
| RectangleIntersections.SharedOrderEvents | geometry/rectangle_intersections.cpp:401-404 | the example's six events are exactly the events pushed for its three rectangles |
| RectangleIntersections.SharedRangeMissed | geometry/rectangle_intersections.cpp:410-422 | rectangles with the same y-range share one entry: for A = (0,0)-(10,1), B = (1,0)-(2,1), C = (5,0)-(6,1), A meets both others but the sweep counts 1 |
| IntervalSearchTree.MoveRedLeftShape | geometry/interval_search_tree.cpp:154-164 | move_red_left hands del a left child that is red or has a red left child, over 2-3 subtrees of equal black height |
| IntervalSearchTree.MoveRedLeftAugmented | geometry/interval_search_tree.cpp:154-164 | after move_red_left the subtrees fix_up will recompute over are still augmented |
| IntervalSearchTree.MoveRedRightAugmented | geometry/interval_search_tree.cpp:167-176 | after move_red_right the subtrees fix_up will recompute over are still augmented |
| IntervalSearchTree.DelHereShape | geometry/interval_search_tree.cpp:206-228 | the branch of del taken when `lo` is not below the node's keeps a 2-3 tree and its black height |
| IntervalSearchTree.DelHereAugmented | geometry/interval_search_tree.cpp:206-228 | the same branch keeps every size and tree_hi right |
| IntervalSearchTree.DelHereSuccessor | geometry/interval_search_tree.cpp:214-225 | copying the successor into the matched node and running del_min on the right subtree removes exactly the matched interval |

## Left out

- IntervalSearchTree.Tree.Delete: requires distinct `lo` values (`StrictLo`). With equal `lo` values, get and del can miss a stored interval after a rotation, as `IntervalSearchTree.EqualLoMissed` shows.
- IntervalSearchTree.Tree.Put: the new contents are stated only under distinct `lo` values (`StrictLo`), for the same reason.
- RectangleIntersections.RectTree.Delete: requires distinct `lo` values, as for the generic tree.
- RectangleIntersections.RectTree.Put: the new contents are stated only under distinct `lo` values (`CanPut`), as for the generic tree.
- RectangleIntersections.CountIntersections: requires that a bottom edge determines the top edge (`BottomDeterminesTop`), which is the case where re-putting an interval cannot break the tree.
  - The count is tied to the sweep's specification (`SweepCount`). `FoundCounts` shows that each start event adds the number of open rectangles overlapping it in y. This is shown for well-formed rectangles with distinct bottom edges.
  - Rectangles that share a y-range share one tree entry and are undercounted (`SharedRangeMissed`). No corrected sweep is modelled.
  - The theorem that the total equals the number of intersecting pairs is not proved.
  - The printed output is left out.
- Knapsack.Knapsack: optimality is stated for positive weights only, because the program as written never fills column 0 (see Findings). `size_t` overflow of value sums is not modelled.
- Board.Board.Twin: requires `dimension >= 2`. On a smaller board the Java code indexes out of bounds and throws; that exception is not modelled.
- LongestIncreasingSubsequence.LongestIncreasing: requires a non-empty input, as the program's own assertion does.
- Huffman.BuildHuffmanTree: requires a non-empty string, since `pq.top()` is read at the end.
  - The priority queue's choice among trees of equal frequency and the `unordered_map` iteration order are left open, so any such choice is allowed.
  - Minimality of the code's weighted length is not proved.
- Huffman.HuffmanEncode: requires a non-empty string, as `BuildHuffmanTree` does.
- ThreeSum.Count: `Arrays.sort` is modelled by an insertion sort with the same sorted-permutation contract. The two-pointer sums wrap as Java `int` does (`ThreeSum.Wrap`).
- CountingSort.CountingSort: requires every cell to be an `int` and every shifted value to fit in an `int` (`IntCells`, `ShiftFits`). Overflow of the shift is not modelled.
- MaxSubarray.MaxSubArray: requires every cell to be above `INT_MIN`. The sums are unbounded, so `int` overflow of a sum is not modelled.
- KDTree: coordinates are integers rather than Python numbers of any kind. Squared distances are exact.
- RandomizedQueue.RandomizedQueue.Dequeue: the random index is a parameter.
- RandomizedQueue.RandomizedQueue.Sample: the random index is a parameter.
- RandomizedQueue.Iterate: the shuffle `StdRandom.shuffle` produces is a parameter, assumed to be a permutation of the indices (`IsShuffle`). StdRandom itself is not part of this model.
- DagRelaxation: the unordered containers are iterated in any order, and the loop over the keys of `dag` runs over the keys present when it starts.
  - Additions of a weight to a distance are unbounded, so `int` overflow is not modelled.
  - `main` is modelled without its input and output (`ShortestPathsAsMain`), and the printing is left out.
- Johnson.BellmanFord: the result is tied to the passes and the check. It is not proved that `|V| - 1` passes reach shortest distances, or that every negative cycle reachable from the root makes the check fail.
  - Dijkstra's phase and `main` of graphs/johnson.cpp are not part of this model.
- Johnson.RecalculatePathWeights: requires the parent links for the root to form a tree with a depth witness, as after a successful Bellman–Ford.
- Kosaraju.StronglyConnectedComponents: the components are proved to partition the nodes, each being exactly what the search on the transpose reaches through unvisited nodes. It is not proved that each component is a strongly connected component.
- LlrbSymbolTable.SymbolTable.Contains: values are taken non-null. In the Java code `put` accepts a null value, and `contains` is `get(key) != null`, so a key stored with null reads as absent there; the model's values have no null, in line with the class comments' "null if key not found".
- LlrbSymbolTable.SymbolTable.Delete: values are taken non-null. In the Java code this delete is guarded by `contains`, so it would leave a key stored with null in place; that case is not modelled.
- OrderedSymbolTable.OrderedTable.Contains: values are taken non-null, as for the LLRB table. Its delete has no `contains` guard and removes a null-valued key too.
- IntervalSearchTree, LlrbSymbolTable, OrderedSymbolTable: the generic key type is modelled as `int`. The proofs use only its total order.
- CoinGame: coin sums and the memo's `int` entries are unbounded, so `int` overflow is not modelled.
- NeedlemanWunsch: scores are unbounded, so `int` overflow of the matrix cells is not modelled.
- Johnson.Relax: `dist + weight` is unbounded, so `int` overflow is not modelled.
- Kosaraju: the model reads `G[node]` of a node that is not a key as empty, and main's first loop runs over the keys present when it starts. In the C++ code `G[node]` inserts a missing destination as a key while that range-for iterates `G`, which can invalidate the iterator; that is not modelled.
- PriorityQueue: `emplace` and the r-value `push` behave as `Push` on an `int` value and are not modelled separately.
- Memory management (node deletion, destructors, the sentinel's static storage), the `main` test clients, standard input and output, file I/O and timing are left out throughout.
- The Java exceptions for null items are modelled as error results where the program checks for null. Java's garbage collection and the iterator's fail-fast behaviour are not modelled.

## Findings

| source | as written | input that shows it | evidently intended | confidence | as-written member | corrected member |
|---|---|---|---|---|---|---|
| data_structures/resizing_array_queue.cpp:34-44 | the copy constructor always sets `first` to 0 and `next` to the item count, and an empty queue must have `first` at -1 | a copy of an empty queue of capacity 4 reports 4 items | the copy holds the same items as the original | not executed | ResizingArrayQueue.EmptyCopyReportsFull | ResizingArrayQueue.Queue.Copy |
| data_structures/resizing_array_queue.cpp:34-64 | copy construction and copy assignment of a full queue leave `next` equal to the capacity | copy a full queue, dequeue once, then enqueue: the write lands one past the end | `next` wraps to 0 and an empty copy stays empty | not executed | ResizingArrayQueue.FullCopyOverrun | ResizingArrayQueue.Queue.Assign |
| data_structures/disjoint_set.cpp:22-34 | join does not check whether both roots are the same | `join(0, 0)` doubles the count of a one-element class | return early when the roots coincide | not executed | DisjointSet.JoinWithinClass | DisjointSet.DisjointSet.Join |
| sorting/selection/selection.cpp:11 | the bound `list.size() - 1` is unsigned | an empty list wraps the bound, so the loop is entered and spins without touching the list until `i` overflows | no pass for an empty list | not executed | SelectionSort.EmptyListEntersLoop | SelectionSort.SelectionSort |
| sorting/quick/quick.cpp:20-25 | the scans stop on keys equal to the pivot, and the swap leaves them in place | `[5, 5, 5]` never leaves the partition loop | advance both scans after a swap | not executed | QuickSort.ThreeEqualKeys | QuickSort.PartitionAndSort |
| sorting/counting/counting.cpp:23-27 | the minimum and maximum of an empty list are taken as `INT_MAX` and `INT_MIN` | an empty list asks for `INT_MIN + 1` counters | leave an empty list alone | not executed | CountingSort.EmptyListCountsLength | CountingSort.CountingSort |
| divide_and_conquest/maximum_subarray.cpp:6-25 | the sentinel `NINF` is `-1e8` | `[-3e8, -3e8]` reports a value above every subarray sum | a sentinel below every sum | not executed | DivideAndConquerSubarray.NinfCounterexample | DivideAndConquerSubarray.DaqBelowEverySum |
| huffman_coding.cpp:47 | a node whose character is `'.'` is taken as internal | in `"a."` the `'.'` gets no code | a leaf is a node without children | not executed | Huffman.DotCounterexample | Huffman.HuffmanEncodeFixed |
| princeton_algs_1/3sum_analysis/Test_2.java:17-18 | on a zero sum only `j` advances, so a smaller `k` is never tried with the new `j` | `[-2, 1, 1, 1]` counts 2 of its 3 zero-sum triples | count every zero-sum index triple | not executed | ThreeSum.RepeatedValuesUndercount | ThreeSum.CountAll |
| graphs/dag_relaxation.cpp:71-88 | only the keys of `dag` start at `INT_MAX` | find_shortest_paths called directly on the edge 1 -> 2 of weight 5, where node 2 is not a key, leaves node 2 at distance 0; main does not show this, because check_is_dag runs first and makes every destination a key (`DagRelaxation.ShortestPathsAsMain`) | every node of the graph starts at `INT_MAX` | not executed | DagRelaxation.SinkReadsZero | DagRelaxation.FindShortestPathsFixed |
| 01_knapsack_dp.cpp:11 | the inner loop starts at capacity 1, so column 0 stays 0 | values 5 and 3 with weights 0 and 1 at capacity 1 give 5, while taking both gives 8 | fill every row from capacity 0 | not executed | Knapsack.WeightlessItemMissed | Knapsack.KnapsackFixed |

# Conway's Game of Life over row partitions

This project models `Conway_s_Game_of_Life_in_Parallel.py` and proves properties of the model. The program computes one generation of Conway's Game of Life several times in a row. It splits the grid's rows among `size` MPI ranks, and each rank steps its rows:

- rank 0 cuts the grid into one row range per rank, adding one halo row above and below wherever a neighbouring range exists;
- every rank computes the next generation of its rows (`getNextGraph`, which relies on `getNeighbors`);
- every rank deletes its halo rows;
- rank 0 joins the results in rank order.

The model has five modules:

- `Grids` defines the grid type `Grid`, the rectangular-shape predicate `IsRect` and the row-slice predicate `IsSlice`, which the other modules share.
- `Neighbors` models the 3x3 scan of `getNeighbors`.
- `Kernel` models `getNextGraph`, together with the reference definition of one generation, `NextGraph`.
- `Partitioner` models the partition loop, the row trimming and the reassembly.
- `Game` models playGame and the driver loop of `main`. It proves what one call of playGame computes.

The scatter and gather of MPI are modelled as a loop over the ranks, in rank order.

Grids are `seq<seq<int>>` values. Each method works step by step like the source and is proved against a pure specification:

- `GetNeighbors` against `NeighborList`;
- `GetNextGraph` against `NextGraph`;
- `Partition` against `SliceLo`/`SliceHi`;
- `Trim` against a slice;
- `Reassemble` against `Concat`.

The main result is `Game.PlayGame`: with the code as written, the output equals one generation of the first `size * (rowCount / size)` rows of the grid. That is one generation of the whole grid exactly when `size` divides `rowCount`; in that case the result does not depend on the number of ranks.

The last rank's slice ends at `size * (rowCount / size)`, as in the code. The remaining `rowCount % size` rows are therefore never sent to any rank. The program itself expects the whole grid back:

- line 122 draws the result as an image of the original `rowCount` rows;
- the driver at lines 137-140 feeds each result back in as the whole grid;
- the rules at lines 1-5 apply to every cell.

The model follows the code, and the difference is recorded under Findings.

## Model

| member | source | states |
|---|---|---|
| Neighbors.GetNeighbors | Conway_s_Game_of_Life_in_Parallel.py:19-32 | The list returned is exactly the scan order of the 3x3 block, `NeighborList`. A cell is in it iff it is an in-bounds neighbour of (x, y), diagonals included and (x, y) itself excluded. No cell appears twice, there are at most 8, and the list is empty when (x, y) is outside the grid. |
| Neighbors.NeighborListSpec | Conway_s_Game_of_Life_in_Parallel.py:23-30 | The enumerated list holds each in-bounds neighbour once and nothing else (membership in both directions), so it has at most 8 entries. It is empty when (x, y) is out of bounds. |
| Neighbors.NeighborSymmetric | Conway_s_Game_of_Life_in_Parallel.py:25-29 | b is listed around a iff a is listed around b. |
| Neighbors.ScanMembers | Conway_s_Game_of_Life_in_Parallel.py:23-30 | After the outer loop has visited rows x-1 .. xEnd-1, the list holds exactly the admitted candidates of those rows, each once. |
| Neighbors.RowScanMembers | Conway_s_Game_of_Life_in_Parallel.py:24-30 | After the inner loop has visited columns y-1 .. yEnd-1 of row x2, the list holds exactly the admitted candidates of that row, each once. |
| Kernel.NextCell | Conway_s_Game_of_Life_in_Parallel.py:48-51 | The four rules, each in both directions. A live cell is live next iff it has 2 or 3 live neighbours. A dead cell is live next iff it has exactly 3. With 2 neighbours the cell keeps whatever it held. Otherwise the result is 0 or 1. |
| Kernel.CountLiveNeighbors | Conway_s_Game_of_Life_in_Parallel.py:41-46 | The count over the neighbour list equals `LiveAround`, the number of live cells among the eight cells touching (row, column), and lies in 0..8. |
| Kernel.NeighborListLive | Conway_s_Game_of_Life_in_Parallel.py:42-46 | Counting the live cells at the positions `getNeighbors` lists gives `LiveAround`, for every cell of a rectangular grid. |
| Kernel.CountLiveConcat | Conway_s_Game_of_Life_in_Parallel.py:44-46 | The live count over a concatenation of position lists is the sum of the two counts. |
| Kernel.GetNextGraph | Conway_s_Game_of_Life_in_Parallel.py:34-53 | The result has the grid's shape, and every cell is `NextCell(graph[i][j], LiveAround(graph, i, j))`, with neighbours counted in the unchanged input grid and not in the partly updated copy. The result equals `NextGraph(graph)`. |
| Kernel.StepOfSlice | Conway_s_Game_of_Life_in_Parallel.py:61-100 | Take a slice [lo, hi) of the grid that holds the row above s (unless s is the top row) and the row below e (unless e is the bottom). Its next generation, restricted to rows [s, e), equals rows [s, e) of the whole grid's next generation. |
| Kernel.NextRowOfSlice | Conway_s_Game_of_Life_in_Parallel.py:89 | One row of a slice, with both its adjacent rows present or outside the grid, steps as it does in the whole grid. |
| Kernel.LiveAroundOfSlice | Conway_s_Game_of_Life_in_Parallel.py:42-46 | Such a row's cells have the same neighbour count in the slice as in the grid. |
| Partitioner.SliceBounds | Conway_s_Game_of_Life_in_Parallel.py:62-81 | Rank i's slice lies within [0, size*d) and holds its owned rows [i*d, (i+1)*d), where d = rowCount / size. With one rank the slice is [0, rowCount). |
| Partitioner.SliceEnds | Conway_s_Game_of_Life_in_Parallel.py:67-79 | A slice reaches one row above its owned rows unless it belongs to the first rank, and one row below unless it belongs to the last rank, whose slice ends at size*d. |
| Partitioner.SendSlice | Conway_s_Game_of_Life_in_Parallel.py:69-79 | The if/elif chain appends exactly the slice [SliceLo(d, i), SliceHi(size, d, i)) and leaves the earlier partitions unchanged. |
| Partitioner.Partition | Conway_s_Game_of_Life_in_Parallel.py:61-81 | There is one partition per rank. Partition i is rows [i*d - HaloAbove(i), (i+1)*d + HaloBelow(size, i)) of the grid, in closed form, where the halos are 1 except at the first and last rank. One rank receives the whole grid. |
| Partitioner.Delete | Conway_s_Game_of_Life_in_Parallel.py:93 | Removing row k leaves one row fewer. Rows before k keep their index and rows after k move up by one. |
| Partitioner.Trim | Conway_s_Game_of_Life_in_Parallel.py:92-100 | The four-branch deletion chain removes exactly HaloAbove(rank) rows from the front and HaloBelow(size, rank) rows from the back. |
| Partitioner.TrimLeavesOwned | Conway_s_Game_of_Life_in_Parallel.py:67-100 | Trimming what rank i was sent leaves exactly its owned rows [i*d, (i+1)*d). With one rank that is the whole grid. |
| Partitioner.Reassemble | Conway_s_Game_of_Life_in_Parallel.py:107-113 | The rows of every rank's result are appended in rank order, giving `Concat` of the results. |
| Partitioner.ConcatTiles | Conway_s_Game_of_Life_in_Parallel.py:109-113 | Consecutive row ranges [cuts[k], cuts[k+1]) of a grid, starting at row 0, join to the grid's rows before the last cut. The ranges leave no gap and do not overlap. |
| Partitioner.OwnedRowsExact | Conway_s_Game_of_Life_in_Parallel.py:62 | The ranks own all rowCount rows (size * (rowCount / size) == rowCount) iff size divides rowCount. |
| Partitioner.MulDivExact | Conway_s_Game_of_Life_in_Parallel.py:62 | size*d rows split among size ranks give exactly d rows each, with no remainder. |
| Game.StepRanks | Conway_s_Game_of_Life_in_Parallel.py:86-100 | Rank i's result is one generation of its partition with HaloAbove(i) rows removed at the front and HaloBelow(size, i) at the back. |
| Game.SentRankStep | Conway_s_Game_of_Life_in_Parallel.py:67-100 | Rank i's trimmed result is rows [i*d, (i+1)*d) of one generation of the first size*d rows of the grid. |
| Game.GatherSentSlices | Conway_s_Game_of_Life_in_Parallel.py:61-113 | The gathered rows are one generation of the first size*d rows of the grid (size*d rows in all), and of the whole grid when size divides rowCount. |
| Game.PlayGame | Conway_s_Game_of_Life_in_Parallel.py:55-124 | playGame as written returns size*d rows, equal to `NextGraph` of the first size*d rows of the grid. When size divides rowCount it returns `NextGraph(graph)`, the same for every such size. |
| Game.RemainderRowsDropped | Conway_s_Game_of_Life_in_Parallel.py:62-81 | Take three rows with only the last one live, on two ranks. playGame's result is one generation of the first two rows: two rows, where row 1's centre stays dead. One generation of the grid has three rows, and that centre comes alive. |
| Game.PlayGameAbsorbing | Conway_s_Game_of_Life_in_Parallel.py:55-124 | With the last rank's slice extended to rowCount, the result is exactly one generation of the whole grid for every size from 1 to rowCount. |
| Partitioner.PartitionAbsorbing | Conway_s_Game_of_Life_in_Parallel.py:61-81 | The corrected partition loop: the same slices, except that the last rank's slice ends at rowCount. |
| Game.GatherAbsorbingSlices | Conway_s_Game_of_Life_in_Parallel.py:61-113 | With the corrected slices, the gathered rows are one generation of the whole grid. |
| Game.GenerationsShape | Conway_s_Game_of_Life_in_Parallel.py:137-140 | Repeated generations keep the number of rows and the number of columns. |
| Game.Run | Conway_s_Game_of_Life_in_Parallel.py:126-140 | The driver calls playGame `steps` times on its own output. The result is `steps` generations of the first size*d rows, which are the whole grid when size divides rowCount. This assumes line 122 succeeds on every rank; see "## Left out". |
| Game.RunAbsorbing | Conway_s_Game_of_Life_in_Parallel.py:137-140 | The driver loop over the corrected playGame gives `steps` generations of the whole grid. |
| Game.KeptRows | Conway_s_Game_of_Life_in_Parallel.py:62-81 | The rows playGame keeps are a multiple of size, at least size in number, and rectangular. They are the whole grid when size divides rowCount. |
| Game.GenerationFits | Conway_s_Game_of_Life_in_Parallel.py:139-140 | Every later generation is a valid playGame input on which nothing more is dropped. |

## Left out

- MPI: `comm.scatter`, `comm.gather`, `Get_rank`, `Get_size` and the processor name are not modelled as communication. The scatter-compute-gather round is modelled as a sequential loop over ranks 0 .. size-1 in rank order (`Game.StepRanks`), and `size` is a parameter. Concurrency and message passing are not modelled.
- The PIL image creation and display at lines 121-123 are not modelled. The conversion to a numpy array at line 120 does not change the rows. Line 122 is not only output: it reads `rowCount` and `columnCount`, which playGame assigns only inside `if (rank == 0)` (lines 57-59). Python therefore treats them as locals of playGame, and line 122 reads them unassigned on every rank but 0. The model treats line 122 as if it succeeded on every rank.
- File input in `main` (lines 128-136) is not modelled. The grid is a parameter, and so is `NUMBER_OF_STEPS`, which becomes `steps`.
- The commented-out prints are not modelled.
- Game.Run: treats line 122 as if it succeeded on every rank. In the source, with size > 1, every rank other than 0 raises UnboundLocalError at line 122, right after the gather at line 106. Those ranks never reach the second playGame call at line 140, so rank 0's scatter at line 86 in that call cannot complete. `main` therefore runs more than one generation only when size == 1. The contract of `Game.Run` (and of `Game.RunAbsorbing`) describes the driver as if every rank carried on.
- numpy: the deep copy at line 37 and `numpy.delete` are modelled as operations on immutable sequence values. Aliasing between arrays is not modelled.
- Partitioner.Partition: requires 1 <= size <= rowCount. With more ranks than rows, `division` is 0 and later ranks slice outside the grid; this case is not modelled.
- Kernel.GetNextGraph: requires a non-empty grid, because the source reads `graph[0]`. It also requires a rectangular grid, which the source assumes at line 59. Jagged grids are not modelled.
- `int(rowCount / size)` is floating-point division followed by truncation. It is modelled as integer floor division, which agrees for all row counts below 2^53.
- Cell values: a value other than 1 counts as dead, as in the source's `== 1` test. The next value of a cell with exactly two live neighbours is whatever it held, also as in the source.
- No concrete multi-generation scenarios (still lifes, oscillators) are included. The only concrete grid is the three-row input under Findings.

## Findings

| source | as written | input that shows it | evidently intended | confidence | as-written member | corrected member |
|---|---|---|---|---|---|---|
| Conway_s_Game_of_Life_in_Parallel.py:62-81 | The last rank's slice ends at `end = size * (rowCount // size)`. The `rowCount % size` remainder rows are sent to no rank and are missing from the result. The last kept row is stepped without the row below it. | Rows `000`, `000`, `111` on 2 ranks. playGame returns two rows, and the centre of row 1 stays dead. One generation of the grid has three rows, and that cell comes alive. | The last rank owns the remainder rows, and the result is one generation of the whole grid for any number of ranks. Lines 1-5 apply the rules to every cell, line 122 draws the result with the original `rowCount` rows, and lines 137-140 feed it back in as the whole grid. | not executed | Game.RemainderRowsDropped (with Game.PlayGame) | Game.PlayGameAbsorbing (with Partitioner.PartitionAbsorbing, Game.RunAbsorbing) |

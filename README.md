# Simulated-annealing Sudoku solver — a Dafny model

This project models the core of a small Rust program. The program solves Sudoku puzzles by simulated annealing. It has two parts:

- **The Sudoku state** (`src/sudoku.rs`). It holds a 9x9 board of bytes (0 is an empty cell) and the mask of given cells. It supplies three operations:
  - `calculate_energy`: the number of repeated values summed over the 27 rows, columns and blocks;
  - `generate_neighbor`: swaps two free cells of a random block, or falls back to changing one free cell to a new value;
  - `get_initial_state`: scans the puzzle string, then fills every block's empty cells with a shuffle of the values the block is missing.
- **The annealing loop** (`src/sa_solver.rs`). It is generic over any problem with an energy and a neighbour operation. It keeps the current and best state with their energies, stops early at energy 0, accepts improvements always and other moves when a random draw says so, and returns the best state.

The modules follow that structure:

- `SudokuBoard` (board.dfy): the board, the mask, the `Sudoku` datatype (its constructor is `Sudoku::new`), the 27 groups and the duplicate measure.
- `SudokuEnergy` (energy.dfy): `count_duplicates` and `calculate_energy`.
- `SudokuNeighbor` (neighbor.dfy): `generate_neighbor`.
- `SudokuInitial` (initial.dfy): `get_initial_state`; `InitialState` makes the final `Sudoku::new` call (src/sudoku.rs:195).
- `Annealing` (annealing.dfy): `solve_simulated_annealing`.
- `SudokuSearch` (search.dfy): the loop run on the Sudoku state.

Each loop of the source is a Dafny `method` with a `while` or `for` loop, proved against a specification function, with two exceptions. The resampling loop `while new_val == current_val` (src/sudoku.rs:129-131) is a drawn value. The search inside `position` (src/sudoku.rs:170) is the function `FirstIndex`. The loops that are methods:

- `count_duplicates` fills a `seen` table.
- `generate_neighbor` writes a local 9x9 array and pushes onto cell lists.
- `get_initial_state` writes local 9x9 arrays, removes from the `available` list and advances `index`.
- The annealing loop reassigns its four variables and breaks early.

`Sudoku` holds only two fixed-size arrays. It derives `Clone` and is moved or explicitly cloned, never shared, so it is a datatype. Building one is `Sudoku::new`.

Random choices are parameters:

- A `Move` holds the draws of one `generate_neighbor` call. `Fits` states the ranges the random source guarantees.
- `perms` holds one index permutation per block, standing for `shuffle`.
- `accept(i, delta)` stands for the Metropolis test of iteration `i`.
- `choose(s, i)` gives the draws of iteration `i` from state `s`.

The model follows the code as written. In particular, any ASCII digit (`'0'` included) makes a cell fixed; the Findings section below shows what that does and models the evident intent beside it.

## Model

| member | source | states |
|---|---|---|
| SudokuBoard.DuplicatesZeroIff | src/sudoku.rs:43-55 | the duplicate measure (non-empty entries minus distinct non-empty values) is 0 iff no non-empty value repeats |
| SudokuBoard.DuplicatesAtMostEight | src/sudoku.rs:43-55 | a group of 9 cells has at most 8 duplicates |
| SudokuBoard.DuplicatesOfPermutation | src/sudoku.rs:43-55 | rearranging a group does not change its duplicate count |
| SudokuBoard.ValuesAtMostCount | src/sudoku.rs:43-55 | there are never more distinct non-empty values than non-empty entries, so the measure is a natural number |
| SudokuBoard.NonZeroCountByMultiset | src/sudoku.rs:43-55 | the number of non-empty entries depends only on the multiset of entries |
| SudokuBoard.BlockCellsInBlock | src/sudoku.rs:69-79 | the 9 cells of a block, in the source's raster order, are distinct grid cells lying in that block |
| SudokuEnergy.CountDuplicates | src/sudoku.rs:43-55 | the `seen`-table loop returns the duplicate measure; it is 0 iff the non-empty entries are pairwise distinct; values are at most 9, as the 10-entry table demands |
| SudokuEnergy.GatherBlock | src/sudoku.rs:71-76 | the pushes in the block loop collect exactly the block's values in raster order |
| SudokuEnergy.CalculateEnergy | src/sudoku.rs:39-82 | the sum over rows, then columns, then blocks (lines 57-79) equals the energy; it is at most 216, and 0 iff no row, column or block repeats a non-empty value |
| SudokuEnergy.GroupSumBound | src/sudoku.rs:57-79 | the first n groups contribute at most 8n |
| SudokuEnergy.GroupSumZeroIff | src/sudoku.rs:57-79 | the first n groups sum to 0 iff none of them repeats a non-empty value |
| SudokuEnergy.EnergyBound | src/sudoku.rs:39-82 | the energy is at most 27 * 8 |
| SudokuEnergy.EnergyZeroIff | src/sudoku.rs:39-82 | energy 0 iff there are no conflicts, in both directions |
| SudokuNeighbor.FreeAmongMembers | src/sudoku.rs:93-102 | the pushed list holds exactly the non-fixed cells among those visited, each once |
| SudokuNeighbor.CellsInBlock | src/sudoku.rs:93-102 | the nested loop pushes the block's non-fixed cells in raster order |
| SudokuNeighbor.NonFixedCells | src/sudoku.rs:118-125 | the nested loop pushes the grid's non-fixed cells in row-major order |
| SudokuNeighbor.GenerateNeighbor | src/sudoku.rs:84-140 | the in-place swap or fallback assignment on a copy of the board returns the neighbour function's state for the same draws |
| SudokuNeighbor.NeighborKeepsGivens | src/sudoku.rs:98 | the neighbour has the same mask as the state, every fixed cell keeps its value, and every changed cell is free |
| SudokuNeighbor.SwapMove | src/sudoku.rs:104-114 | with at least two free cells in the block, the two chosen cells are distinct, free and in the block; their values are exchanged and nothing else changes; the block's multiset and duplicate count are kept |
| SudokuNeighbor.SwapKeepsBlock | src/sudoku.rs:111-114 | exchanging two cells of a block keeps the block's multiset |
| SudokuNeighbor.ChangedBySwap | src/sudoku.rs:111-114 | a swap changes at most the two cells, putting each one's old value in the other |
| SudokuNeighbor.ChangedByAssign | src/sudoku.rs:132 | giving a cell a value different from its current one changes exactly that cell |
| SudokuNeighbor.FallbackMove | src/sudoku.rs:115-134 | with fewer than two free cells in the block, the grid's free list is non-empty iff some cell is free; then exactly the chosen free cell changes, to a value in 1..9; with no free cell the state comes back unchanged |
| SudokuNeighbor.NeighborKeepsFilled | src/sudoku.rs:104-134 | a neighbour of a board holding only 1..9 holds only 1..9 |
| SudokuInitial.FilteredAppend | src/sudoku.rs:148 | filtering the characters distributes over concatenation |
| SudokuInitial.ScanPuzzle | src/sudoku.rs:148-158 | the scan loop leaves on the arrays exactly the scanned board and mask |
| SudokuInitial.ScanCell | src/sudoku.rs:152-156 | cell k is fixed iff the k-th accepted character exists and is an ASCII digit; then it holds that digit's value, otherwise 0 |
| SudokuInitial.ScanDigits | src/sudoku.rs:153-154 | every scanned value is a digit 0..9 |
| SudokuInitial.FirstIndex | src/sudoku.rs:170 | `position` gives the first index of the value, and nothing iff the value is absent |
| SudokuInitial.RemoveGivenFacts | src/sudoku.rs:169-172 | removing one given keeps the list duplicate-free, drops exactly that value, and shortens the list by at most one |
| SudokuInitial.RemoveGivensFacts | src/sudoku.rs:166-175 | after the removal loop, the list holds exactly the starting values not among the givens, without repeats, and no fewer than the starting list's length minus the number of givens |
| SudokuInitial.AvailableFacts | src/sudoku.rs:163-175 | the missing values are exactly the values 1..9 that are not givens, without repeats, and no fewer than the block's empty cells |
| SudokuInitial.MissingValues | src/sudoku.rs:163-175 | the removal loop over a block returns exactly the block's missing values |
| SudokuInitial.PermutedFacts | src/sudoku.rs:178 | a shuffle only rearranges: every entry comes from the list, and a list without repeats stays without repeats |
| SudokuInitial.ZeroRanks | src/sudoku.rs:181-189 | the `index` reached at an empty cell is below the number of empty cells, and strictly rises from one empty cell to the next |
| SudokuInitial.FillFacts | src/sudoku.rs:181-191 | a non-empty cell is untouched; an empty cell gets a missing value in 1..9 that is not a given; two empty cells get different values |
| SudokuInitial.FillCells | src/sudoku.rs:181-191 | the fill loop writes the filled block into the block's cells and leaves every other cell as it was (`index` stays in bounds) |
| SudokuInitial.FillBlock | src/sudoku.rs:163-191 | removal, shuffle and fill together write the block filled from its shuffled missing values and change nothing outside the block |
| SudokuInitial.GetInitialState | src/sudoku.rs:142-196 | the function returns the initial state for the puzzle and the shuffles: the filled scanned board with the scanned mask |
| SudokuInitial.InitialFacts | src/sudoku.rs:161-193 | after the fill every cell holds 1..9, every non-empty scanned value is kept, and every empty cell holds one of its block's missing values |
| SudokuInitial.InitialBlockPermutation | src/sudoku.rs:161-193 | a block whose givens are pairwise distinct ends as a permutation of 1..9 (no repeats, every digit present) and adds no energy |
| SudokuInitial.DistinctWithin | src/sudoku.rs:161-193 | a list without repeats drawn from a set is no longer than the set (the counting step behind the permutation claim) |
| SudokuInitial.ZeroDigitFixedButFilled | src/sudoku.rs:153-156 | as written, the puzzle "0" marks cell (0, 0) fixed while its value is 0, so the mask does not match the givens and the fill overwrites a fixed cell |
| SudokuInitial.IntendedGivensFixed | src/sudoku.rs:153-156 | with only '1'..'9' marking cells fixed, the fixed cells are exactly the non-empty scanned cells and keep their scanned values |
| Annealing.Start | src/sa_solver.rs:16-19 | current and best start as the initial state, with their energies recorded |
| Annealing.Step | src/sa_solver.rs:30-43 | one iteration keeps the recorded energies equal to the states' energies and best <= current; the best energy never rises; a strictly better neighbour is accepted; a no-better one is taken when the oracle accepts it and dropped when it refuses; the best state is replaced only on strict improvement, and then by the current state |
| Annealing.RunFacts | src/sa_solver.rs:24-50 | over the whole loop the bookkeeping stays consistent, the body runs at most `max_iterations` times, a current energy of 0 at the top of an iteration ends the loop there with the state unchanged, and a loop that ends before the bound ends with current and best energy 0 |
| Annealing.RunPreserves | src/sa_solver.rs:30-43 | any property the neighbour operation preserves holds of the current and the best state after the loop |
| Annealing.Solve | src/sa_solver.rs:10-53 | the loop returns the best state of the run; it has at most the initial energy, is the initial state when `max_iterations` is 0 or the initial energy is 0 (then the body never runs), and has energy 0 when the loop broke early |
| SudokuSearch.NeighborFrozen | src/sudoku.rs:115-134 | with every cell fixed, the neighbour is the state itself, whatever the draws |
| SudokuSearch.AllDigitsAllFixed | src/sudoku.rs:148-156 | a puzzle whose first 81 accepted characters are all digits has every cell fixed |
| SudokuSearch.GivensAreFixed | src/sudoku.rs:153-156 | every cell with a non-empty scanned value is fixed |
| SudokuSearch.SolveSudoku | src/sa_solver.rs:10-53 | on a Sudoku state the result keeps the mask and every fixed value, stays filled when the start is, has at most the start's energy, is the start when every cell is fixed or the start has no conflicts, and has no conflicts when the loop broke early |
| SudokuSearch.SolvePuzzle | src/main.rs:14-29 | initial state then annealing: the result is filled, keeps every non-empty scanned value, solves the puzzle when the loop broke early, and is the unchanged initial state when the puzzle is written with digits only ('0' for blanks) |
| SudokuSearch.SolvePuzzleIntended | src/main.rs:14-29 | the same pipeline with the corrected mask: the fixed cells are exactly the givens, and the result is filled, keeps every given, and solves the puzzle when the loop broke early |

## Left out

- `Sudoku::display` and the progress `println!` calls are console output only.
- The temperature, its cooling and `f64::exp` are floating-point numerics. `accept(i, delta)` stands for the test of iteration `i`, so cooling is not modelled. The oracle may also refuse a move with `delta == 0`, which the source always takes while the temperature is positive, since `exp(0)` is 1 and the draw lies in [0, 1). The property "a move that raises the energy is accepted less often as the temperature falls" is therefore not stated.
- The `rand` crate's calls are not modelled, and nothing is claimed about uniformity.
  - `random_range`, `choose_multiple` and `choose_mut` are the fields of a `Move`, with `Fits` stating their ranges.
  - The resampling loop `while new_val == current_val` is replaced by a drawn value that `Fits` requires to differ from the current one.
  - `shuffle` is an index permutation per block.
- `SimulatedAnnealingProblem` is a trait. The model passes the problem's energy and neighbour operations as function parameters. `get_initial_state` is not part of the generic loop, as the loop never calls it.
- The filtered character iterator is a pre-filtered sequence read by position. A string shorter than 81 accepted characters leaves the rest of the cells empty and free, as `chars.next()` returning `None` does.
- `position` and `remove` are the function `RemoveFirst` on the `available` sequence rather than an in-place vector update.
- SudokuEnergy.CountDuplicates: requires every value to be at most 9, and so does `SudokuEnergy.CalculateEnergy`. The source would panic on an index out of range for such a board, and no board the program builds has one.
- SudokuSearch.SolveSudoku: uses the total energy function, so on a board holding a value above 9 it returns a state where the source panics at its first energy evaluation. Every board `get_initial_state` builds holds only 1..9 (`SudokuInitial.InitialFacts`).
- `u32` and `u8` widths: energies are at most 216 and only 0..9 are written (the scan stores a `'0'` as 0), so no wrap-around can happen. `max_iterations` and the counters are `nat`.
- `src/main.rs` is the entry point. It is modelled only as `SolvePuzzle`, without its constants, output or final energy report.

## Findings

| source | as written | input that shows it | evidently intended | confidence | as-written member | corrected member |
|---|---|---|---|---|---|---|
| src/sudoku.rs:153-156 | every ASCII digit, '0' included, marks its cell fixed, although a '0' leaves the cell empty (value 0) and the fill at lines 186-188 then overwrites it | the puzzle "0": cell (0, 0) is fixed with value 0 and is filled; the puzzle in src/main.rs:9 (81 digits, '0' for blanks) has every cell fixed, so the annealing loop returns the initial state unchanged | only '1'..'9' mark a cell fixed, so blanks written as '0' stay free for the search (the comment at src/main.rs:8 says '0' represents empty cells) | not executed | SudokuInitial.ZeroDigitFixedButFilled, SudokuSearch.SolvePuzzle | SudokuInitial.IntendedGivensFixed, SudokuSearch.SolvePuzzleIntended |

/** The Sudoku state as a `SimulatedAnnealingProblem`: the generic loop run
    with `calculate_energy` as its energy and `generate_neighbor` as its
    neighbour, and what the Sudoku operations then guarantee of the state
    the loop returns. The random draws of iteration `i` from state `s` are
    `choose(s, i)`. */
module SudokuSearch {
  import opened SudokuBoard
  import opened SudokuEnergy
  import opened SudokuNeighbor
  import opened SudokuInitial
  import opened Annealing

  /** Every cell is a given. */
  predicate AllFixed(m: Mask) {
    forall r, c :: 0 <= r < 9 && 0 <= c < 9 ==> m[r][c]
  }

  /** `s` solves the puzzle whose givens are the non-empty cells of `givens`. */
  predicate SolutionOf(s: Sudoku, givens: Board) {
    Filled(s.board) && NoConflicts(s.board) &&
    forall r, c :: 0 <= r < 9 && 0 <= c < 9 && givens[r][c] != 0 ==> s.board[r][c] == givens[r][c]
  }

  /** `s` keeps the mask of `initial` and the values of its fixed cells. */
  predicate KeepsGivens(s: Sudoku, initial: Sudoku) {
    s.fixedCells == initial.fixedCells &&
    forall r, c :: 0 <= r < 9 && 0 <= c < 9 && initial.fixedCells[r][c] ==>
      s.board[r][c] == initial.board[r][c]
  }

  /** With no free cell, `generate_neighbor` returns the state unchanged,
      whatever the draws. */
  lemma NeighborFrozen(s: Sudoku, m: Move)
    requires AllFixed(s.fixedCells) && Fits(s, m)
    ensures Neighbor(s, m) == s
  {
    NoFreeCell(s.fixedCells, BlockCells(m.blockRow, m.blockCol));
    NoFreeCell(s.fixedCells, AllCells());
  }

  lemma {:induction false} NoFreeCell(m: Mask, cells: seq<Cell>)
    requires AllFixed(m)
    ensures FreeAmong(m, cells) == []
  {
    if cells != [] {
      NoFreeCell(m, cells[..|cells| - 1]);
    }
  }

  /** A puzzle whose first 81 accepted characters are all digits (`'0'`
      included) has every cell marked as a given. */
  lemma AllDigitsAllFixed(puzzle: string)
    requires |Filtered(puzzle)| >= 81
    requires forall k :: 0 <= k < 81 ==> IsDigit(Filtered(puzzle)[k])
    ensures AllFixed(ScanMask(puzzle))
  {
    forall r, c | 0 <= r < 9 && 0 <= c < 9 ensures ScanMask(puzzle)[r][c] {
      ScanCell(puzzle, r, c);
    }
  }

  /** `solve_simulated_annealing` on a Sudoku state. The draws are ones the
      random source can produce (`Fits`). The returned state keeps the mask
      and every given, stays filled when the start is filled, has no more
      conflicts than the start, is the start itself when no cell is free or
      the start has no conflicts, and has no conflicts when the loop stopped
      early. */
  method SolveSudoku(initial: Sudoku, choose: (Sudoku, nat) -> Move, accept: (nat, int) -> bool,
                     maxIterations: nat)
    returns (best: Sudoku, ghost iterations: nat)
    requires forall s: Sudoku, i: nat :: Fits(s, choose(s, i))
    ensures KeepsGivens(best, initial)
    ensures Filled(initial.board) ==> Filled(best.board)
    ensures Energy(best.board) <= Energy(initial.board)
    ensures AllFixed(initial.fixedCells) ==> best == initial
    ensures maxIterations == 0 ==> best == initial
    ensures NoConflicts(initial.board) ==> iterations == 0 && best == initial
    ensures iterations <= maxIterations
    ensures iterations < maxIterations ==> NoConflicts(best.board)
  {
    var energy := (s: Sudoku) => Energy(s.board);
    var neighbor := (s: Sudoku, i: nat) => Neighbor(s, choose(s, i));
    best, iterations := Solve(initial, energy, neighbor, accept, maxIterations);

    ghost var start := Start(energy, initial);
    var keeps := (s: Sudoku) => KeepsGivens(s, initial);
    forall s: Sudoku, i: nat | keeps(s) ensures keeps(neighbor(s, i)) {
      NeighborKeepsGivens(s, choose(s, i));
    }
    RunPreserves(energy, neighbor, accept, keeps, start, 0, maxIterations);

    if Filled(initial.board) {
      var filled := (s: Sudoku) => Filled(s.board);
      forall s: Sudoku, i: nat | filled(s) ensures filled(neighbor(s, i)) {
        NeighborKeepsFilled(s, choose(s, i));
      }
      RunPreserves(energy, neighbor, accept, filled, start, 0, maxIterations);
    }

    if AllFixed(initial.fixedCells) {
      var same := (s: Sudoku) => s == initial;
      forall s: Sudoku, i: nat | same(s) ensures same(neighbor(s, i)) {
        NeighborFrozen(s, choose(s, i));
      }
      RunPreserves(energy, neighbor, accept, same, start, 0, maxIterations);
    }

    EnergyZeroIff(best.board);
    EnergyZeroIff(initial.board);
  }

  /** `get_initial_state` followed by `solve_simulated_annealing`, as the
      program's entry point wires them. The result is filled and keeps every
      non-empty scanned value; when the loop stopped early it solves the
      puzzle. A puzzle written with `'0'` for its blanks has every cell
      fixed, so the search returns the initial state as it was. */
  method SolvePuzzle(puzzle: string, perms: seq<seq<nat>>, choose: (Sudoku, nat) -> Move,
                     accept: (nat, int) -> bool, maxIterations: nat)
    returns (best: Sudoku, ghost iterations: nat)
    requires ShufflesFit(ScanBoard(puzzle), perms)
    requires forall s: Sudoku, i: nat :: Fits(s, choose(s, i))
    ensures Filled(best.board)
    ensures forall r, c :: 0 <= r < 9 && 0 <= c < 9 && ScanBoard(puzzle)[r][c] != 0 ==>
      best.board[r][c] == ScanBoard(puzzle)[r][c]
    ensures iterations < maxIterations ==> SolutionOf(best, ScanBoard(puzzle))
    ensures (|Filtered(puzzle)| >= 81 && forall k :: 0 <= k < 81 ==> IsDigit(Filtered(puzzle)[k])) ==>
      best == InitialState(puzzle, perms)
  {
    var initial := GetInitialState(puzzle, perms);
    InitialFacts(puzzle, perms);
    GivensAreFixed(puzzle);
    best, iterations := SolveSudoku(initial, choose, accept, maxIterations);
    if |Filtered(puzzle)| >= 81 && forall k :: 0 <= k < 81 ==> IsDigit(Filtered(puzzle)[k]) {
      AllDigitsAllFixed(puzzle);
    }
  }

  /** The same pipeline with the corrected mask, under which only '1'..'9'
      mark a cell fixed: the cells the scan left empty are exactly the free
      ones, so the search may move every one of them, and the result keeps
      every given and solves the puzzle when the loop stopped early. */
  method SolvePuzzleIntended(puzzle: string, perms: seq<seq<nat>>, choose: (Sudoku, nat) -> Move,
                             accept: (nat, int) -> bool, maxIterations: nat)
    returns (best: Sudoku, ghost iterations: nat)
    requires ShufflesFit(ScanBoard(puzzle), perms)
    requires forall s: Sudoku, i: nat :: Fits(s, choose(s, i))
    ensures best.fixedCells == IntendedMask(puzzle)
    ensures MaskMatchesGivens(best.fixedCells, ScanBoard(puzzle))
    ensures Filled(best.board)
    ensures forall r, c :: 0 <= r < 9 && 0 <= c < 9 && ScanBoard(puzzle)[r][c] != 0 ==>
      best.board[r][c] == ScanBoard(puzzle)[r][c]
    ensures iterations < maxIterations ==> SolutionOf(best, ScanBoard(puzzle))
  {
    var initial := GetInitialState(puzzle, perms);
    initial := initial.(fixedCells := IntendedMask(puzzle));
    assert initial == IntendedInitialState(puzzle, perms);
    InitialFacts(puzzle, perms);
    IntendedGivensFixed(puzzle, perms);
    best, iterations := SolveSudoku(initial, choose, accept, maxIterations);
  }

  /** Every cell with a non-empty scanned value is marked as a given. */
  lemma GivensAreFixed(puzzle: string)
    ensures forall r, c :: 0 <= r < 9 && 0 <= c < 9 && ScanBoard(puzzle)[r][c] != 0 ==>
      ScanMask(puzzle)[r][c]
  {
    forall r, c | 0 <= r < 9 && 0 <= c < 9 && ScanBoard(puzzle)[r][c] != 0
      ensures ScanMask(puzzle)[r][c]
    {
      ScanCell(puzzle, r, c);
    }
  }
}

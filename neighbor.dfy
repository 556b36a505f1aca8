/** `generate_neighbor`: swap two free cells of one block, or, when that block
    has fewer than two free cells, give one free cell of the grid a new value.
    The random draws are the fields of a `Move`. */
module SudokuNeighbor {
  import opened SudokuBoard

  /** A cell of the grid that is not a given. */
  predicate Free(m: Mask, p: Cell) {
    InGrid(p) && !m[p.0][p.1]
  }

  /** The free cells among `cells`, in their order: what the source pushes onto
      `cells_in_block` and `non_fixed_cells`. */
  function FreeAmong(m: Mask, cells: seq<Cell>): (free: seq<Cell>)
    ensures |free| <= |cells|
  {
    if cells == [] then []
    else FreeAmong(m, cells[..|cells| - 1]) + (if Free(m, cells[|cells| - 1]) then [cells[|cells| - 1]] else [])
  }

  /** The list holds exactly the free cells among `cells`, each once when `cells` has no repeats. */
  lemma {:induction false} FreeAmongMembers(m: Mask, cells: seq<Cell>)
    ensures forall p :: p in FreeAmong(m, cells) <==> p in cells && Free(m, p)
    ensures NoDuplicates(cells) ==> NoDuplicates(FreeAmong(m, cells))
  {
    if cells != [] {
      var init, last := cells[..|cells| - 1], cells[|cells| - 1];
      assert cells == init + [last];
      FreeAmongMembers(m, init);
      if NoDuplicates(cells) {
        assert last !in init;
        assert NoDuplicates(init);
      }
    }
  }

  /** Every entry of the list is a free cell. */
  lemma {:induction false} FreeAmongFree(m: Mask, cells: seq<Cell>)
    ensures forall k :: 0 <= k < |FreeAmong(m, cells)| ==> Free(m, FreeAmong(m, cells)[k])
  {
    if cells != [] {
      FreeAmongFree(m, cells[..|cells| - 1]);
    }
  }

  lemma FreeAmongSnoc(m: Mask, cells: seq<Cell>, k: nat)
    requires k < |cells|
    ensures FreeAmong(m, cells[..k + 1])
      == FreeAmong(m, cells[..k]) + (if Free(m, cells[k]) then [cells[k]] else [])
  {
    assert cells[..k + 1][..k] == cells[..k];
  }

  /** All 81 cells in row-major order. */
  function AllCells(): (cells: seq<Cell>)
    ensures |cells| == 81 && NoDuplicates(cells)
    ensures forall k :: 0 <= k < 81 ==> InGrid(cells[k])
  {
    seq(81, k requires 0 <= k < 81 => (k / 9, k % 9))
  }

  lemma AllCellAt(r: nat, c: nat)
    requires r < 9 && c < 9
    ensures AllCells()[9 * r + c] == (r, c)
  {
    var k := 9 * r + c;
    assert k / 9 == r && k % 9 == c;
  }

  lemma AllCellsComplete(p: Cell)
    requires InGrid(p)
    ensures p in AllCells()
  {
    assert AllCells()[9 * p.0 + p.1] == p;
  }

  /** The free cells of a block, in raster order. */
  function BlockFree(m: Mask, blockRow: nat, blockCol: nat): seq<Cell>
    requires blockRow < 3 && blockCol < 3
  {
    FreeAmong(m, BlockCells(blockRow, blockCol))
  }

  /** The free cells of the grid, in row-major order. */
  function AllFree(m: Mask): seq<Cell> {
    FreeAmong(m, AllCells())
  }

  /** The random draws of one call:
      - `blockRow`, `blockCol`: the block (`random_range(0..3)` twice);
      - `first`, `second`: the positions in the block's free-cell list that
        `choose_multiple(.., 2)` picks;
      - `cell`: the position in the grid's free-cell list that `choose_mut` picks;
      - `value`: the value the resampling loop settles on. */
  datatype Move = Move(blockRow: nat, blockCol: nat, first: nat, second: nat, cell: nat, value: Byte)

  /** The draws are ones the random source can produce for this state. */
  predicate Fits(s: Sudoku, m: Move) {
    m.blockRow < 3 && m.blockCol < 3 &&
    var inBlock := BlockFree(s.fixedCells, m.blockRow, m.blockCol);
    var anywhere := AllFree(s.fixedCells);
    FreeAmongFree(s.fixedCells, AllCells());
    (|inBlock| >= 2 ==> m.first < |inBlock| && m.second < |inBlock| && m.first != m.second) &&
    (|inBlock| < 2 && |anywhere| > 0 ==>
      m.cell < |anywhere| && 1 <= m.value <= 9 && m.value != At(s.board, anywhere[m.cell]))
  }

  /** The board with cell `p` set to `v`. */
  function Assigned(b: Board, p: Cell, v: Byte): Board
    requires InGrid(p)
  {
    seq(9, r requires 0 <= r < 9 => seq(9, c requires 0 <= c < 9 =>
      if r == p.0 && c == p.1 then v else b[r][c]))
  }

  /** The board with the values of `p` and `q` exchanged (through a temporary,
      as the source does; `p == q` leaves the board as it is). */
  function Swapped(b: Board, p: Cell, q: Cell): Board
    requires InGrid(p) && InGrid(q)
  {
    Assigned(Assigned(b, p, At(b, q)), q, At(b, p))
  }

  /** The cells on which two boards differ. */
  function Changed(a: Board, b: Board): set<Cell> {
    set r: nat, c: nat | r < 9 && c < 9 && a[r][c] != b[r][c] :: (r, c)
  }

  /** The neighbour that `generate_neighbor` returns for the draws `m`. */
  function Neighbor(s: Sudoku, m: Move): Sudoku
    requires Fits(s, m)
  {
    var inBlock := BlockFree(s.fixedCells, m.blockRow, m.blockCol);
    FreeAmongFree(s.fixedCells, BlockCells(m.blockRow, m.blockCol));
    FreeAmongFree(s.fixedCells, AllCells());
    if |inBlock| >= 2 then
      Sudoku(Swapped(s.board, inBlock[m.first], inBlock[m.second]), s.fixedCells)
    else
      var anywhere := AllFree(s.fixedCells);
      if |anywhere| > 0 then
        Sudoku(Assigned(s.board, anywhere[m.cell], m.value), s.fixedCells)
      else
        s
  }

  /** The loop that collects `cells_in_block`. */
  method CellsInBlock(fixedCells: Mask, blockRow: nat, blockCol: nat) returns (cellsInBlock: seq<Cell>)
    requires blockRow < 3 && blockCol < 3
    ensures cellsInBlock == BlockFree(fixedCells, blockRow, blockCol)
  {
    ghost var blockCells := BlockCells(blockRow, blockCol);
    // `done` counts the block cells visited so far
    ghost var done := 0;
    cellsInBlock := [];
    for rOffset := 0 to 3
      invariant done == 3 * rOffset
      invariant cellsInBlock == FreeAmong(fixedCells, blockCells[..done])
    {
      for cOffset := 0 to 3
        invariant done == 3 * rOffset + cOffset
        invariant cellsInBlock == FreeAmong(fixedCells, blockCells[..done])
      {
        var r := blockRow * 3 + rOffset;
        var c := blockCol * 3 + cOffset;
        BlockCellAt(blockRow, blockCol, rOffset, cOffset);
        FreeAmongSnoc(fixedCells, blockCells, done);
        ghost var cell: Cell := blockCells[done];
        assert cell == (r, c);
        assert Free(fixedCells, cell) == !fixedCells[r][c];
        if !fixedCells[r][c] {
          cellsInBlock := cellsInBlock + [(r, c)];
        }
        done := done + 1;
      }
    }
    assert done == |blockCells|;
    assert blockCells[..done] == blockCells;
  }

  /** The loop that collects `non_fixed_cells`. */
  method NonFixedCells(fixedCells: Mask) returns (nonFixedCells: seq<Cell>)
    ensures nonFixedCells == AllFree(fixedCells)
  {
    ghost var allCells := AllCells();
    nonFixedCells := [];
    for r := 0 to 9
      invariant nonFixedCells == FreeAmong(fixedCells, allCells[..9 * r])
    {
      for c := 0 to 9
        invariant nonFixedCells == FreeAmong(fixedCells, allCells[..9 * r + c])
      {
        AllCellAt(r, c);
        FreeAmongSnoc(fixedCells, allCells, 9 * r + c);
        if !fixedCells[r][c] {
          nonFixedCells := nonFixedCells + [(r, c)];
        }
      }
    }
    assert allCells[..81] == allCells;
  }

  /** `generate_neighbor`. */
  method GenerateNeighbor(s: Sudoku, m: Move) returns (n: Sudoku)
    requires Fits(s, m)
    ensures n == Neighbor(s, m)
  {
    var newBoard := new Byte[9, 9]((r, c) requires 0 <= r < 9 && 0 <= c < 9 => s.board[r][c]);
    var blockRow, blockCol := m.blockRow, m.blockCol;

    var cellsInBlock := CellsInBlock(s.fixedCells, blockRow, blockCol);
    FreeAmongFree(s.fixedCells, BlockCells(blockRow, blockCol));
    if |cellsInBlock| >= 2 {
      var (r1, c1) := cellsInBlock[m.first];
      var (r2, c2) := cellsInBlock[m.second];
      var temp := newBoard[r1, c1];
      newBoard[r1, c1] := newBoard[r2, c2];
      newBoard[r2, c2] := temp;
      GridsEqual(ToBoard(newBoard), Swapped(s.board, (r1, c1), (r2, c2)));
    } else {
      var nonFixedCells := NonFixedCells(s.fixedCells);
      FreeAmongFree(s.fixedCells, AllCells());
      if |nonFixedCells| > 0 {
        var (r, c) := nonFixedCells[m.cell];
        // `m.value` stands for the outcome of the resampling loop: a value
        // in 1..9 other than the cell's current one
        var newVal := m.value;
        newBoard[r, c] := newVal;
        GridsEqual(ToBoard(newBoard), Assigned(s.board, (r, c), newVal));
      } else {
        GridsEqual(ToBoard(newBoard), s.board);
      }
    }
    n := Sudoku(ToBoard(newBoard), s.fixedCells);
  }

  // ---------------------------------------------------------------- properties

  /** A neighbour keeps the mask of givens, and every cell it changes is free. */
  lemma NeighborKeepsGivens(s: Sudoku, m: Move)
    requires Fits(s, m)
    ensures Neighbor(s, m).fixedCells == s.fixedCells
    ensures forall r, c :: 0 <= r < 9 && 0 <= c < 9 && s.fixedCells[r][c] ==>
      Neighbor(s, m).board[r][c] == s.board[r][c]
    ensures forall p :: p in Changed(s.board, Neighbor(s, m).board) ==> Free(s.fixedCells, p)
  {
    FreeAmongFree(s.fixedCells, BlockCells(m.blockRow, m.blockCol));
    FreeAmongFree(s.fixedCells, AllCells());
  }

  lemma ChangedBySwap(b: Board, p: Cell, q: Cell)
    requires InGrid(p) && InGrid(q)
    ensures Changed(b, Swapped(b, p, q)) <= {p, q}
    ensures At(Swapped(b, p, q), p) == At(b, q) && At(Swapped(b, p, q), q) == At(b, p)
  {
  }

  lemma ChangedByAssign(b: Board, p: Cell, v: Byte)
    requires InGrid(p) && v != At(b, p)
    ensures Changed(b, Assigned(b, p, v)) == {p}
  {
    assert p in Changed(b, Assigned(b, p, v));
  }

  /** The two cells the swap branch picks: distinct free cells of the chosen block. */
  lemma SwapCells(s: Sudoku, m: Move)
    requires Fits(s, m) && |BlockFree(s.fixedCells, m.blockRow, m.blockCol)| >= 2
    ensures
      var inBlock := BlockFree(s.fixedCells, m.blockRow, m.blockCol);
      var p, q := inBlock[m.first], inBlock[m.second];
      && p != q && Free(s.fixedCells, p) && Free(s.fixedCells, q)
      && p in BlockCells(m.blockRow, m.blockCol) && q in BlockCells(m.blockRow, m.blockCol)
  {
    var cells := BlockCells(m.blockRow, m.blockCol);
    var inBlock := BlockFree(s.fixedCells, m.blockRow, m.blockCol);
    BlockCellsInBlock(m.blockRow, m.blockCol);
    FreeAmongMembers(s.fixedCells, cells);
    assert inBlock[m.first] in inBlock && inBlock[m.second] in inBlock;
  }

  /** Exchanging two entries of a sequence keeps its multiset. */
  lemma ExchangeKeepsMultiset(s: seq<Byte>, i: nat, j: nat)
    requires i < |s| && j < |s|
    ensures multiset(s[i := s[j]][j := s[i]]) == multiset(s)
  {
  }

  /** Exchanging two cells of a block keeps the block's multiset of values. */
  lemma SwapKeepsBlock(b: Board, blockRow: nat, blockCol: nat, p: Cell, q: Cell)
    requires blockRow < 3 && blockCol < 3
    requires p in BlockCells(blockRow, blockCol) && q in BlockCells(blockRow, blockCol)
    ensures multiset(Block(Swapped(b, p, q), blockRow, blockCol)) == multiset(Block(b, blockRow, blockCol))
  {
    var cells := BlockCells(blockRow, blockCol);
    BlockCellsInBlock(blockRow, blockCol);
    var kp :| 0 <= kp < 9 && cells[kp] == p;
    var kq :| 0 <= kq < 9 && cells[kq] == q;
    var swapped := Swapped(b, p, q);
    var before, after := Block(b, blockRow, blockCol), Block(swapped, blockRow, blockCol);
    var exchanged := before[kp := before[kq]][kq := before[kp]];
    forall k | 0 <= k < 9 ensures after[k] == exchanged[k] {
      var x := cells[k];
      assert InGrid(x);
      assert after[k] == At(swapped, x) && before[k] == At(b, x);
      if k == kq {
      } else if k == kp {
        assert x == p && x != q;
      } else {
        assert x != p && x != q;
      }
    }
    assert after == exchanged;
    ExchangeKeepsMultiset(before, kp, kq);
  }

  /** Swap branch: only the two chosen cells can change; they are free,
      distinct and inside the chosen block, their values are exchanged, and
      the block keeps its multiset of values and hence its duplicate measure. */
  lemma SwapMove(s: Sudoku, m: Move)
    requires Fits(s, m) && |BlockFree(s.fixedCells, m.blockRow, m.blockCol)| >= 2
    ensures
      var inBlock := BlockFree(s.fixedCells, m.blockRow, m.blockCol);
      var p, q, n := inBlock[m.first], inBlock[m.second], Neighbor(s, m);
      && p != q && Free(s.fixedCells, p) && Free(s.fixedCells, q)
      && p.0 / 3 == q.0 / 3 == m.blockRow && p.1 / 3 == q.1 / 3 == m.blockCol
      && At(n.board, p) == At(s.board, q) && At(n.board, q) == At(s.board, p)
      && Changed(s.board, n.board) <= {p, q}
      && multiset(Block(n.board, m.blockRow, m.blockCol)) == multiset(Block(s.board, m.blockRow, m.blockCol))
      && Duplicates(Block(n.board, m.blockRow, m.blockCol)) == Duplicates(Block(s.board, m.blockRow, m.blockCol))
  {
    var br, bc := m.blockRow, m.blockCol;
    var inBlock := BlockFree(s.fixedCells, br, bc);
    var p, q := inBlock[m.first], inBlock[m.second];
    SwapCells(s, m);
    BlockCellsInBlock(br, bc);
    ChangedBySwap(s.board, p, q);
    SwapKeepsBlock(s.board, br, bc, p, q);
    DuplicatesOfPermutation(Block(Swapped(s.board, p, q), br, bc), Block(s.board, br, bc));
  }

  /** Fallback branch: some cell is free iff the grid's free-cell list is
      non-empty; then exactly one free cell changes, to a value in 1..9 other
      than its old one; otherwise the state comes back unchanged. */
  lemma FallbackMove(s: Sudoku, m: Move)
    requires Fits(s, m) && |BlockFree(s.fixedCells, m.blockRow, m.blockCol)| < 2
    ensures (exists r, c :: 0 <= r < 9 && 0 <= c < 9 && !s.fixedCells[r][c]) <==> |AllFree(s.fixedCells)| > 0
    ensures |AllFree(s.fixedCells)| > 0 ==>
      var p, n := AllFree(s.fixedCells)[m.cell], Neighbor(s, m);
      && Free(s.fixedCells, p)
      && Changed(s.board, n.board) == {p}
      && 1 <= At(n.board, p) <= 9
    ensures |AllFree(s.fixedCells)| == 0 ==> Neighbor(s, m) == s
  {
    var anywhere := AllFree(s.fixedCells);
    FreeAmongMembers(s.fixedCells, AllCells());
    if exists r, c :: 0 <= r < 9 && 0 <= c < 9 && !s.fixedCells[r][c] {
      var r, c :| 0 <= r < 9 && 0 <= c < 9 && !s.fixedCells[r][c];
      AllCellsComplete((r, c));
      assert (r, c) in anywhere;
    }
    if |anywhere| > 0 {
      var w := anywhere[0];
      assert Free(s.fixedCells, w);
      assert !s.fixedCells[w.0][w.1];
      var p := anywhere[m.cell];
      assert p in anywhere;
      ChangedByAssign(s.board, p, m.value);
    }
  }

  /** A neighbour of a board whose cells all hold 1..9 has the same property. */
  lemma NeighborKeepsFilled(s: Sudoku, m: Move)
    requires Fits(s, m) && Filled(s.board)
    ensures Filled(Neighbor(s, m).board)
  {
    FreeAmongFree(s.fixedCells, BlockCells(m.blockRow, m.blockCol));
    FreeAmongFree(s.fixedCells, AllCells());
  }
}

/** The 9x9 grid of a Sudoku state, its 27 constraint groups, and the
    duplicate measure that the energy function sums over those groups. */
module SudokuBoard {

  /** Cell values are stored as bytes (`u8`). */
  type Byte = x: int | 0 <= x < 256

  /** A 9x9 matrix of cell values; 0 stands for an empty cell. */
  type Board = b: seq<seq<Byte>> | |b| == 9 && forall r :: 0 <= r < 9 ==> |b[r]| == 9
    witness seq(9, _ => seq(9, _ => 0))

  /** A 9x9 matrix of flags; true marks a given (fixed) cell. */
  type Mask = m: seq<seq<bool>> | |m| == 9 && forall r :: 0 <= r < 9 ==> |m[r]| == 9
    witness seq(9, _ => seq(9, _ => false))

  /** A (row, column) coordinate pair. */
  type Cell = (nat, nat)

  /** The state of the puzzle. Building a value of this datatype is `Sudoku::new`. */
  datatype Sudoku = Sudoku(board: Board, fixedCells: Mask)

  datatype Option<T> = None | Some(value: T)

  predicate InGrid(p: Cell) { p.0 < 9 && p.1 < 9 }

  function At(b: Board, p: Cell): Byte
    requires InGrid(p)
  {
    b[p.0][p.1]
  }

  /** Every value is a digit 0..9, as `count_duplicates` indexes a 10-entry table with it. */
  predicate DigitsOnly(b: Board) {
    forall r, c :: 0 <= r < 9 && 0 <= c < 9 ==> b[r][c] <= 9
  }

  /** Every cell holds a value 1..9 (no cell is empty). */
  predicate Filled(b: Board) {
    forall r, c :: 0 <= r < 9 && 0 <= c < 9 ==> 1 <= b[r][c] <= 9
  }

  predicate NoDuplicates<T(==)>(s: seq<T>) {
    forall i, j :: 0 <= i < j < |s| ==> s[i] != s[j]
  }

  // ---------------------------------------------------------------- groups

  function Row(b: Board, r: nat): seq<Byte>
    requires r < 9
  {
    b[r]
  }

  function Column(b: Board, c: nat): seq<Byte>
    requires c < 9
  {
    seq(9, r requires 0 <= r < 9 => b[r][c])
  }

  /** The cells of block (blockRow, blockCol) in raster order, as the source visits them. */
  function BlockCells(blockRow: nat, blockCol: nat): (cells: seq<Cell>)
    requires blockRow < 3 && blockCol < 3
    ensures |cells| == 9
  {
    seq(9, k requires 0 <= k < 9 => (3 * blockRow + k / 3, 3 * blockCol + k % 3))
  }

  /** The 9 cells of a block are distinct grid cells whose coordinates divided
      by 3 give the block's coordinates. */
  lemma BlockCellsInBlock(blockRow: nat, blockCol: nat)
    requires blockRow < 3 && blockCol < 3
    ensures NoDuplicates(BlockCells(blockRow, blockCol))
    ensures forall k :: 0 <= k < 9 ==> InGrid(BlockCells(blockRow, blockCol)[k])
    ensures forall k :: 0 <= k < 9 ==>
      BlockCells(blockRow, blockCol)[k].0 / 3 == blockRow && BlockCells(blockRow, blockCol)[k].1 / 3 == blockCol
  {
  }

  /** Position 3 * r + c of a block is its cell at offset (r, c). */
  lemma BlockCellAt(blockRow: nat, blockCol: nat, r: nat, c: nat)
    requires blockRow < 3 && blockCol < 3 && r < 3 && c < 3
    ensures BlockCells(blockRow, blockCol)[3 * r + c] == (3 * blockRow + r, 3 * blockCol + c)
  {
    var k := 3 * r + c;
    assert k / 3 == r && k % 3 == c;
  }

  /** The values of block (blockRow, blockCol) in raster order. */
  function Block(b: Board, blockRow: nat, blockCol: nat): (vals: seq<Byte>)
    requires blockRow < 3 && blockCol < 3
    ensures |vals| == 9
  {
    var cells := BlockCells(blockRow, blockCol);
    seq(9, k requires 0 <= k < 9 => At(b, cells[k]))
  }

  lemma BlockAt(b: Board, blockRow: nat, blockCol: nat, r: nat, c: nat)
    requires blockRow < 3 && blockCol < 3 && r < 3 && c < 3
    ensures Block(b, blockRow, blockCol)[3 * r + c] == b[3 * blockRow + r][3 * blockCol + c]
  {
    BlockCellAt(blockRow, blockCol, r, c);
  }

  /** The 27 constraint groups in the order the energy function visits them:
      rows 0..8, columns 0..8, then blocks in row-major block order. */
  function Group(b: Board, g: nat): seq<Byte>
    requires g < 27
  {
    if g < 9 then Row(b, g)
    else if g < 18 then Column(b, g - 9)
    else Block(b, (g - 18) / 3, (g - 18) % 3)
  }

  // ---------------------------------------------------------------- duplicates

  /** Number of non-empty entries. */
  function NonZeroCount(s: seq<Byte>): (n: nat)
    ensures n <= |s|
  {
    if s == [] then 0
    else NonZeroCount(s[..|s| - 1]) + (if s[|s| - 1] != 0 then 1 else 0)
  }

  /** The distinct non-empty values. */
  function NonZeroValues(s: seq<Byte>): set<Byte> {
    set x | x in s && x != 0
  }

  /** Every non-empty value occurs at most once. */
  predicate NonZeroDistinct(s: seq<Byte>) {
    forall i, j :: 0 <= i < j < |s| && s[i] != 0 ==> s[i] != s[j]
  }

  lemma NonZeroValuesSnoc(s: seq<Byte>, x: Byte)
    ensures NonZeroValues(s + [x]) == NonZeroValues(s) + (if x != 0 then {x} else {})
  {
  }

  lemma PrefixSnoc<T>(s: seq<T>)
    requires s != []
    ensures s == s[..|s| - 1] + [s[|s| - 1]]
  {
  }

  /** There are never more distinct non-empty values than non-empty entries. */
  lemma {:induction false} ValuesAtMostCount(s: seq<Byte>)
    ensures |NonZeroValues(s)| <= NonZeroCount(s)
  {
    if s != [] {
      var init, x := s[..|s| - 1], s[|s| - 1];
      ValuesAtMostCount(init);
      PrefixSnoc(s);
      NonZeroValuesSnoc(init, x);
    }
  }

  /** A value that occurs k > 0 times contributes k - 1: the number of
      non-empty entries minus the number of distinct non-empty values. */
  function Duplicates(s: seq<Byte>): nat {
    ValuesAtMostCount(s);
    NonZeroCount(s) - |NonZeroValues(s)|
  }

  /** Appending one entry raises the duplicate measure by one exactly when
      the entry is non-empty and already present. */
  lemma DuplicatesSnoc(s: seq<Byte>, x: Byte)
    ensures Duplicates(s + [x]) == Duplicates(s) + (if x != 0 && x in s then 1 else 0)
  {
    assert (s + [x])[..|s + [x]| - 1] == s;
    NonZeroValuesSnoc(s, x);
    assert x != 0 ==> (x in NonZeroValues(s) <==> x in s);
  }

  /** The duplicate measure is zero iff the non-empty entries are pairwise distinct. */
  lemma {:induction false} DuplicatesZeroIff(s: seq<Byte>)
    ensures Duplicates(s) == 0 <==> NonZeroDistinct(s)
  {
    if s != [] {
      var init, x := s[..|s| - 1], s[|s| - 1];
      PrefixSnoc(s);
      DuplicatesZeroIff(init);
      DuplicatesSnoc(init, x);
      if x != 0 && x in init {
        var i :| 0 <= i < |init| && init[i] == x;
        assert s[i] == s[|s| - 1];
        assert !NonZeroDistinct(s);
      } else if NonZeroDistinct(init) {
        forall i, j | 0 <= i < j < |s| && s[i] != 0 ensures s[i] != s[j] {
          if j < |s| - 1 {
            assert s[i] == init[i] && s[j] == init[j];
          } else {
            assert s[i] == init[i];
          }
        }
      } else {
        var i, j :| 0 <= i < j < |init| && init[i] != 0 && init[i] == init[j];
        assert s[i] == init[i] && s[j] == init[j];
      }
    }
  }

  /** A group of 9 entries has at most 8 duplicates. */
  lemma DuplicatesAtMostEight(s: seq<Byte>)
    requires |s| == 9
    ensures Duplicates(s) <= 8
  {
    if NonZeroCount(s) > 0 {
      var i := NonZeroWitness(s);
      assert s[i] in NonZeroValues(s);
    }
  }

  /** Some entry is non-empty when the count of non-empty entries is positive. */
  lemma {:induction false} NonZeroWitness(s: seq<Byte>) returns (i: nat)
    requires NonZeroCount(s) > 0
    ensures i < |s| && s[i] != 0
  {
    if s[|s| - 1] != 0 {
      i := |s| - 1;
    } else {
      i := NonZeroWitness(s[..|s| - 1]);
    }
  }

  /** The number of non-empty entries is determined by the multiset of entries. */
  lemma {:induction false} NonZeroCountByMultiset(s: seq<Byte>)
    ensures NonZeroCount(s) == |s| - multiset(s)[0]
  {
    if s != [] {
      var init, x := s[..|s| - 1], s[|s| - 1];
      PrefixSnoc(s);
      NonZeroCountByMultiset(init);
      assert multiset(s) == multiset(init) + multiset{x};
    }
  }

  /** Rearranging a group does not change its duplicate measure. */
  lemma DuplicatesOfPermutation(s: seq<Byte>, t: seq<Byte>)
    requires multiset(s) == multiset(t)
    ensures Duplicates(s) == Duplicates(t)
  {
    NonZeroCountByMultiset(s);
    NonZeroCountByMultiset(t);
    assert |s| == |multiset(s)| == |multiset(t)| == |t|;
    forall x | true ensures x in NonZeroValues(s) <==> x in NonZeroValues(t) {
      assert x in s <==> x in multiset(s);
      assert x in t <==> x in multiset(t);
    }
    assert NonZeroValues(s) == NonZeroValues(t);
  }

  /** Two 9x9 matrices (boards or masks) are equal when they agree cell by cell. */
  lemma GridsEqual<T>(a: seq<seq<T>>, b: seq<seq<T>>)
    requires |a| == 9 && |b| == 9 && forall r :: 0 <= r < 9 ==> |a[r]| == 9 && |b[r]| == 9
    requires forall r, c :: 0 <= r < 9 && 0 <= c < 9 ==> a[r][c] == b[r][c]
    ensures a == b
  {
    forall r | 0 <= r < 9 ensures a[r] == b[r] {
      assert forall c :: 0 <= c < 9 ==> a[r][c] == b[r][c];
    }
  }

  /** The matrix held by a 9x9 array. */
  function ToBoard(a: array2<Byte>): Board
    reads a
    requires a.Length0 == 9 && a.Length1 == 9
  {
    seq(9, r requires 0 <= r < 9 reads a => seq(9, c requires 0 <= c < 9 reads a => a[r, c]))
  }

  /** The flags held by a 9x9 array. */
  function ToMask(a: array2<bool>): Mask
    reads a
    requires a.Length0 == 9 && a.Length1 == 9
  {
    seq(9, r requires 0 <= r < 9 reads a => seq(9, c requires 0 <= c < 9 reads a => a[r, c]))
  }
}

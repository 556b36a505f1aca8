/** `get_initial_state`: read the puzzle string into a board and a mask of
    givens, then fill every block's empty cells with that block's missing
    values in a shuffled order. */
module SudokuInitial {
  import opened SudokuBoard

  // ---------------------------------------------------------------- scan

  predicate IsDigit(ch: char) { '0' <= ch <= '9' }

  /** The characters the parser's filter lets through. */
  predicate Accepted(ch: char) { IsDigit(ch) || ch == '.' }

  /** The characters the filtered iterator yields, in order. */
  function Filtered(s: string): (f: string)
    ensures |f| <= |s|
    ensures forall k :: 0 <= k < |f| ==> Accepted(f[k])
  {
    if s == [] then []
    else Filtered(s[..|s| - 1]) + (if Accepted(s[|s| - 1]) then [s[|s| - 1]] else [])
  }

  /** The filter distributes over concatenation, so together with
      `FilteredSingle` it keeps exactly the accepted characters in order. */
  lemma {:induction false} FilteredAppend(a: string, b: string)
    ensures Filtered(a + b) == Filtered(a) + Filtered(b)
    decreases |b|
  {
    if b == [] {
      assert a + b == a;
    } else {
      var init := b[..|b| - 1];
      assert (a + b)[..|a + b| - 1] == a + init;
      assert b[..|b| - 1] == init;
      FilteredAppend(a, init);
    }
  }

  lemma FilteredSingle(ch: char)
    ensures Filtered([ch]) == if Accepted(ch) then [ch] else []
  {
    assert [ch][..0] == [];
  }

  function DigitValue(ch: char): (d: Byte)
    requires IsDigit(ch)
    ensures d <= 9
  {
    ch as int - '0' as int
  }

  /** The value the scan stores for cell number k (row k / 9, column k % 9):
      the digit of the k-th accepted character, or 0 for '.' or a missing character. */
  function ScanValue(f: string, k: nat): Byte {
    if k < |f| && IsDigit(f[k]) then DigitValue(f[k]) else 0
  }

  /** Whether the scan marks cell number k fixed: any digit does, '0' included. */
  predicate ScanFixed(f: string, k: nat) {
    k < |f| && IsDigit(f[k])
  }

  function ScanBoard(puzzle: string): Board {
    var f := Filtered(puzzle);
    seq(9, r requires 0 <= r < 9 => ScanRow(f, r))
  }

  function ScanRow(f: string, r: nat): (row: seq<Byte>)
    ensures |row| == 9
  {
    seq<Byte>(9, c requires 0 <= c < 9 => ScanValue(f, 9 * r + c))
  }

  function ScanMask(puzzle: string): Mask {
    var f := Filtered(puzzle);
    seq(9, r requires 0 <= r < 9 => ScanMaskRow(f, r))
  }

  function ScanMaskRow(f: string, r: nat): (row: seq<bool>)
    ensures |row| == 9
  {
    seq(9, c requires 0 <= c < 9 => ScanFixed(f, 9 * r + c))
  }

  /** The scan loop: cell i takes the character the filtered iterator yields
      at its i-th call, if any. The iterator is the sequence `chars` of the
      characters it has still to yield. */
  method ScanPuzzle(puzzle: string, board: array2<Byte>, fixedCells: array2<bool>)
    requires board.Length0 == 9 && board.Length1 == 9
    requires fixedCells.Length0 == 9 && fixedCells.Length1 == 9
    requires forall r, c :: 0 <= r < 9 && 0 <= c < 9 ==> board[r, c] == 0 && !fixedCells[r, c]
    modifies board, fixedCells
    ensures ToBoard(board) == ScanBoard(puzzle)
    ensures ToMask(fixedCells) == ScanMask(puzzle)
  {
    ghost var f := Filtered(puzzle);
    var chars := Filtered(puzzle);
    for i := 0 to 81
      invariant i <= |f| ==> chars == f[i..]
      invariant i > |f| ==> chars == []
      invariant forall r, c :: 0 <= r < 9 && 0 <= c < 9 ==>
        board[r, c] == (if 9 * r + c < i then ScanValue(f, 9 * r + c) else 0) &&
        fixedCells[r, c] == (9 * r + c < i && ScanFixed(f, 9 * r + c))
    {
      var r, c := i / 9, i % 9;
      assert 9 * r + c == i;
      if chars != [] {
        var ch := chars[0];
        chars := chars[1..];
        if IsDigit(ch) {
          board[r, c] := DigitValue(ch);
          fixedCells[r, c] := true;
        }
      }
    }
    GridsEqual(ToBoard(board), ScanBoard(puzzle));
    GridsEqual(ToMask(fixedCells), ScanMask(puzzle));
  }

  /** Scanned values are digits. */
  lemma ScanDigits(puzzle: string)
    ensures DigitsOnly(ScanBoard(puzzle))
  {
    var f := Filtered(puzzle);
    forall r, c | 0 <= r < 9 && 0 <= c < 9 ensures ScanBoard(puzzle)[r][c] <= 9 {
      assert ScanBoard(puzzle)[r][c] == ScanValue(f, 9 * r + c);
    }
  }

  /** Cell (k / 9, k % 9) is fixed iff the k-th accepted character exists and
      is a digit; it then holds that digit, otherwise it is 0. */
  lemma ScanCell(puzzle: string, r: nat, c: nat)
    requires r < 9 && c < 9
    ensures var f, k := Filtered(puzzle), 9 * r + c;
      && (ScanMask(puzzle)[r][c] <==> k < |f| && IsDigit(f[k]))
      && (ScanMask(puzzle)[r][c] ==> ScanBoard(puzzle)[r][c] == DigitValue(f[k]))
      && (!ScanMask(puzzle)[r][c] ==> ScanBoard(puzzle)[r][c] == 0)
  {
    var f := Filtered(puzzle);
    assert ScanMask(puzzle)[r] == ScanMaskRow(f, r);
    assert ScanBoard(puzzle)[r] == ScanRow(f, r);
  }

  // ---------------------------------------------------------------- missing values

  /** `(1..=9).collect()`. */
  function OneToNine(): seq<Byte> {
    [1, 2, 3, 4, 5, 6, 7, 8, 9]
  }

  /** `iter().position`: the first index holding x. */
  function FirstIndex(s: seq<Byte>, x: Byte): (pos: Option<nat>)
    ensures pos.Some? ==>
      && pos.value < |s| && s[pos.value] == x
      && (forall j :: 0 <= j < pos.value ==> s[j] != x)
    ensures pos.None? <==> x !in s
  {
    if s == [] then None
    else if s[0] == x then Some(0)
    else match FirstIndex(s[1..], x)
      case None => None
      case Some(i) => Some(i + 1)
  }

  /** `if let Some(pos) = position(..) { remove(pos) }`: x is removed at its
      first occurrence, if it occurs. */
  function RemoveFirst(avail: seq<Byte>, x: Byte): seq<Byte> {
    match FirstIndex(avail, x)
      case None => avail
      case Some(pos) => avail[..pos] + avail[pos + 1..]
  }

  /** One step of the removal loop: only non-empty values are removed. */
  function RemoveGiven(avail: seq<Byte>, val: Byte): seq<Byte> {
    if val == 0 then avail else RemoveFirst(avail, val)
  }

  /** The list after the removal loop has visited the values `vals` in order. */
  function RemoveGivens(avail: seq<Byte>, vals: seq<Byte>): seq<Byte> {
    if vals == [] then avail
    else RemoveGiven(RemoveGivens(avail, vals[..|vals| - 1]), vals[|vals| - 1])
  }

  /** The values a block is missing, in the order the removal loop leaves them. */
  function Available(vals: seq<Byte>): seq<Byte> {
    RemoveGivens(OneToNine(), vals)
  }

  lemma RemoveGivenFacts(avail: seq<Byte>, val: Byte)
    requires NoDuplicates(avail)
    ensures NoDuplicates(RemoveGiven(avail, val))
    ensures forall y :: y in RemoveGiven(avail, val) <==> y in avail && (val == 0 || y != val)
    ensures |RemoveGiven(avail, val)| + (if val != 0 then 1 else 0) >= |avail|
  {
    if val != 0 {
      var pos := FirstIndex(avail, val);
      if pos.Some? {
        var i := pos.value;
        var rest := avail[..i] + avail[i + 1..];
        forall y ensures y in rest <==> y in avail && y != val {
          if y in avail && y != val {
            var j :| 0 <= j < |avail| && avail[j] == y;
            assert j != i;
            if j < i {
              assert rest[j] == y;
            } else {
              assert rest[j - 1] == y;
            }
          }
        }
        forall a, b | 0 <= a < b < |rest| ensures rest[a] != rest[b] {
          var a', b' := if a < i then a else a + 1, if b < i then b else b + 1;
          assert rest[a] == avail[a'] && rest[b] == avail[b'];
        }
      }
    }
  }

  /** The removal loop leaves exactly the listed values that are not among
      the non-empty `vals`, without repeats, and removes at most one entry
      per non-empty value. */
  lemma {:induction false} RemoveGivensFacts(avail: seq<Byte>, vals: seq<Byte>)
    requires NoDuplicates(avail)
    ensures NoDuplicates(RemoveGivens(avail, vals))
    ensures forall y :: y in RemoveGivens(avail, vals) <==> y in avail && y !in NonZeroValues(vals)
    ensures |RemoveGivens(avail, vals)| + NonZeroCount(vals) >= |avail|
  {
    if vals != [] {
      var init, x := vals[..|vals| - 1], vals[|vals| - 1];
      PrefixSnoc(vals);
      RemoveGivensFacts(avail, init);
      RemoveGivenFacts(RemoveGivens(avail, init), x);
      NonZeroValuesSnoc(init, x);
    }
  }

  lemma RemoveGivensSnoc(avail: seq<Byte>, vals: seq<Byte>, k: nat)
    requires k < |vals|
    ensures RemoveGivens(avail, vals[..k + 1]) == RemoveGiven(RemoveGivens(avail, vals[..k]), vals[k])
  {
    assert vals[..k + 1][..k] == vals[..k];
  }

  /** Number of empty entries. */
  function ZeroCount(s: seq<Byte>): nat {
    |s| - NonZeroCount(s)
  }

  /** The missing values of a block are the values 1..9 absent from its
      givens, each once, and there are at least as many as empty cells. */
  lemma AvailableFacts(vals: seq<Byte>)
    ensures NoDuplicates(Available(vals))
    ensures forall y :: y in Available(vals) <==> 1 <= y <= 9 && y !in NonZeroValues(vals)
    ensures |vals| == 9 ==> ZeroCount(vals) <= |Available(vals)|
  {
    RemoveGivensFacts(OneToNine(), vals);
  }

  // ---------------------------------------------------------------- shuffle

  /** A rearrangement of the positions 0..n-1. */
  predicate IsPermutation(perm: seq<nat>, n: nat) {
    |perm| == n &&
    (forall i :: 0 <= i < n ==> perm[i] < n) &&
    (forall i, j :: 0 <= i < j < n ==> perm[i] != perm[j])
  }

  /** `shuffle`: the list rearranged by the permutation the generator picked. */
  function Permuted(s: seq<Byte>, perm: seq<nat>): (t: seq<Byte>)
    requires IsPermutation(perm, |s|)
    ensures |t| == |s|
  {
    seq(|s|, i requires 0 <= i < |s| => s[perm[i]])
  }

  /** Shuffling only rearranges: no value is added and none is repeated. */
  lemma PermutedFacts(s: seq<Byte>, perm: seq<nat>)
    requires IsPermutation(perm, |s|)
    ensures forall i :: 0 <= i < |s| ==> Permuted(s, perm)[i] in s
    ensures NoDuplicates(s) ==> NoDuplicates(Permuted(s, perm))
  {
  }

  // ---------------------------------------------------------------- fill

  /** Extending a prefix by entry k adds one empty entry exactly when that entry is empty. */
  lemma ZeroCountSnoc(s: seq<Byte>, k: nat)
    requires k < |s|
    ensures ZeroCount(s[..k + 1]) == ZeroCount(s[..k]) + (if s[k] == 0 then 1 else 0)
  {
    assert s[..k + 1][..k] == s[..k];
  }

  lemma {:induction false} ZeroCountMonotone(s: seq<Byte>, k: nat, m: nat)
    requires k <= m <= |s|
    ensures ZeroCount(s[..k]) <= ZeroCount(s[..m])
    decreases m - k
  {
    if k < m {
      ZeroCountSnoc(s, k);
      ZeroCountMonotone(s, k + 1, m);
    }
  }

  lemma ZeroRank(s: seq<Byte>, k: nat)
    requires k < |s| && s[k] == 0
    ensures ZeroCount(s[..k]) < ZeroCount(s)
  {
    ZeroCountSnoc(s, k);
    ZeroCountMonotone(s, k + 1, |s|);
    assert s[..|s|] == s;
  }

  /** An empty entry at position k is the ZeroCount(s[..k])-th empty entry,
      so distinct empty entries get distinct ranks below ZeroCount(s). */
  lemma ZeroRanks(s: seq<Byte>)
    ensures forall k :: 0 <= k < |s| && s[k] == 0 ==> ZeroCount(s[..k]) < ZeroCount(s)
    ensures forall k, m :: 0 <= k < m < |s| && s[k] == 0 ==> ZeroCount(s[..k]) < ZeroCount(s[..m])
  {
    forall k | 0 <= k < |s| && s[k] == 0 ensures ZeroCount(s[..k]) < ZeroCount(s) {
      ZeroCountSnoc(s, k);
      ZeroCountMonotone(s, k + 1, |s|);
      assert s[..|s|] == s;
    }
    forall k, m | 0 <= k < m < |s| && s[k] == 0 ensures ZeroCount(s[..k]) < ZeroCount(s[..m]) {
      ZeroCountSnoc(s, k);
      ZeroCountMonotone(s, k + 1, m);
    }
  }

  /** The block after the fill loop: givens stay, and the empty cells take
      the pool's values in raster order. */
  function FilledBlock(vals: seq<Byte>, pool: seq<Byte>): (filled: seq<Byte>)
    requires ZeroCount(vals) <= |pool|
    ensures |filled| == |vals|
  {
    seq(|vals|, k requires 0 <= k < |vals| => FillValue(vals, pool, k))
  }

  /** Entry k of the filled block. */
  function FillValue(vals: seq<Byte>, pool: seq<Byte>, k: nat): Byte
    requires ZeroCount(vals) <= |pool| && k < |vals|
  {
    if vals[k] != 0 then vals[k]
    else ZeroRank(vals, k); pool[ZeroCount(vals[..k])]
  }

  /** The shuffled missing values of a block. */
  function Pool(vals: seq<Byte>, perm: seq<nat>): (pool: seq<Byte>)
    requires IsPermutation(perm, |Available(vals)|)
    ensures |pool| == |Available(vals)|
    ensures |vals| == 9 ==> ZeroCount(vals) <= |pool|
  {
    AvailableFacts(vals);
    Permuted(Available(vals), perm)
  }

  /** Filling a block keeps its givens; each empty cell receives a value
      1..9 that is not among the block's givens, and no two empty cells
      receive the same value. */
  lemma FillFacts(vals: seq<Byte>, perm: seq<nat>)
    requires |vals| == 9 && IsPermutation(perm, |Available(vals)|)
    ensures var filled := FilledBlock(vals, Pool(vals, perm));
      && (forall k :: 0 <= k < 9 && vals[k] != 0 ==> filled[k] == vals[k])
      && (forall k :: 0 <= k < 9 && vals[k] == 0 ==>
            filled[k] in Available(vals) && 1 <= filled[k] <= 9 && filled[k] !in NonZeroValues(vals))
      && (forall k, m :: 0 <= k < m < 9 && vals[k] == 0 && vals[m] == 0 ==> filled[k] != filled[m])
  {
    AvailableFacts(vals);
    PermutedFacts(Available(vals), perm);
    ZeroRanks(vals);
  }

  /** Position of cell (r, c) within its block, in raster order. */
  function BlockOffset(r: nat, c: nat): nat {
    3 * (r % 3) + c % 3
  }

  /** Cell (r, c) of the board is entry BlockOffset(r, c) of its block. */
  lemma BlockEntry(b: Board, r: nat, c: nat)
    requires r < 9 && c < 9
    ensures Block(b, r / 3, c / 3)[BlockOffset(r, c)] == b[r][c]
  {
    BlockAt(b, r / 3, c / 3, r % 3, c % 3);
  }

  /** The cells of block (blockRow, blockCol) of the array hold the values
      the board `b` has there. */
  ghost predicate BlockHolds(board: array2<Byte>, b: Board, blockRow: nat, blockCol: nat)
    reads board
    requires board.Length0 == 9 && board.Length1 == 9
  {
    forall r, c :: 0 <= r < 9 && 0 <= c < 9 && r / 3 == blockRow && c / 3 == blockCol ==>
      board[r, c] == b[r][c]
  }

  /** The removal loop of one block: the values 1..9 not among its givens. */
  method MissingValues(board: array2<Byte>, blockRow: nat, blockCol: nat, ghost b: Board)
    returns (available: seq<Byte>)
    requires board.Length0 == 9 && board.Length1 == 9 && blockRow < 3 && blockCol < 3
    requires BlockHolds(board, b, blockRow, blockCol)
    ensures available == Available(Block(b, blockRow, blockCol))
  {
    ghost var vals := Block(b, blockRow, blockCol);
    available := OneToNine();
    for r := 0 to 3
      invariant available == RemoveGivens(OneToNine(), vals[..3 * r])
    {
      for c := 0 to 3
        invariant available == RemoveGivens(OneToNine(), vals[..3 * r + c])
      {
        var val := board[blockRow * 3 + r, blockCol * 3 + c];
        BlockVisit(b, blockRow, blockCol, r, c);
        RemoveGivensSnoc(OneToNine(), vals, 3 * r + c);
        if val != 0 {
          available := RemoveFirst(available, val);
        }
      }
    }
    assert vals[..9] == vals;
  }

  /** The cell the block loops visit at step k = 3 * r + c, and its entry in the block. */
  lemma BlockVisit(b: Board, blockRow: nat, blockCol: nat, r: nat, c: nat)
    requires blockRow < 3 && blockCol < 3 && r < 3 && c < 3
    ensures BlockCells(blockRow, blockCol)[3 * r + c] == (blockRow * 3 + r, blockCol * 3 + c)
    ensures (blockRow * 3 + r) / 3 == blockRow && (blockCol * 3 + c) / 3 == blockCol
    ensures Block(b, blockRow, blockCol)[3 * r + c] == b[blockRow * 3 + r][blockCol * 3 + c]
  {
    BlockCellAt(blockRow, blockCol, r, c);
    BlockAt(b, blockRow, blockCol, r, c);
  }

  /** Absolute row (or column) of offset `offset` within block row (or column) `block`. */
  function Coord(block: nat, offset: nat): nat {
    block * 3 + offset
  }

  /** How far the fill loop of block (blockRow, blockCol) has come: the
      first `done` cells of the block hold their filled values and the
      others still hold the values of `b`. */
  ghost predicate FillProgress(board: array2<Byte>, b: Board, blockRow: nat, blockCol: nat,
                               available: seq<Byte>, done: nat)
    reads board
    requires board.Length0 == 9 && board.Length1 == 9 && blockRow < 3 && blockCol < 3
    requires ZeroCount(Block(b, blockRow, blockCol)) <= |available|
  {
    forall r, c :: 0 <= r < 3 && 0 <= c < 3 ==>
      board[Coord(blockRow, r), Coord(blockCol, c)] ==
        if 3 * r + c < done then FillValue(Block(b, blockRow, blockCol), available, 3 * r + c)
        else b[Coord(blockRow, r)][Coord(blockCol, c)]
  }

  /** The body of the fill loop at cell (r, c) of the block: an empty cell
      takes `available[index]` and `index` advances. */
  method FillCell(board: array2<Byte>, blockRow: nat, blockCol: nat, r: nat, c: nat,
                  available: seq<Byte>, index0: nat, ghost b: Board) returns (index: nat)
    requires board.Length0 == 9 && board.Length1 == 9 && blockRow < 3 && blockCol < 3 && r < 3 && c < 3
    requires ZeroCount(Block(b, blockRow, blockCol)) <= |available|
    requires index0 == ZeroCount(Block(b, blockRow, blockCol)[..3 * r + c])
    requires FillProgress(board, b, blockRow, blockCol, available, 3 * r + c)
    modifies board
    ensures index == ZeroCount(Block(b, blockRow, blockCol)[..3 * r + c + 1])
    ensures FillProgress(board, b, blockRow, blockCol, available, 3 * r + c + 1)
    ensures forall r', c' :: 0 <= r' < 9 && 0 <= c' < 9 && (r' != Coord(blockRow, r) || c' != Coord(blockCol, c)) ==>
      board[r', c'] == old(board[r', c'])
  {
    ghost var vals := Block(b, blockRow, blockCol);
    ghost var done := 3 * r + c;
    index := index0;
    var absR := blockRow * 3 + r;
    var absC := blockCol * 3 + c;
    BlockVisit(b, blockRow, blockCol, r, c);
    ZeroCountSnoc(vals, done);
    assert absR == Coord(blockRow, r) && absC == Coord(blockCol, c);
    assert board[absR, absC] == vals[done];
    if board[absR, absC] == 0 {
      ZeroRank(vals, done);
      board[absR, absC] := available[index];
      index := index + 1;
    }
    assert board[absR, absC] == FillValue(vals, available, done);
    forall r', c' | 0 <= r' < 3 && 0 <= c' < 3 && (r' != r || c' != c)
      ensures board[Coord(blockRow, r'), Coord(blockCol, c')] == old(board[Coord(blockRow, r'), Coord(blockCol, c')])
    {
      assert Coord(blockRow, r') != absR || Coord(blockCol, c') != absC;
    }
  }

  /** The inner loop of the fill phase: row r of the block. */
  method FillRow(board: array2<Byte>, blockRow: nat, blockCol: nat, r: nat, available: seq<Byte>,
                 index0: nat, ghost b: Board) returns (index: nat)
    requires board.Length0 == 9 && board.Length1 == 9 && blockRow < 3 && blockCol < 3 && r < 3
    requires ZeroCount(Block(b, blockRow, blockCol)) <= |available|
    requires index0 == ZeroCount(Block(b, blockRow, blockCol)[..3 * r])
    requires FillProgress(board, b, blockRow, blockCol, available, 3 * r)
    modifies board
    ensures index == ZeroCount(Block(b, blockRow, blockCol)[..3 * r + 3])
    ensures FillProgress(board, b, blockRow, blockCol, available, 3 * r + 3)
    ensures forall r', c' :: 0 <= r' < 9 && 0 <= c' < 9 && !(r' / 3 == blockRow && c' / 3 == blockCol) ==>
      board[r', c'] == old(board[r', c'])
  {
    index := index0;
    for c := 0 to 3
      invariant index == ZeroCount(Block(b, blockRow, blockCol)[..3 * r + c])
      invariant FillProgress(board, b, blockRow, blockCol, available, 3 * r + c)
      invariant forall r', c' :: 0 <= r' < 9 && 0 <= c' < 9 && !(r' / 3 == blockRow && c' / 3 == blockCol) ==>
        board[r', c'] == old(board[r', c'])
    {
      assert Coord(blockRow, r) / 3 == blockRow && Coord(blockCol, c) / 3 == blockCol;
      index := FillCell(board, blockRow, blockCol, r, c, available, index, b);
    }
  }

  /** The fill loop of one block: each empty cell, in raster order, takes
      the next value of `available`. Cells outside the block are untouched. */
  method FillCells(board: array2<Byte>, blockRow: nat, blockCol: nat, available: seq<Byte>, ghost b: Board)
    requires board.Length0 == 9 && board.Length1 == 9 && blockRow < 3 && blockCol < 3
    requires BlockHolds(board, b, blockRow, blockCol)
    requires ZeroCount(Block(b, blockRow, blockCol)) <= |available|
    modifies board
    ensures forall r, c :: 0 <= r < 9 && 0 <= c < 9 ==>
      board[r, c] == if r / 3 == blockRow && c / 3 == blockCol
                     then FilledBlock(Block(b, blockRow, blockCol), available)[BlockOffset(r, c)]
                     else old(board[r, c])
  {
    ghost var vals := Block(b, blockRow, blockCol);
    var index := 0;
    for r := 0 to 3
      invariant index == ZeroCount(vals[..3 * r])
      invariant FillProgress(board, b, blockRow, blockCol, available, 3 * r)
      invariant forall r', c' :: 0 <= r' < 9 && 0 <= c' < 9 && !(r' / 3 == blockRow && c' / 3 == blockCol) ==>
        board[r', c'] == old(board[r', c'])
    {
      index := FillRow(board, blockRow, blockCol, r, available, index, b);
    }
    forall r, c | 0 <= r < 9 && 0 <= c < 9 && r / 3 == blockRow && c / 3 == blockCol
      ensures board[r, c] == FilledBlock(vals, available)[BlockOffset(r, c)]
    {
      assert r == Coord(blockRow, r % 3) && c == Coord(blockCol, c % 3);
    }
  }

  /** One block of the fill phase: the removal loop, the shuffle, then the
      fill loop. The block's cells hold the values of `b`. */
  method FillBlock(board: array2<Byte>, blockRow: nat, blockCol: nat, perm: seq<nat>, ghost b: Board)
    requires board.Length0 == 9 && board.Length1 == 9 && blockRow < 3 && blockCol < 3
    requires BlockHolds(board, b, blockRow, blockCol)
    requires IsPermutation(perm, |Available(Block(b, blockRow, blockCol))|)
    modifies board
    ensures var vals := Block(b, blockRow, blockCol);
      forall r, c :: 0 <= r < 9 && 0 <= c < 9 ==>
        board[r, c] == if r / 3 == blockRow && c / 3 == blockCol
                       then FilledBlock(vals, Pool(vals, perm))[BlockOffset(r, c)]
                       else old(board[r, c])
  {
    var available := MissingValues(board, blockRow, blockCol, b);
    available := Permuted(available, perm);
    assert available == Pool(Block(b, blockRow, blockCol), perm);
    FillCells(board, blockRow, blockCol, available, b);
  }

  // ---------------------------------------------------------------- whole state

  /** One shuffle per block, block k = 3 * blockRow + blockCol, each a
      permutation of that block's missing values. */
  predicate ShufflesFit(b: Board, perms: seq<seq<nat>>) {
    |perms| == 9 &&
    forall k :: 0 <= k < 9 ==> IsPermutation(perms[k], |Available(Block(b, k / 3, k % 3))|)
  }

  function BlockPool(b: Board, perms: seq<seq<nat>>, blockRow: nat, blockCol: nat): (pool: seq<Byte>)
    requires ShufflesFit(b, perms) && blockRow < 3 && blockCol < 3
    ensures ZeroCount(Block(b, blockRow, blockCol)) <= |pool|
  {
    var k := 3 * blockRow + blockCol;
    assert k / 3 == blockRow && k % 3 == blockCol;
    Pool(Block(b, blockRow, blockCol), perms[k])
  }

  /** The board after the fill phase, cell by cell. */
  function FilledBoard(b: Board, perms: seq<seq<nat>>): Board
    requires ShufflesFit(b, perms)
  {
    seq(9, r requires 0 <= r < 9 => FilledRow(b, perms, r))
  }

  function FilledRow(b: Board, perms: seq<seq<nat>>, r: nat): (row: seq<Byte>)
    requires ShufflesFit(b, perms) && r < 9
    ensures |row| == 9
  {
    seq<Byte>(9, c requires 0 <= c < 9 =>
      FilledBlock(Block(b, r / 3, c / 3), BlockPool(b, perms, r / 3, c / 3))[BlockOffset(r, c)])
  }

  /** The state `get_initial_state` returns. */
  function InitialState(puzzle: string, perms: seq<seq<nat>>): Sudoku
    requires ShufflesFit(ScanBoard(puzzle), perms)
  {
    Sudoku(FilledBoard(ScanBoard(puzzle), perms), ScanMask(puzzle))
  }

  /** Index 3 * blockRow + blockCol of the block holding cell (r, c). */
  function BlockIndex(r: nat, c: nat): nat {
    3 * (r / 3) + c / 3
  }

  /** Inside block (blockRow, blockCol) the filled board holds the block's filled values. */
  lemma FilledBoardInBlock(b: Board, perms: seq<seq<nat>>, blockRow: nat, blockCol: nat)
    requires ShufflesFit(b, perms) && blockRow < 3 && blockCol < 3
    ensures forall r, c :: 0 <= r < 9 && 0 <= c < 9 && r / 3 == blockRow && c / 3 == blockCol ==>
      FilledBoard(b, perms)[r][c] ==
        FilledBlock(Block(b, blockRow, blockCol), BlockPool(b, perms, blockRow, blockCol))[BlockOffset(r, c)]
  {
    forall r, c | 0 <= r < 9 && 0 <= c < 9 && r / 3 == blockRow && c / 3 == blockCol
      ensures FilledBoard(b, perms)[r][c] ==
        FilledBlock(Block(b, blockRow, blockCol), BlockPool(b, perms, blockRow, blockCol))[BlockOffset(r, c)]
    {
      assert FilledBoard(b, perms)[r] == FilledRow(b, perms, r);
    }
  }

  /** The first k blocks of the array hold the values of `target`, the
      others those of `scanned`. */
  ghost predicate BoardProgress(board: array2<Byte>, scanned: Board, target: Board, k: nat)
    reads board
    requires board.Length0 == 9 && board.Length1 == 9
  {
    forall r, c :: 0 <= r < 9 && 0 <= c < 9 ==>
      board[r, c] == if BlockIndex(r, c) < k then target[r][c] else scanned[r][c]
  }

  /** The body of the block loops: fill block (blockRow, blockCol). */
  method FillNextBlock(board: array2<Byte>, blockRow: nat, blockCol: nat, perms: seq<seq<nat>>,
                       ghost scanned: Board)
    requires board.Length0 == 9 && board.Length1 == 9 && blockRow < 3 && blockCol < 3
    requires ShufflesFit(scanned, perms)
    requires BoardProgress(board, scanned, FilledBoard(scanned, perms), 3 * blockRow + blockCol)
    modifies board
    ensures BoardProgress(board, scanned, FilledBoard(scanned, perms), 3 * blockRow + blockCol + 1)
  {
    ghost var k := 3 * blockRow + blockCol;
    assert k / 3 == blockRow && k % 3 == blockCol;
    assert forall r, c :: 0 <= r < 9 && 0 <= c < 9 ==>
      (BlockIndex(r, c) == k <==> r / 3 == blockRow && c / 3 == blockCol);
    FillBlock(board, blockRow, blockCol, perms[3 * blockRow + blockCol], scanned);
    FilledBoardInBlock(scanned, perms, blockRow, blockCol);
  }

  /** `get_initial_state`: the scan, then the nine blocks in row-major order. */
  method GetInitialState(puzzle: string, perms: seq<seq<nat>>) returns (s: Sudoku)
    requires ShufflesFit(ScanBoard(puzzle), perms)
    ensures s == InitialState(puzzle, perms)
  {
    var board := new Byte[9, 9]((r, c) => 0);
    var fixedCells := new bool[9, 9]((r, c) => false);
    ScanPuzzle(puzzle, board, fixedCells);
    ghost var scanned := ScanBoard(puzzle);
    ghost var target := FilledBoard(scanned, perms);
    assert forall r, c :: 0 <= r < 9 && 0 <= c < 9 ==> board[r, c] == ToBoard(board)[r][c];
    for blockRow := 0 to 3
      invariant ToMask(fixedCells) == ScanMask(puzzle)
      invariant BoardProgress(board, scanned, target, 3 * blockRow)
    {
      for blockCol := 0 to 3
        invariant ToMask(fixedCells) == ScanMask(puzzle)
        invariant BoardProgress(board, scanned, target, 3 * blockRow + blockCol)
      {
        FillNextBlock(board, blockRow, blockCol, perms, scanned);
      }
    }
    assert forall r, c :: 0 <= r < 9 && 0 <= c < 9 ==> BlockIndex(r, c) < 9;
    GridsEqual(ToBoard(board), target);
    s := Sudoku(ToBoard(board), ToMask(fixedCells));
  }

  // ---------------------------------------------------------------- properties

  /** Cell (r, c) of the filled board is entry BlockOffset(r, c) of its filled block. */
  lemma FilledCell(b: Board, perms: seq<seq<nat>>, r: nat, c: nat)
    requires ShufflesFit(b, perms) && r < 9 && c < 9
    ensures var vals, k := Block(b, r / 3, c / 3), BlockOffset(r, c);
      && k < 9 && vals[k] == b[r][c]
      && IsPermutation(perms[3 * (r / 3) + c / 3], |Available(vals)|)
      && FilledBoard(b, perms)[r][c] == FilledBlock(vals, Pool(vals, perms[3 * (r / 3) + c / 3]))[k]
  {
    var k := 3 * (r / 3) + c / 3;
    assert k / 3 == r / 3 && k % 3 == c / 3;
    BlockEntry(b, r, c);
    FilledBoardInBlock(b, perms, r / 3, c / 3);
  }

  /** After the fill every cell holds 1..9, every given keeps its value, and
      every empty cell holds one of its block's missing values. */
  lemma InitialFacts(puzzle: string, perms: seq<seq<nat>>)
    requires ShufflesFit(ScanBoard(puzzle), perms)
    ensures var b, s := ScanBoard(puzzle), InitialState(puzzle, perms);
      && Filled(s.board)
      && (forall r, c :: 0 <= r < 9 && 0 <= c < 9 && b[r][c] != 0 ==> s.board[r][c] == b[r][c])
      && (forall r, c :: 0 <= r < 9 && 0 <= c < 9 && b[r][c] == 0 ==>
            s.board[r][c] in Available(Block(b, r / 3, c / 3)))
  {
    var b := ScanBoard(puzzle);
    ScanDigits(puzzle);
    forall r, c | 0 <= r < 9 && 0 <= c < 9
      ensures var v := FilledBoard(b, perms)[r][c];
        && 1 <= v <= 9
        && (b[r][c] != 0 ==> v == b[r][c])
        && (b[r][c] == 0 ==> v in Available(Block(b, r / 3, c / 3)))
    {
      FilledCell(b, perms, r, c);
      FillFacts(Block(b, r / 3, c / 3), perms[3 * (r / 3) + c / 3]);
    }
  }

  /** A duplicate-free sequence drawn from S is no longer than S has elements. */
  lemma {:induction false} DistinctWithin(s: seq<Byte>, S: set<Byte>)
    requires NoDuplicates(s) && forall i :: 0 <= i < |s| ==> s[i] in S
    ensures |s| <= |S|
  {
    if s != [] {
      var init, x := s[..|s| - 1], s[|s| - 1];
      assert forall i :: 0 <= i < |init| ==> init[i] == s[i] && s[i] != x;
      DistinctWithin(init, S - {x});
    }
  }

  /** Nine distinct values 1..9 are all of 1..9. */
  lemma AllDigits(s: seq<Byte>)
    requires |s| == 9 && NoDuplicates(s) && forall i :: 0 <= i < 9 ==> 1 <= s[i] <= 9
    ensures forall v :: 1 <= v <= 9 ==> v in s
  {
    forall v | 1 <= v <= 9 ensures v in s {
      DigitPresent(s, v);
    }
  }

  lemma DigitPresent(s: seq<Byte>, v: Byte)
    requires |s| == 9 && NoDuplicates(s) && forall i :: 0 <= i < 9 ==> 1 <= s[i] <= 9
    requires 1 <= v <= 9
    ensures v in s
  {
    if v !in s {
      var digits: set<Byte> := {1, 2, 3, 4, 5, 6, 7, 8, 9};
      assert |digits| == 9 && v in digits;
      var rest := digits - {v};
      assert |rest| == |digits| - 1;
      DistinctWithin(s, rest);
    }
  }

  /** The block of the filled board is the filled block. */
  lemma FilledBoardBlock(b: Board, perms: seq<seq<nat>>, blockRow: nat, blockCol: nat)
    requires ShufflesFit(b, perms) && blockRow < 3 && blockCol < 3
    ensures Block(FilledBoard(b, perms), blockRow, blockCol) ==
      FilledBlock(Block(b, blockRow, blockCol), BlockPool(b, perms, blockRow, blockCol))
  {
    var cells := BlockCells(blockRow, blockCol);
    BlockCellsInBlock(blockRow, blockCol);
    FilledBoardInBlock(b, perms, blockRow, blockCol);
    forall k | 0 <= k < 9
      ensures BlockOffset(cells[k].0, cells[k].1) == k
    {
      BlockCellAt(blockRow, blockCol, k / 3, k % 3);
    }
  }

  /** A block whose givens are pairwise distinct ends as a permutation of
      1..9, so it contributes nothing to the energy. */
  lemma InitialBlockPermutation(puzzle: string, perms: seq<seq<nat>>, blockRow: nat, blockCol: nat)
    requires ShufflesFit(ScanBoard(puzzle), perms) && blockRow < 3 && blockCol < 3
    requires NonZeroDistinct(Block(ScanBoard(puzzle), blockRow, blockCol))
    ensures var block := Block(InitialState(puzzle, perms).board, blockRow, blockCol);
      && NoDuplicates(block)
      && (forall k :: 0 <= k < 9 ==> 1 <= block[k] <= 9)
      && (forall v :: 1 <= v <= 9 ==> v in block)
      && Duplicates(block) == 0
  {
    var b := ScanBoard(puzzle);
    var vals := Block(b, blockRow, blockCol);
    var k := 3 * blockRow + blockCol;
    assert k / 3 == blockRow && k % 3 == blockCol;
    var block := FilledBlock(vals, Pool(vals, perms[k]));
    FilledBoardBlock(b, perms, blockRow, blockCol);
    FillFacts(vals, perms[k]);
    ScanDigits(puzzle);
    forall i | 0 <= i < 9 ensures vals[i] <= 9 {
      BlockAt(b, blockRow, blockCol, i / 3, i % 3);
    }
    forall i, j | 0 <= i < j < 9 ensures block[i] != block[j] {
      if vals[i] != 0 && vals[j] == 0 {
        assert vals[i] in NonZeroValues(vals);
      } else if vals[i] == 0 && vals[j] != 0 {
        assert vals[j] in NonZeroValues(vals);
      }
    }
    AllDigits(block);
    DuplicatesZeroIff(block);
  }

  // ---------------------------------------------------------------- the '0' digit

  /** The mask marks exactly the cells the scan gave a non-empty value. */
  predicate MaskMatchesGivens(m: Mask, b: Board) {
    forall r, c :: 0 <= r < 9 && 0 <= c < 9 ==> (m[r][c] <==> b[r][c] != 0)
  }

  /** As written, a '0' in the puzzle marks its cell fixed while leaving it
      empty; the fill then overwrites that fixed cell. */
  lemma ZeroDigitFixedButFilled(perms: seq<seq<nat>>)
    requires ShufflesFit(ScanBoard("0"), perms)
    ensures ScanMask("0")[0][0] && ScanBoard("0")[0][0] == 0
    ensures !MaskMatchesGivens(ScanMask("0"), ScanBoard("0"))
    ensures InitialState("0", perms).fixedCells[0][0]
    ensures InitialState("0", perms).board[0][0] != ScanBoard("0")[0][0]
  {
    FilteredSingle('0');
    assert ScanBoard("0")[0] == ScanRow("0", 0);
    assert ScanMask("0")[0] == ScanMaskRow("0", 0);
    InitialFacts("0", perms);
  }

  /** Whether the corrected scan marks cell number k fixed: only '1'..'9' do. */
  predicate IntendedFixed(f: string, k: nat) {
    k < |f| && '1' <= f[k] <= '9'
  }

  function IntendedMask(puzzle: string): Mask {
    var f := Filtered(puzzle);
    seq(9, r requires 0 <= r < 9 => IntendedMaskRow(f, r))
  }

  function IntendedMaskRow(f: string, r: nat): (row: seq<bool>)
    ensures |row| == 9
  {
    seq(9, c requires 0 <= c < 9 => IntendedFixed(f, 9 * r + c))
  }

  /** The initial state with the corrected mask: '0' and '.' both leave a cell free. */
  function IntendedInitialState(puzzle: string, perms: seq<seq<nat>>): Sudoku
    requires ShufflesFit(ScanBoard(puzzle), perms)
  {
    Sudoku(FilledBoard(ScanBoard(puzzle), perms), IntendedMask(puzzle))
  }

  /** With the corrected mask the fixed cells are exactly the givens, the
      fill never writes a fixed cell, and every free cell was empty after the scan. */
  lemma IntendedGivensFixed(puzzle: string, perms: seq<seq<nat>>)
    requires ShufflesFit(ScanBoard(puzzle), perms)
    ensures MaskMatchesGivens(IntendedMask(puzzle), ScanBoard(puzzle))
    ensures var s := IntendedInitialState(puzzle, perms);
      forall r, c :: 0 <= r < 9 && 0 <= c < 9 && s.fixedCells[r][c] ==> s.board[r][c] == ScanBoard(puzzle)[r][c]
  {
    var f := Filtered(puzzle);
    forall r, c | 0 <= r < 9 && 0 <= c < 9
      ensures IntendedMask(puzzle)[r][c] <==> ScanBoard(puzzle)[r][c] != 0
    {
      assert IntendedMask(puzzle)[r] == IntendedMaskRow(f, r);
      assert ScanBoard(puzzle)[r] == ScanRow(f, r);
      var k := 9 * r + c;
      assert ScanBoard(puzzle)[r][c] == ScanValue(f, k);
      assert IntendedMask(puzzle)[r][c] == IntendedFixed(f, k);
      if k < |f| && IsDigit(f[k]) {
        assert DigitValue(f[k]) == 0 <==> f[k] == '0';
      }
    }
    InitialFacts(puzzle, perms);
  }
}

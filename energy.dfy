/** The energy function: duplicate non-empty values summed over the 9 rows,
    9 columns and 9 blocks. */
module SudokuEnergy {
  import opened SudokuBoard

  /** Sum of the duplicate measures of the first `n` groups. */
  function GroupSum(b: Board, n: nat): nat
    requires n <= 27
  {
    if n == 0 then 0 else GroupSum(b, n - 1) + Duplicates(Group(b, n - 1))
  }

  /** The energy of a board: the summed duplicate measure of all 27 groups. */
  function Energy(b: Board): nat {
    GroupSum(b, 27)
  }

  /** No row, column or block repeats a non-empty value. */
  predicate NoConflicts(b: Board) {
    (forall r :: 0 <= r < 9 ==> NonZeroDistinct(Row(b, r))) &&
    (forall c :: 0 <= c < 9 ==> NonZeroDistinct(Column(b, c))) &&
    (forall br, bc :: 0 <= br < 3 && 0 <= bc < 3 ==> NonZeroDistinct(Block(b, br, bc)))
  }

  /** `count_duplicates`: one pass with a table of the values seen so far. */
  method CountDuplicates(slice: seq<Byte>) returns (duplicates: nat)
    requires forall i :: 0 <= i < |slice| ==> slice[i] <= 9
    ensures duplicates == Duplicates(slice)
    ensures duplicates == 0 <==> NonZeroDistinct(slice)
  {
    var seen := new bool[10](_ => false);
    duplicates := 0;
    for i := 0 to |slice|
      invariant forall v :: 0 <= v < 10 ==> (seen[v] <==> v != 0 && v in slice[..i])
      invariant duplicates == Duplicates(slice[..i])
    {
      var val := slice[i];
      assert slice[..i + 1] == slice[..i] + [val];
      DuplicatesSnoc(slice[..i], val);
      if val != 0 {
        if seen[val] {
          duplicates := duplicates + 1;
        }
        seen[val] := true;
      }
    }
    assert slice[..|slice|] == slice;
    DuplicatesZeroIff(slice);
  }

  /** Every group has at most 8 duplicates, so the energy is at most 27 * 8. */
  lemma {:induction false} GroupSumBound(b: Board, n: nat)
    requires n <= 27
    ensures GroupSum(b, n) <= 8 * n
  {
    if n > 0 {
      GroupSumBound(b, n - 1);
      DuplicatesAtMostEight(Group(b, n - 1));
    }
  }

  /** A partial sum is zero iff each group it covers is free of duplicates. */
  lemma {:induction false} GroupSumZeroIff(b: Board, n: nat)
    requires n <= 27
    ensures GroupSum(b, n) == 0 <==> forall g :: 0 <= g < n ==> NonZeroDistinct(Group(b, g))
  {
    if n > 0 {
      GroupSumZeroIff(b, n - 1);
      DuplicatesZeroIff(Group(b, n - 1));
    }
  }

  lemma EnergyBound(b: Board)
    ensures Energy(b) <= 216
  {
    GroupSumBound(b, 27);
  }

  lemma GroupsFromConflicts(b: Board)
    requires NoConflicts(b)
    ensures forall g :: 0 <= g < 27 ==> NonZeroDistinct(Group(b, g))
  {
    forall g | 0 <= g < 27 ensures NonZeroDistinct(Group(b, g)) {
      if g < 9 {
        assert NonZeroDistinct(Row(b, g));
      } else if g < 18 {
        assert NonZeroDistinct(Column(b, g - 9));
      } else {
        assert NonZeroDistinct(Block(b, (g - 18) / 3, (g - 18) % 3));
      }
    }
  }

  /** Group 18 + 3 * blockRow + blockCol is block (blockRow, blockCol). */
  lemma GroupOfBlock(b: Board, blockRow: nat, blockCol: nat)
    requires blockRow < 3 && blockCol < 3
    ensures Group(b, 18 + 3 * blockRow + blockCol) == Block(b, blockRow, blockCol)
  {
    var k := 3 * blockRow + blockCol;
    assert k / 3 == blockRow && k % 3 == blockCol;
  }

  lemma ConflictsFromGroups(b: Board)
    requires forall g :: 0 <= g < 27 ==> NonZeroDistinct(Group(b, g))
    ensures NoConflicts(b)
  {
    forall r | 0 <= r < 9 ensures NonZeroDistinct(Row(b, r)) {
      assert Group(b, r) == Row(b, r);
    }
    forall c | 0 <= c < 9 ensures NonZeroDistinct(Column(b, c)) {
      assert Group(b, 9 + c) == Column(b, c);
    }
    forall br, bc | 0 <= br < 3 && 0 <= bc < 3 ensures NonZeroDistinct(Block(b, br, bc)) {
      GroupOfBlock(b, br, bc);
    }
  }

  /** Energy 0 iff no row, column or block repeats a non-empty value. */
  lemma EnergyZeroIff(b: Board)
    ensures Energy(b) == 0 <==> NoConflicts(b)
  {
    GroupSumZeroIff(b, 27);
    if Energy(b) == 0 {
      ConflictsFromGroups(b);
    }
    if NoConflicts(b) {
      GroupsFromConflicts(b);
    }
  }

  /** The block vector built cell by cell in `calculate_energy`. */
  method GatherBlock(b: Board, blockRow: nat, blockCol: nat) returns (block: seq<Byte>)
    requires blockRow < 3 && blockCol < 3
    ensures block == Block(b, blockRow, blockCol)
  {
    ghost var target := Block(b, blockRow, blockCol);
    block := [];
    for r := 0 to 3
      invariant block == target[..3 * r]
    {
      for c := 0 to 3
        invariant block == target[..3 * r + c]
      {
        BlockAt(b, blockRow, blockCol, r, c);
        assert target[..3 * r + c + 1] == target[..3 * r + c] + [target[3 * r + c]];
        block := block + [b[blockRow * 3 + r][blockCol * 3 + c]];
      }
    }
    assert block == target[..9];
  }

  lemma GroupDigits(b: Board, g: nat)
    requires DigitsOnly(b) && g < 27
    ensures |Group(b, g)| == 9
    ensures forall i :: 0 <= i < 9 ==> Group(b, g)[i] <= 9
  {
    var grp := Group(b, g);
    forall i | 0 <= i < 9 ensures grp[i] <= 9 {
      if g < 9 {
        assert grp[i] == b[g][i];
      } else if g < 18 {
        assert grp[i] == b[i][g - 9];
      } else {
        var br, bc := (g - 18) / 3, (g - 18) % 3;
        var r, c := 3 * br + i / 3, 3 * bc + i % 3;
        assert grp[i] == b[r][c];
      }
    }
  }

  /** `calculate_energy`: rows, then columns, then blocks, each block gathered
      cell by cell in raster order. */
  method CalculateEnergy(s: Sudoku) returns (energy: nat)
    requires DigitsOnly(s.board)
    ensures energy == Energy(s.board)
    ensures energy <= 216
    ensures energy == 0 <==> NoConflicts(s.board)
  {
    var b := s.board;
    energy := 0;
    // `done` counts the groups already summed into `energy`
    ghost var done: nat := 0;
    for r := 0 to 9
      invariant done == r && energy == GroupSum(b, done)
    {
      assert b[r] == Group(b, r);
      GroupDigits(b, r);
      var d := CountDuplicates(b[r]);
      energy, done := energy + d, done + 1;
    }
    for c := 0 to 9
      invariant done == 9 + c && energy == GroupSum(b, done)
    {
      var col := seq(9, r requires 0 <= r < 9 => b[r][c]);
      assert col == Group(b, 9 + c);
      GroupDigits(b, 9 + c);
      var d := CountDuplicates(col);
      energy, done := energy + d, done + 1;
    }
    for blockRow := 0 to 3
      invariant done == 18 + 3 * blockRow && energy == GroupSum(b, done)
    {
      for blockCol := 0 to 3
        invariant done == 18 + 3 * blockRow + blockCol && energy == GroupSum(b, done)
      {
        var block := GatherBlock(b, blockRow, blockCol);
        GroupOfBlock(b, blockRow, blockCol);
        GroupDigits(b, 18 + 3 * blockRow + blockCol);
        var d := CountDuplicates(block);
        energy, done := energy + d, done + 1;
      }
    }
    EnergyBound(b);
    EnergyZeroIff(b);
  }
}

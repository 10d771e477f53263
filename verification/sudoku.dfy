/** The five functions of sudoku.py over a 9x9 array2<int>: the scan for an
    empty cell, the two conflict checks, the backtracking solver and the
    validator. Each read-only method is tied to a predicate of module Rules;
    the solver is specified by what it keeps, what it restores on failure,
    what it guarantees on success and when it must succeed. */
module Sudoku {
  import opened Grid
  import opened Rules

  /** has_empty: the first cell holding 0 in row-major order, or None when
      there is none. */
  method HasEmpty(puzzle: array2<int>) returns (empty: Option<Cell>)
    requires Shaped(puzzle)
    ensures empty.None? <==> NoEmpty(Snapshot(puzzle))
    ensures empty.Some? ==> FirstEmpty(Snapshot(puzzle), empty.value.row, empty.value.col)
  {
    ghost var g := Snapshot(puzzle);
    for i := 0 to 9
      invariant forall r, c :: 0 <= r < i && 0 <= c < 9 ==> g[r][c] != 0
    {
      for j := 0 to 9
        invariant forall c :: 0 <= c < j ==> g[i][c] != 0
      {
        if puzzle[i, j] == 0 {
          return Some(Cell(i, j));
        }
      }
    }
    return None;
  }

  /** The nine values of block (br, bc), collected row by row as the source
      does with `block += puzzle[i][...]`. */
  method BlockCells(puzzle: array2<int>, br: int, bc: int) returns (block: seq<int>)
    requires Shaped(puzzle) && 0 <= br < 3 && 0 <= bc < 3
    ensures block == Block(Snapshot(puzzle), br, bc)
  {
    ghost var g := Snapshot(puzzle);
    block := [];
    for i := 3 * br to 3 * br + 3
      invariant block == BlockRows(g, br, bc, i - 3 * br)
    {
      block := block + [puzzle[i, 3 * bc], puzzle[i, 3 * bc + 1], puzzle[i, 3 * bc + 2]];
      assert block == BlockRows(g, br, bc, i - 3 * br + 1);
    }
  }

  /** in_block: whether the value at `cell` occurs more than once in its 3x3
      block, that is, whether another cell of the block holds it. */
  method InBlock(puzzle: array2<int>, cell: Cell) returns (duplicate: bool)
    requires Shaped(puzzle) && InBoard(cell.row, cell.col)
    ensures duplicate == BlockDuplicate(Snapshot(puzzle), cell.row, cell.col)
  {
    ghost var g := Snapshot(puzzle);
    var r, c := cell.row, cell.col;
    // which of the index ranges [0,1,2], [3,4,5], [6,7,8] hold the row and the column
    var xRange, yRange := 0, 0;
    for k := 0 to 3
      invariant r / 3 < k ==> xRange == r / 3
      invariant c / 3 < k ==> yRange == c / 3
    {
      if 3 * k <= r < 3 * k + 3 {
        xRange := k;
      }
      if 3 * k <= c < 3 * k + 3 {
        yRange := k;
      }
    }
    var block := BlockCells(puzzle, xRange, yRange);
    duplicate := multiset(block)[puzzle[r, c]] > 1;
    BlockCountMeansDuplicate(g, r, c);
  }

  /** has_conflict: whether some other cell in the same column, the same row
      or the same block holds the value at `cell`. */
  method HasConflict(puzzle: array2<int>, cell: Cell) returns (conflict: bool)
    requires Shaped(puzzle) && InBoard(cell.row, cell.col)
    ensures conflict == Conflicts(Snapshot(puzzle), cell.row, cell.col)
  {
    ghost var g := Snapshot(puzzle);
    var r, c := cell.row, cell.col;
    for i := 0 to 9
      invariant forall k :: 0 <= k < i && k != r ==> g[k][c] != g[r][c]
      invariant forall k :: 0 <= k < i && k != c ==> g[r][k] != g[r][c]
    {
      // another cell of the same column
      if i != r && puzzle[i, c] == puzzle[r, c] {
        assert Peers(r, c, i, c);
        return true;
      }
      // another cell of the same row
      if i != c && puzzle[r, i] == puzzle[r, c] {
        assert Peers(r, c, r, i);
        return true;
      }
    }
    conflict := InBlock(puzzle, cell);
  }

  /** The assignment `puzzle[r][c] = v` of the solver, stated over snapshots. */
  method SetCell(puzzle: array2<int>, r: int, c: int, v: int)
    requires Shaped(puzzle) && InBoard(r, c)
    modifies puzzle
    ensures Snapshot(puzzle) == Put(old(Snapshot(puzzle)), r, c, v)
  {
    ghost var g := Snapshot(puzzle);
    puzzle[r, c] := v;
    SameCells(Snapshot(puzzle), Put(g, r, c, v));
  }

  /** solve_puzzle: depth-first search with chronological backtracking. With
      no empty cell left the board is solved; otherwise the first empty cell
      is filled by TryDigits, which solves the rest recursively. */
  method SolvePuzzle(puzzle: array2<int>) returns (solved: bool)
    requires Shaped(puzzle) && Digits(Snapshot(puzzle))
    modifies puzzle
    ensures Digits(Snapshot(puzzle))
    ensures KeepsClues(old(Snapshot(puzzle)), Snapshot(puzzle))
    ensures !solved ==> Snapshot(puzzle) == old(Snapshot(puzzle))
    ensures solved ==> Fills(old(Snapshot(puzzle)), Snapshot(puzzle))
    ensures solved <==> Fillable(old(Snapshot(puzzle)))
    ensures solved && Consistent(old(Snapshot(puzzle))) ==> Completes(old(Snapshot(puzzle)), Snapshot(puzzle))
    ensures Solvable(old(Snapshot(puzzle))) ==> solved
    decreases ZeroCount(Snapshot(puzzle)), 1
  {
    var current := HasEmpty(puzzle);
    if current.None? {
      NothingToFill(Snapshot(puzzle));
      return true;
    }
    solved := TryDigits(puzzle, current.value);
  }

  /** The loop of solve_puzzle on the empty cell `cell`: it gets 1, 2, ... in
      turn; a digit that conflicts is skipped, one that does not is kept while
      the rest of the board is solved recursively, and is skipped when that
      fails; reaching 10 resets the cell to 0 and reports failure. */
  method TryDigits(puzzle: array2<int>, cell: Cell) returns (solved: bool)
    requires Shaped(puzzle) && Digits(Snapshot(puzzle))
    requires InBoard(cell.row, cell.col) && puzzle[cell.row, cell.col] == 0
    modifies puzzle
    ensures Digits(Snapshot(puzzle))
    ensures KeepsClues(old(Snapshot(puzzle)), Snapshot(puzzle))
    ensures !solved ==> Snapshot(puzzle) == old(Snapshot(puzzle))
    ensures solved ==> Fills(old(Snapshot(puzzle)), Snapshot(puzzle))
    ensures solved <==> Fillable(old(Snapshot(puzzle)))
    ensures solved && Consistent(old(Snapshot(puzzle))) ==> Completes(old(Snapshot(puzzle)), Snapshot(puzzle))
    ensures Solvable(old(Snapshot(puzzle))) ==> solved
    decreases ZeroCount(Snapshot(puzzle)), 0
  {
    ghost var s0 := Snapshot(puzzle);
    var r, c := cell.row, cell.col;
    SetCell(puzzle, r, c, 1);
    while true
      invariant 1 <= puzzle[r, c] <= 10
      invariant Snapshot(puzzle) == Put(s0, r, c, puzzle[r, c])
      invariant forall g :: Fills(s0, g) ==> puzzle[r, c] <= g[r][c]
      decreases 10 - puzzle[r, c]
    {
      // every digit has been tried
      if puzzle[r, c] == 10 {
        SetCell(puzzle, r, c, 0);
        PutFacts(s0, r, c, 10, 0);
        SolvableIsFillable(s0);
        return false;
      }
      var d := puzzle[r, c];
      var conflict := HasConflict(puzzle, cell);
      if conflict {
        SkipDigit(s0, r, c, d);
      } else {
        FillingReducesZeroCount(s0, r, c, d);
        var solution := SolvePuzzle(puzzle);
        if solution {
          PlacementSucceeds(s0, r, c, d, Snapshot(puzzle));
          return true;
        }
        SkipDigit(s0, r, c, d);
      }
      SetCell(puzzle, r, c, d + 1);
      PutFacts(s0, r, c, d, d + 1);
    }
  }

  /** The inner loops of validate_solution: whether each digit 1..9 occurs in
      `list`, stopping at the first one missing. */
  method HasEveryDigit(list: seq<int>) returns (hasAll: bool)
    ensures hasAll == HasAllDigits(list)
  {
    for d := 1 to 10
      invariant forall e :: 1 <= e < d ==> e in list
    {
      if d !in list {
        return false;
      }
    }
    return true;
  }

  /** validate_solution: every row, every column and each of the nine blocks
      contains each digit 1..9. */
  method ValidateSolution(solvedPuzzle: array2<int>) returns (valid: bool)
    requires Shaped(solvedPuzzle)
    ensures valid == ValidSolution(Snapshot(solvedPuzzle))
    ensures valid <==> Full(Snapshot(solvedPuzzle)) && Consistent(Snapshot(solvedPuzzle))
  {
    ghost var g := Snapshot(solvedPuzzle);
    ValidSolutionIff(g);

    // rows
    for i := 0 to 9
      invariant forall k :: 0 <= k < i ==> HasAllDigits(Row(g, k))
    {
      var row := seq(9, j requires 0 <= j < 9 reads solvedPuzzle => solvedPuzzle[i, j]);
      assert row == Row(g, i);
      var hasAll := HasEveryDigit(row);
      if !hasAll {
        return false;
      }
    }

    // columns
    for i := 0 to 9
      invariant forall k :: 0 <= k < 9 ==> HasAllDigits(Row(g, k))
      invariant forall k :: 0 <= k < i ==> HasAllDigits(Column(g, k))
    {
      var columnList := [];
      for j := 0 to 9
        invariant columnList == Column(g, i)[..j]
      {
        columnList := columnList + [solvedPuzzle[j, i]];
      }
      assert columnList == Column(g, i);
      var hasAll := HasEveryDigit(columnList);
      if !hasAll {
        return false;
      }
    }

    // blocks
    for xRange := 0 to 3
      invariant forall k :: 0 <= k < 9 ==> HasAllDigits(Row(g, k)) && HasAllDigits(Column(g, k))
      invariant forall x, y :: 0 <= x < xRange && 0 <= y < 3 ==> HasAllDigits(Block(g, x, y))
    {
      for yRange := 0 to 3
        invariant forall x, y :: 0 <= x < xRange && 0 <= y < 3 ==> HasAllDigits(Block(g, x, y))
        invariant forall y :: 0 <= y < yRange ==> HasAllDigits(Block(g, xRange, y))
      {
        var blockList := BlockCells(solvedPuzzle, xRange, yRange);
        var hasAll := HasEveryDigit(blockList);
        if !hasAll {
          return false;
        }
      }
    }
    return true;
  }
}

# Sudoku solver (sudoku.py) in Dafny

This project models the logic of `sudoku.py`, a 9x9 Sudoku solver. Its five
functions are:

- `has_empty` finds the first empty cell in row-major order;
- `in_block` and `has_conflict` check for conflicts;
- `solve_puzzle` is the recursive backtracking solver, which fills the board in place;
- `validate_solution` checks a finished board.

A board is nine rows of nine integers, where 0 marks an empty cell. The
solver and the checkers work on a mutable `array2<int>`. Their contracts are
stated over the value of that array, a `Grid` (`seq<seq<int>>`, 9x9), read by
the ghost function `Grid.Snapshot`.

- `grid.dfy` (module `Grid`): boards as values, cell updates (`Put`), the 27
  groups (rows, columns, 3x3 blocks), how block entries map to cells, and the
  count of empty cells that makes the search terminate.
- `rules.dfy` (module `Rules`): the rules as predicates and their facts:
  - `FirstEmpty`, `BlockDuplicate`, `Conflicts`, `Consistent`, `ValidSolution`;
  - `KeepsClues`, `ClashesOnlyAmongClues`, `Completes`, `Solvable`;
  - `Fills` and `Fillable`, which describe exactly the boards the solver can produce;
  - a counting argument showing that nine cells hold every digit exactly when
    they hold nine different digits;
  - the facts the backtracking search relies on.
- `sudoku.dfy` (module `Sudoku`): the five functions as methods over
  `array2<int>`, each proved against those predicates.

What is proved about the solver, for any board whose cells hold 0..9:

- it terminates;
- clues (cells that were non-zero on entry) are never changed;
- on failure the board is exactly as it was on entry;
- on success the board is a filling of the entry board: full, with the clues
  kept, and any two peers holding the same digit are both clues;
- it succeeds exactly when such a filling exists;
- on success from consistent clues, the board is a valid solution that keeps
  the clues;
- whenever some valid solution keeps the clues, the solver succeeds.

The solver checks each digit it places against the whole board, but it never
compares two clues with each other. So clues that already clash do not make it
fail: a full board is accepted at once, and otherwise the empty cells are
filled as long as no placed digit repeats a peer's.

The validator is proved to accept exactly the boards with no empty cell and no
digit twice in a row, a column or a block.

## Model

| member | source | states |
|---|---|---|
| Sudoku.HasEmpty | sudoku.py:66-74 | Returns None exactly when no cell holds 0. Otherwise it returns the row-major-first cell holding 0, and every cell before it is non-zero. |
| Sudoku.BlockCells | sudoku.py:89-91 | The list built row slice by row slice is exactly the nine values of block (br, bc), in row-major order within the block. |
| Sudoku.InBlock | sudoku.py:77-96 | True exactly when another cell of the cell's 3x3 block (rows and columns in the same third) holds the same value. |
| Rules.BlockCountMeansDuplicate | sudoku.py:93-96 | The value occurs more than once among the block's nine values (the `count(...) > 1` test) exactly when another cell of the block holds it. |
| Rules.CountAboveOne | sudoku.py:93 | In any list, a value occurs more than once exactly when some entry other than the given one holds it. |
| Sudoku.HasConflict | sudoku.py:99-118 | True exactly when some peer of the cell holds the same value: another cell in its column, in its row, or in its block. It reads the board and changes nothing. |
| Rules.ConsistentIffNoConflicts | sudoku.py:99-118 | A board has no digit twice among peers exactly when no filled cell has a conflict. |
| Sudoku.SolvePuzzle | sudoku.py:121-148 | Terminates (the number of empty cells decreases) and keeps every clue. On False the board is unchanged. On True the board is a filling of the entry board. It returns True exactly when a filling exists. With consistent clues, success gives a valid solution keeping them, and a valid solution existing implies success. |
| Sudoku.TryDigits | sudoku.py:133-148 | The same guarantees for the loop over the first empty cell: digits 1..9 in turn, 10 marks exhaustion and resets the cell to 0. |
| Sudoku.SetCell | sudoku.py:133 | A single cell write changes that cell of the board and no other. |
| Grid.FillingReducesZeroCount | sudoku.py:133-144 | Filling an empty cell with a digit lowers the number of empty cells by exactly one, so the recursion terminates. |
| Grid.PutFacts | sudoku.py:136-137 | Resetting the cell to the 0 it held restores the entry board; a later write to the cell overrides an earlier one. |
| Rules.NothingToFill | sudoku.py:129-131 | A board without empty cells is a filling of itself, even with clashing clues. It is a valid solution of itself when consistent. |
| Rules.PlacementSucceeds | sudoku.py:141-146 | If the placed digit has no conflict and the recursive search returns a filling, that board fills the caller's board too, and is a valid solution of it when its clues are consistent. |
| Rules.PlacementKeepsClashesAmongClues | sudoku.py:141-146 | A conflict-free placement followed by a completion whose clashes involve only the enlarged clues leaves clashes only among the original clues. |
| Rules.SkipDigit | sudoku.py:141-148 | A digit that conflicts, or under which the search finds no filling, appears in the cell in no filling, so skipping it loses nothing. |
| Rules.FillDigitFits | sudoku.py:141-144 | The digit a filling puts in an empty cell is in 1..9 and has no conflict on the board. The filling still fills the board with that digit placed. |
| Rules.CompletionFills | sudoku.py:129-148 | A valid solution keeping the clues is a filling of them. |
| Rules.SolvableIsFillable | sudoku.py:129-148 | Clues with a valid solution have a filling, so the exact success condition covers the solvable case. |
| Rules.SolvableIsConsistent | sudoku.py:121-148 | Clues that some valid solution keeps never clash with each other. |
| Rules.FilledGridCompletes | sudoku.py:129-131 | A full board that keeps consistent clues and has clashes only among clues is a valid solution of them. |
| Sudoku.ValidateSolution | sudoku.py:150-182 | True exactly when every row, every column and each of the nine blocks contains every digit 1..9. Equivalently: no cell is empty and no digit appears twice among peers. |
| Sudoku.HasEveryDigit | sudoku.py:157-159 | True exactly when each digit 1..9 occurs in the list. The same loop shape recurs at lines 166-168 and 178-180. |
| Rules.ValidSolutionIff | sudoku.py:150-182 | A board passes the row, column and block checks exactly when it is full and has no digit twice in a row, a column or a block. |
| Rules.ValidIsFullAndConsistent | sudoku.py:155-180 | Passing the three checks implies every cell holds a digit and no two peers share one. |
| Rules.FullConsistentIsValid | sudoku.py:155-180 | A full board with no digit twice among peers passes the three checks. |
| Rules.BlockDistinct | sudoku.py:171-180 | In a full consistent board the nine values of each block are digits, pairwise different. |
| Rules.NineDigits | sudoku.py:157-159 | Nine values contain every digit 1..9 exactly when they are digits and pairwise different. |
| Rules.ElementsCard | sudoku.py:157-159 | A list has at most as many different values as entries, and exactly as many when its entries are pairwise different. |
| Rules.DistinctSnoc | sudoku.py:157-159 | Appending a value keeps a list's entries pairwise different exactly when the value is new. |
| Grid.BlockRows | sudoku.py:89-91 | The slices of a block's first m rows, appended in order: entry k is the cell in the block's row k / 3 and column k % 3. |
| Grid.BlockEntry | sudoku.py:89-91 | Entry k of a block is the cell in the block's row k / 3 and column k % 3. That cell lies in the block. |
| Grid.BlockIndex | sudoku.py:82-91 | Cell (r, c) appears in block (r / 3, c / 3) at position 3 * (r % 3) + c % 3. |

## Left out

- The module-level sample boards and the expected solutions in comments
  (sudoku.py:3-63) are test fixtures, not logic. No lemma about the sample
  boards is included.
- Python's representation is not modelled: lists of lists that could be ragged
  or aliased, and values outside 0..9. The board is a 9x9 `array2<int>`. The
  solver requires every cell to hold 0..9, and the checkers require a valid
  cell coordinate. Python's index errors on other inputs are not modelled.
- `in_block` leaves `x_range` unbound for a coordinate outside 0..8. The model
  requires an in-range cell instead.
- Sudoku.TryDigits: the `while True` loop of `solve_puzzle` is a separate
  method, called from `SolvePuzzle` and calling it recursively. The two
  `+= 1` increments (lines 142 and 148) are merged into one write after the
  branch.
- The comments at sudoku.py:104 and 109 call the column check the row check
  and the other way round. The model follows the code: it checks
  `puzzle[i][c]` (the column) first and `puzzle[r][i]` (the row) second.
- Running time and search cost are not modelled; only correctness and
  termination are.

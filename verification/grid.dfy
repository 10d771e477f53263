/** The board of sudoku.py as a value: nine rows of nine integers, where 0
    marks an empty cell and 1..9 a placed digit. The solver itself works on a
    mutable array2<int>; Snapshot reads such an array back as a Grid so that
    every contract can be stated over values. */
module Grid {

  datatype Option<T> = None | Some(value: T)

  /** A coordinate (row, column), the `index_pair` of the source. */
  datatype Cell = Cell(row: int, col: int)

  predicate InBoard(r: int, c: int) {
    0 <= r < 9 && 0 <= c < 9
  }

  predicate IsGrid(g: seq<seq<int>>) {
    |g| == 9 && forall i :: 0 <= i < 9 ==> |g[i]| == 9
  }

  type Grid = g: seq<seq<int>> | IsGrid(g) witness seq(9, i => seq(9, j => 0))

  /** Every cell holds 0 (empty) or a digit 1..9: the input format of the solver. */
  ghost predicate Digits(g: Grid) {
    forall r, c :: 0 <= r < 9 && 0 <= c < 9 ==> 0 <= g[r][c] <= 9
  }

  /** Every cell holds a digit 1..9: nothing is left empty. */
  ghost predicate Full(g: Grid) {
    forall r, c :: 0 <= r < 9 && 0 <= c < 9 ==> 1 <= g[r][c] <= 9
  }

  /** No cell holds 0. */
  ghost predicate NoEmpty(g: Grid) {
    forall r, c :: 0 <= r < 9 && 0 <= c < 9 ==> g[r][c] != 0
  }

  /** Row-major scan order: row 0 from column 0 to 8, then row 1, and so on. */
  predicate ScannedBefore(r1: int, c1: int, r2: int, c2: int) {
    r1 < r2 || (r1 == r2 && c1 < c2)
  }

  /** The grid `g` with cell (r, c) set to `v`. */
  function Put(g: Grid, r: int, c: int, v: int): (h: Grid)
    requires InBoard(r, c)
    ensures forall i, j :: 0 <= i < 9 && 0 <= j < 9 ==> h[i][j] == (if i == r && j == c then v else g[i][j])
  {
    g[r := g[r][c := v]]
  }

  /** Writing the value a cell already holds changes nothing; a second write
      to the same cell overrides the first. */
  lemma PutFacts(g: Grid, r: int, c: int, v: int, w: int)
    requires InBoard(r, c)
    ensures Put(g, r, c, g[r][c]) == g
    ensures Put(Put(g, r, c, v), r, c, w) == Put(g, r, c, w)
  {
    SameCells(Put(g, r, c, g[r][c]), g);
    SameCells(Put(Put(g, r, c, v), r, c, w), Put(g, r, c, w));
  }

  /** Two grids that agree on every cell are equal. */
  lemma SameCells(g: Grid, h: Grid)
    requires forall r, c :: 0 <= r < 9 && 0 <= c < 9 ==> g[r][c] == h[r][c]
    ensures g == h
  {
    forall r | 0 <= r < 9
      ensures g[r] == h[r]
    {
      assert forall c :: 0 <= c < 9 ==> g[r][c] == h[r][c];
    }
  }

  predicate Shaped(a: array2<int>) {
    a.Length0 == 9 && a.Length1 == 9
  }

  /** The value currently held by the 9x9 array `a`. */
  ghost function Snapshot(a: array2<int>): (g: Grid)
    requires Shaped(a)
    reads a
    ensures forall r, c :: 0 <= r < 9 && 0 <= c < 9 ==> g[r][c] == a[r, c]
  {
    seq(9, r requires 0 <= r < 9 reads a => seq(9, c requires 0 <= c < 9 reads a => a[r, c]))
  }

  // The 27 groups of nine cells that a solution constrains.

  function Row(g: Grid, i: int): seq<int>
    requires 0 <= i < 9
  {
    g[i]
  }

  function Column(g: Grid, j: int): seq<int>
    requires 0 <= j < 9
  {
    seq(9, i requires 0 <= i < 9 => g[i][j])
  }

  /** The 3x3 block made of rows 3*br..3*br+2 and columns 3*bc..3*bc+2: the
      three-cell slices of its rows, one after the other. */
  function Block(g: Grid, br: int, bc: int): (b: seq<int>)
    requires 0 <= br < 3 && 0 <= bc < 3
    ensures |b| == 9
    ensures forall k :: 0 <= k < 9 ==> b[k] == g[BlockRow(br, k)][BlockCol(bc, k)]
  {
    BlockRows(g, br, bc, 3)
  }

  /** The slices of the first m rows of block (br, bc): entry k is the cell
      in row k / 3 and column k % 3 of the block. */
  function BlockRows(g: Grid, br: int, bc: int, m: int): (b: seq<int>)
    requires 0 <= br < 3 && 0 <= bc < 3 && 0 <= m <= 3
    ensures |b| == 3 * m
    ensures forall k :: 0 <= k < 3 * m ==> b[k] == g[BlockRow(br, k)][BlockCol(bc, k)]
  {
    if m == 0 then [] else BlockRows(g, br, bc, m - 1) + g[3 * br + m - 1][3 * bc..3 * bc + 3]
  }

  /** Entry k of a block lies in row k / 3 and column k % 3 of the block. */
  function BlockRow(br: int, k: int): int {
    3 * br + k / 3
  }

  function BlockCol(bc: int, k: int): int {
    3 * bc + k % 3
  }

  /** The entry of its block that holds cell (r, c). */
  function BlockPos(r: int, c: int): int {
    3 * (r % 3) + c % 3
  }

  /** Cells (r1, c1) and (r2, c2) lie in the same 3x3 block: their rows fall in
      the same one of {0,1,2}, {3,4,5}, {6,7,8}, and so do their columns. */
  predicate SameBlock(r1: int, c1: int, r2: int, c2: int) {
    r1 / 3 == r2 / 3 && c1 / 3 == c2 / 3
  }

  /** Two different cells that share a row, a column or a block. */
  predicate Peers(r1: int, c1: int, r2: int, c2: int) {
    (r1 != r2 || c1 != c2) && (r1 == r2 || c1 == c2 || SameBlock(r1, c1, r2, c2))
  }

  /** Splitting a block entry k into its row k / 3 and column k % 3. */
  lemma BlockCoordinates(br: int, bc: int, k: int)
    requires 0 <= br < 3 && 0 <= bc < 3 && 0 <= k < 9
    ensures 0 <= k / 3 < 3 && 0 <= k % 3 < 3 && k == 3 * (k / 3) + k % 3
    ensures InBoard(BlockRow(br, k), BlockCol(bc, k))
    ensures BlockRow(br, k) / 3 == br && BlockRow(br, k) % 3 == k / 3
    ensures BlockCol(bc, k) / 3 == bc && BlockCol(bc, k) % 3 == k % 3
  {
  }

  /** Entry k of block (br, bc) is cell (BlockRow(br, k), BlockCol(bc, k)),
      which lies in that block, and BlockPos finds k again. */
  lemma BlockEntry(g: Grid, br: int, bc: int, k: int)
    requires 0 <= br < 3 && 0 <= bc < 3 && 0 <= k < 9
    ensures InBoard(BlockRow(br, k), BlockCol(bc, k))
    ensures BlockRow(br, k) / 3 == br && BlockCol(bc, k) / 3 == bc
    ensures BlockPos(BlockRow(br, k), BlockCol(bc, k)) == k
    ensures Block(g, br, bc)[k] == g[BlockRow(br, k)][BlockCol(bc, k)]
  {
    BlockCoordinates(br, bc, k);
  }

  /** Cell (r, c) is entry BlockPos(r, c) of block (r / 3, c / 3). */
  lemma BlockIndex(g: Grid, r: int, c: int)
    requires InBoard(r, c)
    ensures 0 <= r / 3 < 3 && 0 <= c / 3 < 3 && 0 <= BlockPos(r, c) < 9
    ensures BlockRow(r / 3, BlockPos(r, c)) == r && BlockCol(c / 3, BlockPos(r, c)) == c
    ensures Block(g, r / 3, c / 3)[BlockPos(r, c)] == g[r][c]
  {
    var k := BlockPos(r, c);
    assert k / 3 == r % 3 && k % 3 == c % 3;
    BlockEntry(g, r / 3, c / 3, k);
  }

  /** The number of empty cells; it measures how far the search still has to go. */
  ghost function ZeroCount(g: seq<seq<int>>): nat
  {
    if |g| == 0 then 0 else multiset(g[0])[0] + ZeroCount(g[1..])
  }

  /** Replacing row `r` changes the count by the difference of the rows' counts. */
  lemma {:induction false} ZeroCountRow(g: seq<seq<int>>, r: int, row: seq<int>)
    requires 0 <= r < |g|
    ensures ZeroCount(g[r := row]) + multiset(g[r])[0] == ZeroCount(g) + multiset(row)[0]
  {
    if r > 0 {
      assert g[r := row][1..] == g[1..][r - 1 := row];
      ZeroCountRow(g[1..], r - 1, row);
    } else {
      assert g[r := row][1..] == g[1..];
    }
  }

  /** Filling an empty cell with a digit removes exactly one empty cell. */
  lemma FillingReducesZeroCount(g: Grid, r: int, c: int, v: int)
    requires InBoard(r, c) && g[r][c] == 0 && v != 0
    ensures ZeroCount(Put(g, r, c, v)) + 1 == ZeroCount(g)
  {
    ZeroCountRow(g, r, g[r][c := v]);
    ZeroCountCell(g[r], c, v);
  }

  /** Overwriting a 0 in a row with a non-zero value removes one 0. */
  lemma ZeroCountCell(row: seq<int>, c: int, v: int)
    requires 0 <= c < |row| && row[c] == 0 && v != 0
    ensures multiset(row[c := v])[0] + 1 == multiset(row)[0]
  {
    assert row == row[..c] + [0] + row[c + 1..];
    assert row[c := v] == row[..c] + [v] + row[c + 1..];
  }
}

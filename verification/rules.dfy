/** The rules of the puzzle as predicates over Grid values: what the scan for
    an empty cell finds, what counts as a conflict, what a valid solution is,
    and the facts about them that the solver's correctness rests on. */
module Rules {
  import opened Grid

  /** (r, c) is the first cell holding 0 in row-major order. */
  ghost predicate FirstEmpty(g: Grid, r: int, c: int) {
    && InBoard(r, c)
    && g[r][c] == 0
    && forall i, j :: 0 <= i < 9 && 0 <= j < 9 && ScannedBefore(i, j, r, c) ==> g[i][j] != 0
  }

  /** Some other cell of the block of (r, c) holds the same value. */
  ghost predicate BlockDuplicate(g: Grid, r: int, c: int)
    requires InBoard(r, c)
  {
    exists i, j :: 0 <= i < 9 && 0 <= j < 9 && (i != r || j != c) && SameBlock(r, c, i, j) && g[i][j] == g[r][c]
  }

  /** Some peer of (r, c) (same row, column or block) holds the same value. */
  ghost predicate Conflicts(g: Grid, r: int, c: int)
    requires InBoard(r, c)
  {
    exists i, j :: 0 <= i < 9 && 0 <= j < 9 && Peers(r, c, i, j) && g[i][j] == g[r][c]
  }

  /** No digit appears twice among peers; empty cells are not compared. */
  ghost predicate Consistent(g: Grid) {
    forall r1, c1, r2, c2 ::
      (0 <= r1 < 9 && 0 <= c1 < 9 && 0 <= r2 < 9 && 0 <= c2 < 9 &&
       Peers(r1, c1, r2, c2) && g[r1][c1] != 0) ==> g[r1][c1] != g[r2][c2]
  }

  ghost predicate HasAllDigits(s: seq<int>) {
    forall d :: 1 <= d <= 9 ==> d in s
  }

  /** Every row, every column and each of the nine 3x3 blocks contains every
      digit 1..9. */
  ghost predicate ValidSolution(g: Grid) {
    && (forall i :: 0 <= i < 9 ==> HasAllDigits(Row(g, i)))
    && (forall i :: 0 <= i < 9 ==> HasAllDigits(Column(g, i)))
    && (forall br, bc :: 0 <= br < 3 && 0 <= bc < 3 ==> HasAllDigits(Block(g, br, bc)))
  }

  /** Every clue (non-zero cell) of `s` still holds its value in `g`. */
  ghost predicate KeepsClues(s: Grid, g: Grid) {
    forall r, c :: 0 <= r < 9 && 0 <= c < 9 && s[r][c] != 0 ==> g[r][c] == s[r][c]
  }

  /** Whenever two peers of `g` hold the same digit, both were clues of `s`. */
  ghost predicate ClashesOnlyAmongClues(s: Grid, g: Grid) {
    forall r1, c1, r2, c2 ::
      (0 <= r1 < 9 && 0 <= c1 < 9 && 0 <= r2 < 9 && 0 <= c2 < 9 &&
       Peers(r1, c1, r2, c2) && g[r1][c1] != 0 && g[r1][c1] == g[r2][c2]) ==>
      s[r1][c1] != 0 && s[r2][c2] != 0
  }

  /** `g` is a valid solution that keeps every clue of `s`. */
  ghost predicate Completes(s: Grid, g: Grid) {
    ValidSolution(g) && KeepsClues(s, g)
  }

  ghost predicate Solvable(s: Grid) {
    exists g :: Completes(s, g)
  }

  /** `g` fills every cell, keeps the clues of `s`, and repeats a digit among
      peers only where both cells are clues of `s`. This is what the search
      can produce: it checks each digit it places against the whole board, but
      it never compares two clues with each other. */
  ghost predicate Fills(s: Grid, g: Grid) {
    Full(g) && KeepsClues(s, g) && ClashesOnlyAmongClues(s, g)
  }

  ghost predicate Fillable(s: Grid) {
    exists g :: Fills(s, g)
  }

  // Counting: nine values that contain every digit are the digits, once each.

  ghost predicate Distinct(s: seq<int>) {
    forall i, j :: 0 <= i < |s| && 0 <= j < |s| && i != j ==> s[i] != s[j]
  }

  ghost predicate DigitsOnly(s: seq<int>) {
    forall i :: 0 <= i < |s| ==> 1 <= s[i] <= 9
  }

  ghost function Elements(s: seq<int>): set<int> {
    set x | x in s
  }

  /** A sequence has at most as many different values as it has entries, and
      exactly as many when its entries are distinct. */
  lemma {:induction false} ElementsCard(s: seq<int>)
    ensures |Elements(s)| <= |s|
    ensures |Elements(s)| == |s| <==> Distinct(s)
  {
    if |s| > 0 {
      var t, x := s[..|s| - 1], s[|s| - 1];
      assert s == t + [x];
      ElementsCard(t);
      ElementsSnoc(t, x);
      DistinctSnoc(t, x);
      if x in t {
        assert Elements(s) == Elements(t);
      } else {
        assert x !in Elements(t);
        assert |Elements(s)| == |Elements(t)| + 1;
      }
    }
  }

  lemma ElementsSnoc(t: seq<int>, x: int)
    ensures Elements(t + [x]) == Elements(t) + {x}
  {
    assert forall y :: y in t + [x] <==> y in t || y == x;
  }

  /** Appending keeps the entries distinct exactly when the new entry is not
      among the old ones. */
  lemma DistinctSnoc(t: seq<int>, x: int)
    ensures Distinct(t + [x]) <==> Distinct(t) && x !in t
  {
    var s := t + [x];
    if Distinct(s) {
      forall i, j | 0 <= i < |t| && 0 <= j < |t| && i != j
        ensures t[i] != t[j]
      {
        assert s[i] == t[i] && s[j] == t[j];
      }
      forall k | 0 <= k < |t|
        ensures t[k] != x
      {
        assert s[k] == t[k] && s[|t|] == x;
      }
    }
    if Distinct(t) && x !in t {
      forall i, j | 0 <= i < |s| && 0 <= j < |s| && i != j
        ensures s[i] != s[j]
      {
        if i < |t| && j < |t| {
          assert s[i] == t[i] && s[j] == t[j];
        } else if i < |t| {
          assert s[i] in t;
        } else {
          assert s[j] in t;
        }
      }
    }
  }

  ghost function DigitSet(): set<int> {
    {1, 2, 3, 4, 5, 6, 7, 8, 9}
  }

  lemma DigitSetFacts()
    ensures |DigitSet()| == 9
    ensures forall d :: d in DigitSet() <==> 1 <= d <= 9
  {
  }

  /** A set that contains `a` has |a| more elements than it has outside `a`. */
  lemma SubsetCard(a: set<int>, b: set<int>)
    requires a <= b
    ensures |b| == |a| + |b - a|
  {
    assert b == a + (b - a);
  }

  /** Nine cells that contain every digit hold only digits, no two the same. */
  lemma AllDigitsOnceEach(s: seq<int>)
    requires |s| == 9 && HasAllDigits(s)
    ensures DigitsOnly(s) && Distinct(s)
  {
    ElementsCard(s);
    DigitSetFacts();
    var e, digits := Elements(s), DigitSet();
    assert digits <= e;
    SubsetCard(digits, e);
    assert e - digits == {};
    forall i | 0 <= i < 9
      ensures 1 <= s[i] <= 9
    {
      assert s[i] in e;
      assert s[i] !in e - digits;
    }
  }

  /** Nine different digits are all the digits. */
  lemma DistinctDigitsAreAll(s: seq<int>)
    requires |s| == 9 && DigitsOnly(s) && Distinct(s)
    ensures HasAllDigits(s)
  {
    ElementsCard(s);
    DigitSetFacts();
    var e, digits := Elements(s), DigitSet();
    assert e <= digits;
    SubsetCard(e, digits);
    assert digits - e == {};
    forall d | 1 <= d <= 9
      ensures d in s
    {
      assert d in digits;
      assert d !in digits - e;
    }
  }

  /** Nine cells contain every digit exactly when they hold digits 1..9, no
      two the same. */
  lemma NineDigits(s: seq<int>)
    requires |s| == 9
    ensures HasAllDigits(s) <==> DigitsOnly(s) && Distinct(s)
  {
    if HasAllDigits(s) {
      AllDigitsOnceEach(s);
    }
    if DigitsOnly(s) && Distinct(s) {
      DistinctDigitsAreAll(s);
    }
  }

  /** A valid solution is full and has no digit twice among peers. */
  lemma ValidIsFullAndConsistent(g: Grid)
    requires ValidSolution(g)
    ensures Full(g) && Consistent(g)
  {
    forall i | 0 <= i < 9
      ensures DigitsOnly(Row(g, i)) && Distinct(Row(g, i)) && Distinct(Column(g, i))
    {
      NineDigits(Row(g, i));
      NineDigits(Column(g, i));
    }
    forall br, bc | 0 <= br < 3 && 0 <= bc < 3
      ensures Distinct(Block(g, br, bc))
    {
      NineDigits(Block(g, br, bc));
    }
    forall r, c | 0 <= r < 9 && 0 <= c < 9
      ensures 1 <= g[r][c] <= 9
    {
      assert Row(g, r)[c] == g[r][c];
    }
    forall r1, c1, r2, c2 |
      0 <= r1 < 9 && 0 <= c1 < 9 && 0 <= r2 < 9 && 0 <= c2 < 9 &&
      Peers(r1, c1, r2, c2) && g[r1][c1] != 0
      ensures g[r1][c1] != g[r2][c2]
    {
      if r1 == r2 {
        assert Row(g, r1)[c1] == g[r1][c1] && Row(g, r1)[c2] == g[r2][c2];
      } else if c1 == c2 {
        assert Column(g, c1)[r1] == g[r1][c1] && Column(g, c1)[r2] == g[r2][c2];
      } else {
        BlockIndex(g, r1, c1);
        BlockIndex(g, r2, c2);
      }
    }
  }

  /** A full grid with no digit twice among peers is a valid solution. */
  lemma FullConsistentIsValid(g: Grid)
    requires Full(g) && Consistent(g)
    ensures ValidSolution(g)
  {
    forall i | 0 <= i < 9
      ensures HasAllDigits(Row(g, i)) && HasAllDigits(Column(g, i))
    {
      forall j1, j2 | 0 <= j1 < 9 && 0 <= j2 < 9 && j1 != j2
        ensures Row(g, i)[j1] != Row(g, i)[j2] && Column(g, i)[j1] != Column(g, i)[j2]
      {
        assert Peers(i, j1, i, j2) && Peers(j1, i, j2, i);
      }
      NineDigits(Row(g, i));
      NineDigits(Column(g, i));
    }
    forall br, bc | 0 <= br < 3 && 0 <= bc < 3
      ensures HasAllDigits(Block(g, br, bc))
    {
      BlockDistinct(g, br, bc);
      NineDigits(Block(g, br, bc));
    }
  }

  /** In a full consistent grid the nine digits of a block differ. */
  lemma BlockDistinct(g: Grid, br: int, bc: int)
    requires Full(g) && Consistent(g) && 0 <= br < 3 && 0 <= bc < 3
    ensures DigitsOnly(Block(g, br, bc)) && Distinct(Block(g, br, bc))
  {
    var b := Block(g, br, bc);
    forall k | 0 <= k < 9
      ensures 1 <= b[k] <= 9
    {
      BlockEntry(g, br, bc, k);
    }
    forall k1, k2 | 0 <= k1 < 9 && 0 <= k2 < 9 && k1 != k2
      ensures b[k1] != b[k2]
    {
      BlockEntry(g, br, bc, k1);
      BlockEntry(g, br, bc, k2);
      assert Peers(BlockRow(br, k1), BlockCol(bc, k1), BlockRow(br, k2), BlockCol(bc, k2));
    }
  }

  /** What the validator checks (every group holds all nine digits) is the
      same as: no empty cell and no digit twice in a row, column or block. */
  lemma ValidSolutionIff(g: Grid)
    ensures ValidSolution(g) <==> Full(g) && Consistent(g)
  {
    if ValidSolution(g) {
      ValidIsFullAndConsistent(g);
    }
    if Full(g) && Consistent(g) {
      FullConsistentIsValid(g);
    }
  }

  /** A grid is consistent exactly when no filled cell conflicts. */
  lemma ConsistentIffNoConflicts(g: Grid)
    ensures Consistent(g) <==> forall r, c :: 0 <= r < 9 && 0 <= c < 9 && g[r][c] != 0 ==> !Conflicts(g, r, c)
  {
  }

  /** A value occurs more than once in `s` exactly when some entry other than
      entry `k` holds it. */
  lemma CountAboveOne(s: seq<int>, k: int)
    requires 0 <= k < |s|
    ensures multiset(s)[s[k]] > 1 <==> exists i :: 0 <= i < |s| && i != k && s[i] == s[k]
  {
    var v := s[k];
    assert s == s[..k] + [v] + s[k + 1..];
    assert multiset(s)[v] == multiset(s[..k])[v] + 1 + multiset(s[k + 1..])[v];
    if multiset(s)[v] > 1 {
      if v in s[..k] {
        var i :| 0 <= i < k && s[..k][i] == v;
        assert s[i] == v;
      } else {
        assert v in s[k + 1..];
        var i :| 0 <= i < |s| - k - 1 && s[k + 1..][i] == v;
        assert s[k + 1 + i] == v;
      }
    }
    if exists i :: 0 <= i < |s| && i != k && s[i] == v {
      var i :| 0 <= i < |s| && i != k && s[i] == v;
      if i < k {
        assert s[..k][i] == v;
      } else {
        assert s[k + 1..][i - k - 1] == v;
      }
    }
  }

  /** The value at (r, c) occurs more than once among the nine values of its
      block exactly when another cell of the block holds it. */
  lemma BlockCountMeansDuplicate(g: Grid, r: int, c: int)
    requires InBoard(r, c)
    ensures multiset(Block(g, r / 3, c / 3))[g[r][c]] > 1 <==> BlockDuplicate(g, r, c)
  {
    var br, bc := r / 3, c / 3;
    var block, k := Block(g, br, bc), BlockPos(r, c);
    BlockIndex(g, r, c);
    CountAboveOne(block, k);
    if multiset(block)[g[r][c]] > 1 {
      var i :| 0 <= i < 9 && i != k && block[i] == block[k];
      BlockEntry(g, br, bc, i);
      assert SameBlock(r, c, BlockRow(br, i), BlockCol(bc, i));
    }
    if BlockDuplicate(g, r, c) {
      var r2, c2 :| 0 <= r2 < 9 && 0 <= c2 < 9 && (r2 != r || c2 != c) && SameBlock(r, c, r2, c2) && g[r2][c2] == g[r][c];
      BlockIndex(g, r2, c2);
      assert block[BlockPos(r2, c2)] == g[r][c];
    }
  }

  // Facts the backtracking search relies on.

  /** Clues that some valid solution keeps cannot clash among themselves. */
  lemma SolvableIsConsistent(s: Grid)
    requires Solvable(s)
    ensures Consistent(s)
  {
    var g :| Completes(s, g);
    ValidIsFullAndConsistent(g);
  }

  /** A valid solution that keeps the clues is in particular a filling of
      them: it has no clash at all. */
  lemma CompletionFills(s: Grid, g: Grid)
    requires Completes(s, g)
    ensures Fills(s, g)
  {
    ValidIsFullAndConsistent(g);
  }

  /** Clues that have a valid solution have a filling. */
  lemma SolvableIsFillable(s: Grid)
    ensures Solvable(s) ==> Fillable(s)
  {
    if Solvable(s) {
      var g :| Completes(s, g);
      CompletionFills(s, g);
    }
  }

  /** The digit a filling puts in an empty cell never conflicts with the rest
      of the board, and the filling still fills the board with that digit
      placed: this is why trying every digit cannot miss a filling. */
  lemma FillDigitFits(s: Grid, g: Grid, r: int, c: int)
    requires Fills(s, g) && InBoard(r, c) && s[r][c] == 0
    ensures 1 <= g[r][c] <= 9
    ensures !Conflicts(Put(s, r, c, g[r][c]), r, c)
    ensures Fills(Put(s, r, c, g[r][c]), g)
  {
    var t := Put(s, r, c, g[r][c]);
    forall i, j | 0 <= i < 9 && 0 <= j < 9 && Peers(r, c, i, j)
      ensures t[i][j] != t[r][c]
    {
      if s[i][j] != 0 {
        assert t[i][j] == g[i][j];
      }
    }
  }

  /** Placing a digit that conflicts with nothing, then completing the rest so
      that clashes only involve the enlarged set of clues, leaves clashes only
      among the original clues. */
  lemma PlacementKeepsClashesAmongClues(s: Grid, r: int, c: int, d: int, g: Grid)
    requires InBoard(r, c) && s[r][c] == 0 && d != 0
    requires !Conflicts(Put(s, r, c, d), r, c)
    requires KeepsClues(Put(s, r, c, d), g) && ClashesOnlyAmongClues(Put(s, r, c, d), g)
    ensures KeepsClues(s, g) && ClashesOnlyAmongClues(s, g)
  {
    var t := Put(s, r, c, d);
    forall r1, c1, r2, c2 |
      0 <= r1 < 9 && 0 <= c1 < 9 && 0 <= r2 < 9 && 0 <= c2 < 9 &&
      Peers(r1, c1, r2, c2) && g[r1][c1] != 0 && g[r1][c1] == g[r2][c2]
      ensures s[r1][c1] != 0 && s[r2][c2] != 0
    {
      assert t[r1][c1] != 0 && t[r2][c2] != 0;
      assert g[r1][c1] == t[r1][c1] && g[r2][c2] == t[r2][c2];
      assert Peers(r, c, r2, c2) ==> t[r2][c2] != t[r][c];
      assert Peers(r, c, r1, c1) ==> t[r1][c1] != t[r][c];
    }
  }

  /** A full grid that keeps consistent clues and has clashes only among clues
      is a valid solution of those clues. */
  lemma FilledGridCompletes(s: Grid, g: Grid)
    requires Full(g) && KeepsClues(s, g) && ClashesOnlyAmongClues(s, g) && Consistent(s)
    ensures Completes(s, g)
  {
    forall r1, c1, r2, c2 |
      0 <= r1 < 9 && 0 <= c1 < 9 && 0 <= r2 < 9 && 0 <= c2 < 9 &&
      Peers(r1, c1, r2, c2) && g[r1][c1] != 0
      ensures g[r1][c1] != g[r2][c2]
    {
    }
    FullConsistentIsValid(g);
  }

  /** With no empty cell left, the grid is its own filling, and its own
      solution when its clues are consistent. */
  lemma NothingToFill(s: Grid)
    requires Digits(s) && NoEmpty(s)
    ensures Fills(s, s) && Fillable(s)
    ensures Consistent(s) ==> Completes(s, s)
  {
    assert Fills(s, s);
    if Consistent(s) {
      FilledGridCompletes(s, s);
    }
  }

  /** What a successful recursive search after placing `d` at (r, c) gives
      the caller. */
  lemma PlacementSucceeds(s: Grid, r: int, c: int, d: int, g: Grid)
    requires InBoard(r, c) && s[r][c] == 0 && 1 <= d <= 9
    requires !Conflicts(Put(s, r, c, d), r, c)
    requires Fills(Put(s, r, c, d), g)
    ensures Fills(s, g)
    ensures Consistent(s) ==> Completes(s, g)
  {
    PlacementKeepsClashesAmongClues(s, r, c, d, g);
    if Consistent(s) {
      FilledGridCompletes(s, g);
    }
  }

  /** Digit `d` at the empty cell (r, c) can be skipped without losing a
      filling when it conflicts, or when the search below it found none. */
  lemma SkipDigit(s: Grid, r: int, c: int, d: int)
    requires InBoard(r, c) && s[r][c] == 0
    requires Conflicts(Put(s, r, c, d), r, c) || !Fillable(Put(s, r, c, d))
    ensures forall g :: Fills(s, g) ==> g[r][c] != d
  {
    forall g | Fills(s, g)
      ensures g[r][c] != d
    {
      FillDigitFits(s, g, r, c);
      assert !Fillable(Put(s, r, c, d)) ==> !Fills(Put(s, r, c, d), g);
    }
  }
}

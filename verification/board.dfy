/** The 9x9 grid every part of the solver works on: row-major, 0-indexed,
    0 standing for an empty cell. The running program keeps it as a mutable
    9x9 array; specifications look at it as a value of type Board. */
module Board {
  /** Value view of a grid: a sequence of rows. */
  type Board = seq<seq<int>>

  /** Nine rows of nine cells. */
  predicate IsGrid(b: Board) {
    |b| == 9 && forall r :: 0 <= r < 9 ==> |b[r]| == 9
  }

  /** A well-formed grid: every cell is empty (0) or a digit 1..9. */
  predicate IsBoard(b: Board) {
    IsGrid(b) && forall r, c :: 0 <= r < 9 && 0 <= c < 9 ==> 0 <= b[r][c] <= 9
  }

  /** The current contents of a grid held in an array. */
  function Cells(g: array2<int>): (b: Board)
    requires g.Length0 == 9 && g.Length1 == 9
    reads g
    ensures IsGrid(b)
    ensures forall r, c :: 0 <= r < 9 && 0 <= c < 9 ==> b[r][c] == g[r, c]
  {
    seq(9, r requires 0 <= r < 9 reads g => RowOf(g, r))
  }

  function RowOf(g: array2<int>, r: int): (row: seq<int>)
    requires g.Length0 == 9 && g.Length1 == 9 && 0 <= r < 9
    reads g
    ensures |row| == 9
    ensures forall c :: 0 <= c < 9 ==> row[c] == g[r, c]
  {
    seq(9, c requires 0 <= c < 9 reads g => g[r, c])
  }

  /** Two grids with the same cells are the same value. */
  lemma GridExt(a: Board, b: Board)
    requires IsGrid(a) && IsGrid(b)
    requires forall r, c :: 0 <= r < 9 && 0 <= c < 9 ==> a[r][c] == b[r][c]
    ensures a == b
  {
    forall r | 0 <= r < 9
      ensures a[r] == b[r]
    {
      assert forall c :: 0 <= c < 9 ==> a[r][c] == b[r][c];
    }
  }

  /** Top-left row (or column) of the 3x3 region containing row (or column) i. */
  function RegionStart(i: int): (s: int)
    ensures 0 <= i < 9 ==> s in {0, 3, 6} && s <= i < s + 3
  {
    i - i % 3
  }

  /** Position of cell (r, c) in row-major order. */
  function Pos(r: int, c: int): int {
    9 * r + c
  }

  predicate SameRegion(r1: int, c1: int, r2: int, c2: int) {
    RegionStart(r1) == RegionStart(r2) && RegionStart(c1) == RegionStart(c2)
  }

  /** Two distinct cells that share a row, a column or a region. */
  predicate Peers(r1: int, c1: int, r2: int, c2: int) {
    (r1 != r2 || c1 != c2) && (r1 == r2 || c1 == c2 || SameRegion(r1, c1, r2, c2))
  }

  /** No peer of cell (r, c) holds the value that (r, c) holds. */
  ghost predicate NoClash(b: Board, r: int, c: int)
    requires IsGrid(b) && 0 <= r < 9 && 0 <= c < 9
  {
    forall r2, c2 :: 0 <= r2 < 9 && 0 <= c2 < 9 && Peers(r, c, r2, c2) ==> b[r2][c2] != b[r][c]
  }

  /** The givens of a grid do not already break the Sudoku rule. */
  ghost predicate Consistent(b: Board) {
    IsBoard(b) && forall r, c :: 0 <= r < 9 && 0 <= c < 9 && b[r][c] != 0 ==> NoClash(b, r, c)
  }

  /** A solved Sudoku: every cell holds a digit and no two peers hold the same one. */
  ghost predicate IsSolution(b: Board) {
    IsBoard(b) && forall r, c :: 0 <= r < 9 && 0 <= c < 9 ==> b[r][c] != 0 && NoClash(b, r, c)
  }

  /** `s` is a solved Sudoku that keeps every filled cell of `b`. */
  ghost predicate Completes(b: Board, s: Board) {
    IsGrid(b) && IsSolution(s) &&
    forall r, c :: 0 <= r < 9 && 0 <= c < 9 && b[r][c] != 0 ==> s[r][c] == b[r][c]
  }
}

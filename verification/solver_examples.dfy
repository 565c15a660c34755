/** The solver cases the repository's unit tests exercise, stated against
    the model. */
module SolverExamples {
  import opened Wrappers
  import opened Board
  import opened Codec
  import opened Validator
  import opened ValidatorExamples
  import opened Solver
  import opened PlacementExamples

  /** The solution the tests expect for the sample puzzle, as a grid. */
  const Expected: Board := [
    [7, 6, 9, 2, 3, 5, 4, 1, 8],
    [8, 5, 1, 4, 9, 6, 3, 7, 2],
    [4, 3, 2, 1, 7, 8, 9, 5, 6],
    [1, 7, 4, 5, 6, 9, 2, 8, 3],
    [3, 9, 5, 8, 4, 2, 7, 6, 1],
    [6, 2, 8, 7, 1, 3, 5, 4, 9],
    [2, 8, 3, 6, 5, 7, 1, 9, 4],
    [5, 1, 6, 9, 2, 4, 8, 3, 7],
    [9, 4, 7, 3, 8, 1, 6, 2, 5]]

  /** Row r repeats no value. */
  ghost predicate RowDistinct(b: Board, r: int)
    requires IsGrid(b) && 0 <= r < 9
  {
    forall c1, c2 :: 0 <= c1 < c2 < 9 ==> b[r][c1] != b[r][c2]
  }

  /** Column c repeats no value. */
  ghost predicate ColumnDistinct(b: Board, c: int)
    requires IsGrid(b) && 0 <= c < 9
  {
    forall r1, r2 :: 0 <= r1 < r2 < 9 ==> b[r1][c] != b[r2][c]
  }

  /** The 3x3 region whose top-left cell is (r0, c0) repeats no value. */
  ghost predicate RegionDistinct(b: Board, r0: int, c0: int)
    requires IsGrid(b) && 0 <= r0 <= 6 && 0 <= c0 <= 6
  {
    forall r1, c1, r2, c2 ::
      (r0 <= r1 < r0 + 3 && c0 <= c1 < c0 + 3 && r0 <= r2 < r0 + 3 && c0 <= c2 < c0 + 3 &&
       (r1 < r2 || (r1 == r2 && c1 < c2))) ==> b[r1][c1] != b[r2][c2]
  }

  /** A grid of digits 1..9 in which no row, column or region repeats a
      value is a solved Sudoku. */
  lemma DistinctUnitsSolve(b: Board)
    requires IsGrid(b) && forall r, c :: 0 <= r < 9 && 0 <= c < 9 ==> 1 <= b[r][c] <= 9
    requires forall r :: 0 <= r < 9 ==> RowDistinct(b, r) && ColumnDistinct(b, r)
    requires forall r0, c0 :: r0 in {0, 3, 6} && c0 in {0, 3, 6} ==> RegionDistinct(b, r0, c0)
    ensures IsSolution(b)
  {
    forall r, c | 0 <= r < 9 && 0 <= c < 9
      ensures NoClash(b, r, c)
    {
      forall r2, c2 | 0 <= r2 < 9 && 0 <= c2 < 9 && Peers(r, c, r2, c2)
        ensures b[r2][c2] != b[r][c]
      {
        if r == r2 {
          assert RowDistinct(b, r);
          if c < c2 {
            assert b[r][c] != b[r][c2];
          } else {
            assert b[r][c2] != b[r][c];
          }
        } else if c == c2 {
          assert ColumnDistinct(b, c);
          if r < r2 {
            assert b[r][c] != b[r2][c];
          } else {
            assert b[r2][c] != b[r][c];
          }
        } else {
          assert RegionDistinct(b, RegionStart(r), RegionStart(c));
          if r < r2 {
            assert b[r][c] != b[r2][c2];
          } else {
            assert b[r2][c2] != b[r][c];
          }
        }
      }
    }
  }

  lemma ExpectedDigits()
    ensures IsGrid(Expected)
    ensures forall r, c :: 0 <= r < 9 && 0 <= c < 9 ==> 1 <= Expected[r][c] <= 9
  {
  }

  // Row k and column k of the expected solution, one lemma per k.
  lemma Line0() ensures IsGrid(Expected) && RowDistinct(Expected, 0) && ColumnDistinct(Expected, 0) {}
  lemma Line1() ensures IsGrid(Expected) && RowDistinct(Expected, 1) && ColumnDistinct(Expected, 1) {}
  lemma Line2() ensures IsGrid(Expected) && RowDistinct(Expected, 2) && ColumnDistinct(Expected, 2) {}
  lemma Line3() ensures IsGrid(Expected) && RowDistinct(Expected, 3) && ColumnDistinct(Expected, 3) {}
  lemma Line4() ensures IsGrid(Expected) && RowDistinct(Expected, 4) && ColumnDistinct(Expected, 4) {}
  lemma Line5() ensures IsGrid(Expected) && RowDistinct(Expected, 5) && ColumnDistinct(Expected, 5) {}
  lemma Line6() ensures IsGrid(Expected) && RowDistinct(Expected, 6) && ColumnDistinct(Expected, 6) {}
  lemma Line7() ensures IsGrid(Expected) && RowDistinct(Expected, 7) && ColumnDistinct(Expected, 7) {}
  lemma Line8() ensures IsGrid(Expected) && RowDistinct(Expected, 8) && ColumnDistinct(Expected, 8) {}

  // The nine regions of the expected solution, top row of regions first.
  lemma Region00() ensures IsGrid(Expected) && RegionDistinct(Expected, 0, 0) {}
  lemma Region03() ensures IsGrid(Expected) && RegionDistinct(Expected, 0, 3) {}
  lemma Region06() ensures IsGrid(Expected) && RegionDistinct(Expected, 0, 6) {}
  lemma Region30() ensures IsGrid(Expected) && RegionDistinct(Expected, 3, 0) {}
  lemma Region33() ensures IsGrid(Expected) && RegionDistinct(Expected, 3, 3) {}
  lemma Region36() ensures IsGrid(Expected) && RegionDistinct(Expected, 3, 6) {}
  lemma Region60() ensures IsGrid(Expected) && RegionDistinct(Expected, 6, 0) {}
  lemma Region63() ensures IsGrid(Expected) && RegionDistinct(Expected, 6, 3) {}
  lemma Region66() ensures IsGrid(Expected) && RegionDistinct(Expected, 6, 6) {}

  lemma ExpectedLines()
    ensures IsGrid(Expected)
    ensures forall r :: 0 <= r < 9 ==> RowDistinct(Expected, r) && ColumnDistinct(Expected, r)
  {
    Line0(); Line1(); Line2(); Line3(); Line4(); Line5(); Line6(); Line7(); Line8();
  }

  lemma ExpectedRegions()
    ensures IsGrid(Expected)
    ensures forall r0, c0 :: r0 in {0, 3, 6} && c0 in {0, 3, 6} ==> RegionDistinct(Expected, r0, c0)
  {
    Region00(); Region03(); Region06();
    Region30(); Region33(); Region36();
    Region60(); Region63(); Region66();
  }

  /** The tests' expected solution is a solved Sudoku. */
  lemma ExpectedIsSolution()
    ensures IsSolution(Expected)
  {
    ExpectedDigits();
    ExpectedLines();
    ExpectedRegions();
    DistinctUnitsSolve(Expected);
  }

  /** The expected solution keeps every given of the sample puzzle. */
  lemma ExpectedKeepsGivens()
    ensures IsGrid(SampleGrid) && IsGrid(Expected)
    ensures forall r, c :: 0 <= r < 9 && 0 <= c < 9 && SampleGrid[r][c] != 0 ==>
      Expected[r][c] == SampleGrid[r][c]
  {
  }

  /** The sample puzzle has a solution, so its givens are consistent. */
  lemma SampleSolvable()
    ensures IsGridString(ValidString)
    ensures Completes(Decode(ValidString), Expected)
    ensures Consistent(Decode(ValidString))
  {
    SampleDecodes();
    ExpectedIsSolution();
    ExpectedKeepsGivens();
    CompletableIsConsistent(Decode(ValidString), Expected);
  }

  /** solve on the tests' valid string returns a string: a solution
      exists, so the search cannot fail, and since the givens are
      consistent the string it returns solves the puzzle. */
  method SolveValidString() returns (solution: Option<string>)
    ensures solution.Some?
    ensures KeepsGivens(ValidString, solution.value)
    ensures Completes(Decode(ValidString), Decode(solution.value))
  {
    SampleSolvable();
    ValidStringIsValid();
    solution := Solve(ValidString);
  }

  /** solve on the string with letters returns nothing: it fails
      validation. */
  method SolveInvalidString() returns (solution: Option<string>)
    ensures solution == None
  {
    InvalidStringsRejected();
    solution := Solve(InvalidString);
  }
}

/** The placement cases the repository's unit and functional tests
    exercise, stated against the model. */
module PlacementExamples {
  import opened Board
  import opened Constraints
  import opened Codec
  import opened Validator
  import opened ValidatorExamples
  import opened Placement

  /** The grid of the puzzle the tests use; `SampleDecodes` shows it is
      what transform makes of `ValidString`. */
  const SampleGrid: Board := [
    [0, 0, 9, 0, 0, 5, 0, 1, 0],
    [8, 5, 0, 4, 0, 0, 0, 0, 2],
    [4, 3, 2, 0, 0, 0, 0, 0, 0],
    [1, 0, 0, 0, 6, 9, 0, 8, 3],
    [0, 9, 0, 0, 0, 0, 0, 6, 0],
    [6, 2, 0, 7, 1, 0, 0, 0, 9],
    [0, 0, 0, 0, 0, 0, 1, 9, 4],
    [5, 0, 0, 0, 0, 4, 0, 3, 7],
    [0, 4, 0, 3, 0, 0, 6, 0, 0]]

  /** The cells one nine-character row of a puzzle string stands for. */
  function RowCells(x: string): (row: seq<int>)
    requires |x| == 9
    ensures |row| == 9
  {
    seq(9, k requires 0 <= k < 9 => CellValue(x[k]))
  }

  /** In nine nine-character rows laid end to end, character 9r + k is
      character k of row r. */
  lemma NineRowsAt(x0: string, x1: string, x2: string, x3: string, x4: string,
                   x5: string, x6: string, x7: string, x8: string)
    requires |x0| == |x1| == |x2| == |x3| == |x4| == |x5| == |x6| == |x7| == |x8| == 9
    ensures var s := x0 + x1 + x2 + x3 + x4 + x5 + x6 + x7 + x8;
      |s| == 81 &&
      forall r, k :: 0 <= r < 9 && 0 <= k < 9 ==>
        s[Pos(r, k)] == [x0, x1, x2, x3, x4, x5, x6, x7, x8][r][k]
  {
  }

  /** Each row of the sample string decodes to the matching row of the grid. */
  lemma SampleRows()
    ensures RowCells(Row1) == SampleGrid[0]
    ensures RowCells(Row2) == SampleGrid[1]
    ensures RowCells(Row3) == SampleGrid[2]
    ensures RowCells(Row4) == SampleGrid[3]
    ensures RowCells(Row5) == SampleGrid[4]
    ensures RowCells(Row6) == SampleGrid[5]
    ensures RowCells(Row7) == SampleGrid[6]
    ensures RowCells(Row8) == SampleGrid[7]
    ensures RowCells(Row9) == SampleGrid[8]
  {
  }

  /** transform turns the tests' valid string into `SampleGrid`. */
  lemma SampleDecodes()
    ensures IsGridString(ValidString) && Decode(ValidString) == SampleGrid
  {
    ValidStringIsValid();
    NineRowsAt(Row1, Row2, Row3, Row4, Row5, Row6, Row7, Row8, Row9);
    SampleRows();
    var rows := [Row1, Row2, Row3, Row4, Row5, Row6, Row7, Row8, Row9];
    forall r, k | 0 <= r < 9 && 0 <= k < 9
      ensures Decode(ValidString)[r][k] == SampleGrid[r][k]
    {
      assert ValidString[Pos(r, k)] == rows[r][k];
      assert RowCells(rows[r])[k] == SampleGrid[r][k];
    }
    GridExt(Decode(ValidString), SampleGrid);
  }

  /** checkRowPlacement on the transformed valid string, with the tests'
      1-indexed rows: row 1 lacks 7, row 7 has 4. */
  lemma RowCheckExamples()
    ensures IsGridString(ValidString)
    ensures !InRow(Decode(ValidString), 1 - 1, 7) && InRow(Decode(ValidString), 7 - 1, 4)
  {
    assert !InRow(SampleGrid, 0, 7) && InRow(SampleGrid, 6, 4) by {
      assert SampleGrid[6][8] == 4;
    }
    SampleDecodes();
  }

  /** checkColPlacement on the transformed valid string: column 5 lacks 9,
      column 3 has 2. */
  lemma ColumnCheckExamples()
    ensures IsGridString(ValidString)
    ensures !InCol(Decode(ValidString), 5 - 1, 9) && InCol(Decode(ValidString), 3 - 1, 2)
  {
    assert !InCol(SampleGrid, 4, 9) && InCol(SampleGrid, 2, 2) by {
      assert SampleGrid[2][2] == 2;
    }
    SampleDecodes();
  }

  /** checkRegionPlacement on the transformed valid string: the region of
      (2, 6) lacks 6, the region of (5, 9) has 3. */
  lemma RegionCheckExamples()
    ensures IsGridString(ValidString)
    ensures !InRegion(Decode(ValidString), 2 - 1, 6 - 1, 6) && InRegion(Decode(ValidString), 5 - 1, 9 - 1, 3)
  {
    assert !InRegion(SampleGrid, 1, 5, 6) && InRegion(SampleGrid, 4, 8, 3) by {
      assert RegionCell(SampleGrid, 4, 8, 0, 2) == 3;
    }
    SampleDecodes();
  }

  // The three conflict cases on the grid itself.

  lemma SingleConflictOnGrid()
    ensures Diagnose(SampleGrid, 0, 4, 9) == PlacementResult.Invalid([Row])
  {
    assert SampleGrid[0][2] == 9;
  }

  lemma DoubleConflictOnGrid()
    ensures Diagnose(SampleGrid, 2, 8, 3) == PlacementResult.Invalid([Row, Column])
  {
    assert SampleGrid[2][1] == 3;
    assert SampleGrid[3][8] == 3;
  }

  lemma TripleConflictOnGrid()
    ensures Diagnose(SampleGrid, 3, 6, 6) == PlacementResult.Invalid([Row, Column, Region])
  {
    assert IsGrid(SampleGrid);
    assert InRow(SampleGrid, 3, 6) by { assert SampleGrid[3][4] == 6; }
    assert InCol(SampleGrid, 6, 6) by { assert SampleGrid[8][6] == 6; }
    assert InRegion(SampleGrid, 3, 6, 6) by { assert RegionCell(SampleGrid, 3, 6, 1, 1) == 6; }
    var res := Diagnose(SampleGrid, 3, 6, 6);
    OrderedDetermined(res.conflict, [Row, Column, Region]);
  }

  /** checkPlacement on the valid string, A5 with 9: the digit is already in row A, nowhere else. */
  method SingleConflictExample() returns (res: PlacementResult)
    ensures res == PlacementResult.Invalid([Row])
  {
    SingleConflictOnGrid();
    SampleDecodes();
    res := CheckPlacement(ValidString, 'A', '5', '9');
  }

  /** checkPlacement on the valid string, C9 with 3: the digit is in row C and in column 9. */
  method DoubleConflictExample() returns (res: PlacementResult)
    ensures res == PlacementResult.Invalid([Row, Column])
  {
    DoubleConflictOnGrid();
    SampleDecodes();
    res := CheckPlacement(ValidString, 'C', '9', '3');
  }

  /** checkPlacement on the valid string, D7 with 6: the digit is in row D, column 7 and the region of D7. */
  method TripleConflictExample() returns (res: PlacementResult)
    ensures res == PlacementResult.Invalid([Row, Column, Region])
  {
    TripleConflictOnGrid();
    SampleDecodes();
    res := CheckPlacement(ValidString, 'D', '7', '6');
  }
}

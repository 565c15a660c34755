/** The row, column and region checks: does a digit already appear on an
    axis through a cell? `IsSafe` takes a 0-indexed cell and asks all three
    questions; the three placement checks take 1-indexed rows and columns
    and ask one each. */
module Constraints {
  import opened Board

  /** `num` occurs somewhere in row r. */
  predicate InRow(b: Board, r: int, num: int)
    requires IsGrid(b) && 0 <= r < 9
  {
    exists c :: 0 <= c < 9 && b[r][c] == num
  }

  /** `num` occurs somewhere in column c. */
  predicate InCol(b: Board, c: int, num: int)
    requires IsGrid(b) && 0 <= c < 9
  {
    exists r :: 0 <= r < 9 && b[r][c] == num
  }

  /** Cell (i, j) of the 3x3 region anchored at the region of (r, c). */
  function RegionCell(b: Board, r: int, c: int, i: int, j: int): int
    requires IsGrid(b) && 0 <= r < 9 && 0 <= c < 9 && 0 <= i < 3 && 0 <= j < 3
  {
    b[RegionStart(r) + i][RegionStart(c) + j]
  }

  /** `num` occurs somewhere in the 3x3 region of cell (r, c). */
  predicate InRegion(b: Board, r: int, c: int, num: int)
    requires IsGrid(b) && 0 <= r < 9 && 0 <= c < 9
  {
    exists i, j :: 0 <= i < 3 && 0 <= j < 3 && RegionCell(b, r, c, i, j) == num
  }

  /** `num` can be written at (r, c) without repeating a digit on any axis. */
  predicate Safe(b: Board, r: int, c: int, num: int)
    requires IsGrid(b) && 0 <= r < 9 && 0 <= c < 9
  {
    !InRow(b, r, num) && !InCol(b, c, num) && !InRegion(b, r, c, num)
  }

  /** The region scan covers exactly the cells that share the region anchor. */
  lemma RegionCellIsSameRegion(r: int, c: int, r2: int, c2: int)
    requires 0 <= r < 9 && 0 <= c < 9 && 0 <= r2 < 9 && 0 <= c2 < 9
    ensures SameRegion(r, c, r2, c2) <==>
      (0 <= r2 - RegionStart(r) < 3 && 0 <= c2 - RegionStart(c) < 3)
  {
  }

  /** The meaning of the safety check in terms of peers: `num` is safe at
      (r, c) exactly when the cell itself does not hold it and no cell that
      shares a row, column or region with it holds it. */
  lemma SafeIffNoPeerHolds(b: Board, r: int, c: int, num: int)
    requires IsGrid(b) && 0 <= r < 9 && 0 <= c < 9
    ensures Safe(b, r, c, num) <==>
      (b[r][c] != num &&
       forall r2, c2 :: 0 <= r2 < 9 && 0 <= c2 < 9 && Peers(r, c, r2, c2) ==> b[r2][c2] != num)
  {
    if b[r][c] == num {
      assert InRow(b, r, num);
    } else if exists r2, c2 :: 0 <= r2 < 9 && 0 <= c2 < 9 && Peers(r, c, r2, c2) && b[r2][c2] == num {
      var r2, c2 :| 0 <= r2 < 9 && 0 <= c2 < 9 && Peers(r, c, r2, c2) && b[r2][c2] == num;
      if r2 == r {
        assert InRow(b, r, num);
      } else if c2 == c {
        assert InCol(b, c, num);
      } else {
        RegionCellIsSameRegion(r, c, r2, c2);
        assert RegionCell(b, r, c, r2 - RegionStart(r), c2 - RegionStart(c)) == num;
      }
    } else {
      assert !InRow(b, r, num) by {
        forall c2 | 0 <= c2 < 9 ensures b[r][c2] != num {
          if c2 != c { assert Peers(r, c, r, c2); }
        }
      }
      assert !InCol(b, c, num) by {
        forall r2 | 0 <= r2 < 9 ensures b[r2][c] != num {
          if r2 != r { assert Peers(r, c, r2, c); }
        }
      }
      assert !InRegion(b, r, c, num) by {
        forall i, j | 0 <= i < 3 && 0 <= j < 3 ensures RegionCell(b, r, c, i, j) != num {
          var r2, c2 := RegionStart(r) + i, RegionStart(c) + j;
          RegionCellIsSameRegion(r, c, r2, c2);
          if r2 != r || c2 != c { assert Peers(r, c, r2, c2); }
        }
      }
    }
  }

  /** isSafe: scans row `row`, then column `col`, then the region, and
      answers false at the first cell that holds `num`. */
  method IsSafe(g: array2<int>, row: int, col: int, num: int) returns (safe: bool)
    requires g.Length0 == 9 && g.Length1 == 9
    requires 0 <= row < 9 && 0 <= col < 9
    ensures safe <==> Safe(Cells(g), row, col, num)
  {
    ghost var b := Cells(g);
    for x := 0 to 9
      invariant forall x' :: 0 <= x' < x ==> b[row][x'] != num
    {
      if g[row, x] == num {
        assert b[row][x] == num;
        return false;
      }
    }
    for x := 0 to 9
      invariant forall x' :: 0 <= x' < x ==> b[x'][col] != num
    {
      if g[x, col] == num {
        assert b[x][col] == num;
        return false;
      }
    }
    var startRow, startCol := row - row % 3, col - col % 3;
    for i := 0 to 3
      invariant forall i', j' :: 0 <= i' < i && 0 <= j' < 3 ==> RegionCell(b, row, col, i', j') != num
    {
      for j := 0 to 3
        invariant forall j' :: 0 <= j' < j ==> RegionCell(b, row, col, i, j') != num
        invariant forall i', j' :: 0 <= i' < i && 0 <= j' < 3 ==> RegionCell(b, row, col, i', j') != num
      {
        if g[i + startRow, j + startCol] == num {
          assert RegionCell(b, row, col, i, j) == num;
          return false;
        }
      }
    }
    return true;
  }

  /** checkRowPlacement: `row` counts from 1. */
  method CheckRowPlacement(g: array2<int>, row: int, num: int) returns (valid: bool)
    requires g.Length0 == 9 && g.Length1 == 9
    requires 1 <= row <= 9
    ensures valid <==> !InRow(Cells(g), row - 1, num)
  {
    ghost var b := Cells(g);
    var r := row - 1;
    for x := 0 to 9
      invariant forall x' :: 0 <= x' < x ==> b[r][x'] != num
    {
      if g[r, x] == num {
        assert b[r][x] == num;
        return false;
      }
    }
    return true;
  }

  /** checkColPlacement: `col` counts from 1. */
  method CheckColPlacement(g: array2<int>, col: int, num: int) returns (valid: bool)
    requires g.Length0 == 9 && g.Length1 == 9
    requires 1 <= col <= 9
    ensures valid <==> !InCol(Cells(g), col - 1, num)
  {
    ghost var b := Cells(g);
    for x := 0 to 9
      invariant forall x' :: 0 <= x' < x ==> b[x'][col - 1] != num
    {
      if g[x, col - 1] == num {
        assert b[x][col - 1] == num;
        return false;
      }
    }
    return true;
  }

  /** checkRegionPlacement: `row` and `col` count from 1 and are shifted
      down by one before the region anchor is computed. */
  method CheckRegionPlacement(g: array2<int>, row: int, col: int, num: int) returns (valid: bool)
    requires g.Length0 == 9 && g.Length1 == 9
    requires 1 <= row <= 9 && 1 <= col <= 9
    ensures valid <==> !InRegion(Cells(g), row - 1, col - 1, num)
  {
    ghost var b := Cells(g);
    var r, c := row - 1, col - 1;
    var startRow, startCol := r - r % 3, c - c % 3;
    for i := 0 to 3
      invariant forall i', j' :: 0 <= i' < i && 0 <= j' < 3 ==> RegionCell(b, r, c, i', j') != num
    {
      for j := 0 to 3
        invariant forall j' :: 0 <= j' < j ==> RegionCell(b, r, c, i, j') != num
        invariant forall i', j' :: 0 <= i' < i && 0 <= j' < 3 ==> RegionCell(b, r, c, i', j') != num
      {
        if g[i + startRow, j + startCol] == num {
          assert RegionCell(b, r, c, i, j) == num;
          return false;
        }
      }
    }
    return true;
  }
}

/** The backtracking search: cells are visited in row-major order, filled
    cells are skipped, and each empty cell tries 1..9 in ascending order,
    writing into the grid in place and resetting the cell to 0 when the
    rest of the search fails. */
module Solver {
  import opened Wrappers
  import opened Board
  import opened Constraints
  import opened Codec
  import opened Validator

  /** What a successful search from position p guarantees about the grid it
      was given (`before`) and the grid it leaves (`after`): cells before p
      and filled cells keep their values, every cell from p on holds a digit,
      and every digit the search placed repeats no peer. */
  ghost predicate SolvedFrom(before: Board, after: Board, p: int) {
    IsBoard(before) && IsBoard(after) &&
    (forall r, c :: 0 <= r < 9 && 0 <= c < 9 && (Pos(r, c) < p || before[r][c] != 0) ==>
      after[r][c] == before[r][c]) &&
    (forall r, c :: 0 <= r < 9 && 0 <= c < 9 && p <= Pos(r, c) ==> after[r][c] != 0) &&
    (forall r, c :: 0 <= r < 9 && 0 <= c < 9 && p <= Pos(r, c) && before[r][c] == 0 ==>
      NoClash(after, r, c))
  }

  /** The grid with cell (r, c) set to v. */
  function Write(b: Board, r: int, c: int, v: int): Board
    requires IsGrid(b) && 0 <= r < 9 && 0 <= c < 9
  {
    b[r := b[r][c := v]]
  }

  /** Writing a safe digit into the empty cell at position k and completing
      the search from k + 1 completes the search from k. */
  lemma PlaceExtends(before: Board, placed: Board, after: Board, r: int, c: int, num: int)
    requires IsBoard(before) && 0 <= r < 9 && 0 <= c < 9 && before[r][c] == 0
    requires 1 <= num <= 9 && Safe(before, r, c, num)
    requires placed == Write(before, r, c, num)
    requires SolvedFrom(placed, after, Pos(r, c) + 1)
    ensures SolvedFrom(before, after, Pos(r, c))
  {
    SafeIffNoPeerHolds(before, r, c, num);
    forall r2, c2 | 0 <= r2 < 9 && 0 <= c2 < 9 && Pos(r, c) <= Pos(r2, c2) && before[r2][c2] == 0
      ensures NoClash(after, r2, c2)
    {
      if r2 == r && c2 == c {
        forall r3, c3 | 0 <= r3 < 9 && 0 <= c3 < 9 && Peers(r, c, r3, c3)
          ensures after[r3][c3] != after[r][c]
        {
          if Pos(r3, c3) > Pos(r, c) && before[r3][c3] == 0 {
            assert NoClash(after, r3, c3);
            assert Peers(r3, c3, r, c);
          }
        }
      } else {
        assert placed[r2][c2] == 0;
      }
    }
  }

  /** Stepping over a filled cell: completing the search from k + 1
      completes it from k. */
  lemma SkipExtends(before: Board, after: Board, r: int, c: int)
    requires IsBoard(before) && 0 <= r < 9 && 0 <= c < 9 && before[r][c] != 0
    requires SolvedFrom(before, after, Pos(r, c) + 1)
    ensures SolvedFrom(before, after, Pos(r, c))
  {
  }

  /** If no completion of the grid with digit v written at (r, c) exists,
      no completion of the grid itself puts v there. */
  lemma NoCompletionWith(before: Board, r: int, c: int, v: int)
    requires IsBoard(before) && 0 <= r < 9 && 0 <= c < 9
    requires forall s :: !Completes(Write(before, r, c, v), s)
    ensures forall s :: Completes(before, s) ==> s[r][c] != v
  {
    forall s | Completes(before, s) && s[r][c] == v
      ensures false
    {
      assert Completes(Write(before, r, c, v), s);
    }
  }

  /** Any completion of a grid puts at an empty cell a digit the safety
      check accepts there. */
  lemma UnsafeExcluded(b: Board, r: int, c: int, num: int)
    requires IsBoard(b) && 0 <= r < 9 && 0 <= c < 9 && b[r][c] == 0
    requires !Safe(b, r, c, num)
    ensures forall s :: Completes(b, s) ==> s[r][c] != num
  {
    forall s | Completes(b, s)
      ensures s[r][c] != num
    {
      CompletionIsSafe(b, s, r, c);
    }
  }

  lemma CompletionIsSafe(b: Board, s: Board, r: int, c: int)
    requires IsBoard(b) && Completes(b, s) && 0 <= r < 9 && 0 <= c < 9 && b[r][c] == 0
    ensures Safe(b, r, c, s[r][c])
  {
    var v := s[r][c];
    assert NoClash(s, r, c);
    forall r2, c2 | 0 <= r2 < 9 && 0 <= c2 < 9 && Peers(r, c, r2, c2)
      ensures b[r2][c2] != v
    {
      if b[r2][c2] != 0 {
        assert s[r2][c2] == b[r2][c2];
      }
    }
    SafeIffNoPeerHolds(b, r, c, v);
  }

  /** solveSuduko: the backtracking search from cursor (row, col), changing
      the grid in place. Column 9 means "past the end of the row": the
      cursor (8, 9) ends the search with success, and any other (row, 9)
      moves on to (row + 1, 0). A filled cell is stepped over; at an empty
      cell the digit loop (TryDigits) takes over. The source returns the grid
      object itself on success and false on failure; here the grid is the
      array `g` and the answer is the boolean. */
  method SolveSudoku(g: array2<int>, row: int, col: int) returns (solved: bool)
    requires g.Length0 == 9 && g.Length1 == 9
    requires IsBoard(Cells(g))
    requires 0 <= row <= 8 && 0 <= col <= 9
    modifies g
    ensures IsBoard(Cells(g))
    ensures solved ==> SolvedFrom(old(Cells(g)), Cells(g), Pos(row, col))
    ensures !solved ==> Cells(g) == old(Cells(g))
    ensures !solved ==> forall s :: !Completes(old(Cells(g)), s)
    decreases 81 - Pos(row, col), 1
  {
    ghost var before := Cells(g);
    if row == 8 && col == 9 {
      return true;
    }
    var r, c := row, col;
    if c == 9 {
      r, c := r + 1, 0;
    }
    if g[r, c] != 0 {
      solved := SolveSudoku(g, r, c + 1);
      if solved {
        SkipExtends(before, Cells(g), r, c);
      }
      return;
    }
    solved := TryDigits(g, r, c);
  }

  /** The digit loop of solveSuduko at the empty cell (r, c): each digit
      1..9 that the safety check accepts is written into the cell and the
      search continues at (r, c + 1); on success the grid is returned as it
      stands, otherwise the cell is reset to 0 and the next digit is tried.
      When all nine digits fail the grid is exactly as it was on entry. */
  method TryDigits(g: array2<int>, r: int, c: int) returns (solved: bool)
    requires g.Length0 == 9 && g.Length1 == 9
    requires IsBoard(Cells(g))
    requires 0 <= r <= 8 && 0 <= c <= 8 && g[r, c] == 0
    modifies g
    ensures IsBoard(Cells(g))
    ensures solved ==> SolvedFrom(old(Cells(g)), Cells(g), Pos(r, c))
    ensures !solved ==> Cells(g) == old(Cells(g))
    ensures !solved ==> forall s :: !Completes(old(Cells(g)), s)
    decreases 81 - Pos(r, c), 0
  {
    ghost var before := Cells(g);
    assert before[r][c] == 0;
    var num := 1;
    while num < 10
      invariant 1 <= num <= 10
      invariant Cells(g) == before
      invariant forall s :: Completes(before, s) ==> s[r][c] >= num
    {
      var safe := IsSafe(g, r, c, num);
      if safe {
        g[r, c] := num;
        ghost var placed := Cells(g);
        GridExt(placed, Write(before, r, c, num));
        solved := SolveSudoku(g, r, c + 1);
        if solved {
          PlaceExtends(before, placed, Cells(g), r, c, num);
          return;
        }
        NoCompletionWith(before, r, c, num);
      } else {
        UnsafeExcluded(before, r, c, num);
      }
      g[r, c] := 0;
      GridExt(Cells(g), before);
      num := num + 1;
    }
    solved := false;
  }

  /** If the givens are mutually consistent, a successful search from the
      first cell leaves a solved Sudoku that keeps every given. */
  lemma SolvedIsSolution(before: Board, after: Board)
    requires Consistent(before) && SolvedFrom(before, after, 0)
    ensures Completes(before, after)
  {
    forall r, c | 0 <= r < 9 && 0 <= c < 9 && before[r][c] != 0
      ensures NoClash(after, r, c)
    {
      assert NoClash(before, r, c);
      forall r2, c2 | 0 <= r2 < 9 && 0 <= c2 < 9 && Peers(r, c, r2, c2)
        ensures after[r2][c2] != after[r][c]
      {
        if before[r2][c2] == 0 {
          assert Peers(r2, c2, r, c);
          assert NoClash(after, r2, c2);
        }
      }
    }
  }

  /** Givens that some solved Sudoku keeps are mutually consistent, so
      Solve's completion clause applies to every puzzle that has a solution. */
  lemma CompletableIsConsistent(b: Board, s: Board)
    requires IsBoard(b) && Completes(b, s)
    ensures Consistent(b)
  {
    forall r, c | 0 <= r < 9 && 0 <= c < 9 && b[r][c] != 0
      ensures NoClash(b, r, c)
    {
      assert NoClash(s, r, c);
      forall r2, c2 | 0 <= r2 < 9 && 0 <= c2 < 9 && Peers(r, c, r2, c2)
        ensures b[r2][c2] != b[r][c]
      {
        if b[r2][c2] != 0 {
          assert s[r2][c2] != s[r][c];
        }
      }
    }
  }

  /** A solution string for a puzzle: 81 digits 1..9 that keep every given. */
  predicate KeepsGivens(puzzle: string, solution: string)
    requires |puzzle| == 81
  {
    |solution| == 81 &&
    forall i :: 0 <= i < 81 ==> '1' <= solution[i] <= '9' && (puzzle[i] != '.' ==> solution[i] == puzzle[i])
  }

  /** solve: nothing is searched for a puzzle that fails validation; a
      valid one is transformed into a grid, searched from (0, 0) and, when
      the search succeeds, transformed back into a string. */
  method Solve(puzzle: string) returns (solution: Option<string>)
    ensures !IsValidPuzzle(puzzle) ==> solution == None
    ensures solution.Some? ==>
      IsValidPuzzle(puzzle) && KeepsGivens(puzzle, solution.value) &&
      SolvedFrom(Decode(puzzle), Decode(solution.value), 0)
    ensures solution.Some? && Consistent(Decode(puzzle)) ==>
      Completes(Decode(puzzle), Decode(solution.value))
    ensures IsValidPuzzle(puzzle) && solution == None ==>
      forall s :: !Completes(Decode(puzzle), s)
  {
    var verdict := Validate(puzzle);
    if verdict != Valid {
      return None;
    }
    var g := Transform(puzzle);
    var solved := SolveSudoku(g, 0, 0);
    if !solved {
      return None;
    }
    var solvedString := TransformBack(Cells(g));
    DecodeTransformBack(Cells(g));
    forall i | 0 <= i < 81
      ensures '1' <= solvedString[i] <= '9' && (puzzle[i] != '.' ==> solvedString[i] == puzzle[i])
    {
      PosSplit(i);
    }
    if Consistent(Decode(puzzle)) {
      SolvedIsSolution(Decode(puzzle), Cells(g));
    }
    return Some(solvedString);
  }
}

# Sudoku solver core, modelled in Dafny

This project models the `SudokuSolver` class of a small Sudoku web service.
The class does five things:

- it validates 81-character puzzle strings;
- it converts between a puzzle string and a 9x9 grid of numbers (0 for an empty cell);
- it checks whether a digit already appears in a row, column or 3x3 region;
- it solves a puzzle by in-place backtracking;
- it diagnoses a single placement, naming each conflicting axis.

Module layout (one module per part of the class):

| file | module | models |
|---|---|---|
| `wrappers.dfy` | `Wrappers` | `Option`, which stands in for the source's `false` / `"none"` sentinels |
| `board.dfy` | `Board` | the grid as a 9x9 `array2<int>`, its value view `Cells(g)`, and the specification predicates (peers, consistency, solution, completion) |
| `validator.dfy` | `Validator` | `validate` |
| `codec.dfy` | `Codec` | `transform` and `transformBack` |
| `constraints.dfy` | `Constraints` | `isSafe`, `checkRowPlacement`, `checkColPlacement` and `checkRegionPlacement` |
| `solver.dfy` | `Solver` | `solveSuduko` and `solve` |
| `placement.dfy` | `Placement` | `letterToNumber` and `checkPlacement` |
| `validator_examples.dfy`, `placement_examples.dfy`, `solver_examples.dfy` | `ValidatorExamples`, `PlacementExamples`, `SolverExamples` | the repository's test cases, stated against the model |

The class mixes imperative and pure code, and the model keeps that split:

- The code that loops or mutates is a method:
  - `Validate` counts givens;
  - `Transform` fills the grid;
  - the scans are early-return loops;
  - `SolveSudoku` and `TryDigits` write into the grid and undo their writes;
  - `CheckPlacement` builds the conflict list.
- Each method is proved against a specification function or predicate on values.
- Pure expressions are functions: `TransformBack`, `LetterToNumber`, and `Diagnose`, which specifies `CheckPlacement`.

The search is proved in both directions:

- **On success**, the grid keeps every given and has no empty cell. Every digit the search wrote repeats no peer. So when the givens are mutually consistent, the result is a solved Sudoku.
- **On failure**, the grid is exactly as it was on entry, and no solution that keeps the givens exists.

The solver never checks the givens against each other; `isSafe` only judges the digits it places. For that reason `Solve` promises a full solution only under the premise `Consistent(Decode(puzzle))`.

## Model

| member | source | states |
|---|---|---|
| Validator.Validate | controllers/sudoku-solver.js:2-21 | the length check comes first, then the alphabet check (`1`-`9` and `.`), then the check for at least 17 givens; the first failure decides the error; the result is valid exactly when the puzzle passes all three |
| Validator.GivensAppend | controllers/sudoku-solver.js:12-15 | the givens count of a concatenation is the sum of the parts' counts (the loop's step) |
| Validator.GivensBound | controllers/sudoku-solver.js:12-15 | the givens count never exceeds the length, and equals it exactly when no `.` occurs |
| Validator.OnlyPuzzleCharsAppend | controllers/sudoku-solver.js:8-11 | a concatenation passes the alphabet check exactly when both parts do |
| Validator.MessagesIdentifyErrors | controllers/sudoku-solver.js:5-17 | the three error messages are pairwise distinct, so a message identifies its failure |
| ValidatorExamples.ValidStringIsValid | tests/1_unit-tests.js:18-23 | the tests' valid string passes all three checks: 81 characters, only `1`-`9` and `.`, and 32 givens; so `Validate` answers `Valid` |
| ValidatorExamples.InvalidStringsRejected | tests/1_unit-tests.js:25-41 | the string with letters has length 81 but fails the alphabet check; the short and long strings fail the length check |
| Codec.Transform | controllers/sudoku-solver.js:95-109 | the `i < gridArray.length` loop with `shift` yields exactly 9 rows of 9 cells; cell (r, c) is 0 for `.` and the digit's value otherwise (`Decode`) |
| Codec.FlattenAt | controllers/sudoku-solver.js:112 | flattening nine-cell rows puts cell (r, c) at index 9r + c |
| Codec.TransformBack | controllers/sudoku-solver.js:111-113 | the result has 81 characters, and character 9r + c is the digit of cell (r, c) |
| Codec.DecodeTransformBack | controllers/sudoku-solver.js:95-113 | transform undoes transformBack on every 9x9 grid with cells in 0..9 |
| Codec.TransformBackDecode | controllers/sudoku-solver.js:95-113 | transformBack after transform gives the input with every `.` turned into `0` |
| Codec.TransformBackDecodeExact | controllers/sudoku-solver.js:95-113 | that round trip returns the input exactly when the input has no `.` |
| Constraints.IsSafe | controllers/sudoku-solver.js:71-93 | the answer is true exactly when `num` appears nowhere in row `row`, in column `col`, or in the 3x3 region anchored at (row - row % 3, col - col % 3) |
| Constraints.RegionCellIsSameRegion | controllers/sudoku-solver.js:85-90 | the region scan from the anchor covers exactly the cells of the same 3x3 region |
| Constraints.SafeIffNoPeerHolds | controllers/sudoku-solver.js:71-93 | the safety check holds exactly when neither the cell itself nor any cell sharing its row, column or region holds `num` |
| Constraints.CheckRowPlacement | controllers/sudoku-solver.js:160-167 | true exactly when `num` is absent from 1-indexed row `row` |
| Constraints.CheckColPlacement | controllers/sudoku-solver.js:169-176 | true exactly when `num` is absent from 1-indexed column `col` |
| Constraints.CheckRegionPlacement | controllers/sudoku-solver.js:178-193 | true exactly when `num` is absent from the region of 1-indexed cell (row, col), after both are shifted down by one |
| Solver.SolveSudoku | controllers/sudoku-solver.js:24-69 | (8, 9) ends the search with success; column 9 moves to the next row; filled cells are skipped. On success, the cells before the cursor and all filled cells are unchanged, every later cell is nonzero, and every placed digit repeats no peer. On failure, the grid is unchanged and no solution keeps its givens. Terminates by the cursor's row-major position |
| Solver.TryDigits | controllers/sudoku-solver.js:47-68 | the digits 1..9 are tried in order, each writing the cell and undoing the write at line 66; the contract matches that of the search |
| Solver.PlaceExtends | controllers/sudoku-solver.js:51-60 | writing a digit that passes the safety check and then completing the search from the next cell completes it from this cell |
| Solver.SkipExtends | controllers/sudoku-solver.js:45 | stepping over a filled cell preserves what the search guarantees |
| Solver.NoCompletionWith | controllers/sudoku-solver.js:56-66 | when the search fails after writing `v`, no solution of the grid has `v` in that cell |
| Solver.UnsafeExcluded | controllers/sudoku-solver.js:51 | a digit the safety check rejects appears in that cell in no solution of the grid |
| Solver.CompletionIsSafe | controllers/sudoku-solver.js:51 | the digit any solution puts in an empty cell passes the safety check there |
| Solver.CompletableIsConsistent | controllers/sudoku-solver.js:195-202 | givens that some solved Sudoku keeps are mutually consistent, so Solve's completion clause covers every puzzle that has a solution |
| Solver.SolvedIsSolution | controllers/sudoku-solver.js:24-69 | with mutually consistent givens, a successful search from (0, 0) leaves a solved Sudoku that keeps every given |
| Solver.Solve | controllers/sudoku-solver.js:195-202 | an invalid puzzle gives none. A returned solution is 81 digits 1..9 that keep every given, and it solves the puzzle when the givens are consistent. A valid puzzle with no solution means none exists |
| Placement.LetterToNumber | controllers/sudoku-solver.js:115-138 | `A`..`I` map to 1..9; every other character maps to none |
| Placement.AxisNamesIdentifyAxes | controllers/sudoku-solver.js:152-154 | the names `row`, `column` and `region` are pairwise distinct |
| Placement.ReportedNames | controllers/sudoku-solver.js:152-156 | in an invalid result the reported strings contain `row`, `column` and `region` exactly when that check fails, none twice, in that order |
| Placement.Diagnose | controllers/sudoku-solver.js:140-158 | a cell that already holds the digit is valid. Otherwise the result is valid exactly when the digit is safe; when invalid, the conflict list holds exactly the failing axes, in the order row, column, region |
| Placement.OrderedDetermined | controllers/sudoku-solver.js:152-154 | two ordered conflict lists that contain the same axes are equal, so Diagnose's contract determines its result |
| Placement.CheckPlacement | controllers/sudoku-solver.js:140-158 | the method's result is `Diagnose` applied to the transformed puzzle, the row letter's 0-indexed row, and the column and value digits |
| PlacementExamples.SampleDecodes | tests/1_unit-tests.js:45-89 | transform turns the tests' valid string into the 9x9 grid `SampleGrid` |
| PlacementExamples.RowCheckExamples | tests/1_unit-tests.js:45-57 | in the transformed valid string, 1-indexed row 1 lacks 7 and row 7 has 4 |
| PlacementExamples.ColumnCheckExamples | tests/1_unit-tests.js:61-73 | in the transformed valid string, column 5 lacks 9 and column 3 has 2 |
| PlacementExamples.RegionCheckExamples | tests/1_unit-tests.js:77-89 | in the transformed valid string, the region of (2, 6) lacks 6 and the region of (5, 9) has 3 |
| PlacementExamples.SingleConflictExample | tests/2_functional-tests.js:141-166 | `CheckPlacement` on the valid string with A5 and 9 reports a conflict on the row only |
| PlacementExamples.DoubleConflictExample | tests/2_functional-tests.js:169-195 | `CheckPlacement` on the valid string with C9 and 3 reports `[row, column]` |
| PlacementExamples.TripleConflictExample | tests/2_functional-tests.js:198-224 | `CheckPlacement` on the valid string with D7 and 6 reports `[row, column, region]` |
| SolverExamples.DistinctUnitsSolve | tests/1_unit-tests.js:107-113 | a grid of digits 1..9 in which no row, column or 3x3 region repeats a value is a solved Sudoku |
| SolverExamples.ExpectedIsSolution | tests/1_unit-tests.js:107-113 | the grid of the tests' expected solution string is a solved Sudoku |
| SolverExamples.SampleSolvable | tests/1_unit-tests.js:107-113 | that solution keeps every given of the valid string, so the valid puzzle has a solution and its givens are consistent |
| SolverExamples.SolveValidString | tests/1_unit-tests.js:93-98 | `Solve` on the valid string returns a string, and that string is 81 digits that keep every given and solve the puzzle |
| SolverExamples.SolveInvalidString | tests/1_unit-tests.js:100-105 | `Solve` on the string with letters returns none |

## Left out

- The Express routes and the HTTP layer are not part of this model. This covers request fields, `res.json` and the coordinate and value regexes. The puzzle-strings fixture module is also not part of this model.
- JavaScript runtime details are not modelled:
  - the regex engine is replaced by the character predicate `IsPuzzleChar`;
  - `parseInt` is replaced by `DigitValue`;
  - `replace`, `split`, `flat` and `join` are replaced by their effect on sequences.
- Placement.CheckPlacement: it requires a row letter `A`..`I` and column and value digits `1`..`9`, which the route checks before calling it. The source's `"none"` row would index `grid[NaN]` and throw; that path is not modelled.
- Codec.Transform: it requires an 81-character string over `.` and `0`..`9`. Its only callers, `solve` and `checkPlacement`, pass puzzles that have already been validated. On other lengths n the source's loop runs while the row counter is below the shrinking remainder n - 9i. It therefore builds ceil(n/10) rows of nine entries each. For n = 80 that is 8 rows, and the last 8 characters are never read. For n = 100 it is 10 rows. For n = 12 the second row holds 3 digits followed by 6 `NaN` entries. That behaviour is not modelled.
- The grid is one `array2<int>` rather than an array of row arrays. Aliasing between rows therefore cannot arise in the model.
- Solver.SolveSudoku: it returns a boolean and leaves the solved grid in the array. The source returns the grid object itself, which is the same array. The digit loop is the separate method `Solver.TryDigits`.
- Solver.Solve: the contract does not say which solution is returned. The model proves that `Solve` on the sample puzzle returns a solution (`SolverExamples.SolveValidString`). It does not prove that this solution is the tests' exact expected string, because that would require running the search. The search's running time, which is exponential in the worst case, is not modelled.
- String length is measured in characters. UTF-16 code units are not modelled.

/** The placement diagnostic behind the check endpoint: given a puzzle, a
    coordinate (row letter A..I, column digit 1..9) and a digit, report
    every axis on which the digit would repeat, in the order row, column,
    region. */
module Placement {
  import opened Wrappers
  import opened Board
  import opened Constraints
  import opened Codec

  /** An axis along which a placement can conflict. */
  datatype Axis = Row | Column | Region

  /** The name an axis is reported under. */
  function AxisName(a: Axis): string {
    match a
    case Row => "row"
    case Column => "column"
    case Region => "region"
  }

  /** Distinct axes are reported under distinct names. */
  lemma AxisNamesIdentifyAxes(a1: Axis, a2: Axis)
    ensures AxisName(a1) == AxisName(a2) <==> a1 == a2
  {
    if a1 != a2 {
      assert |AxisName(a1)| != |AxisName(a2)| || AxisName(a1)[1] != AxisName(a2)[1];
    }
  }

  /** Position of an axis in the reporting order. */
  function Rank(a: Axis): nat {
    match a
    case Row => 0
    case Column => 1
    case Region => 2
  }

  /** Axes listed in reporting order, each at most once. */
  predicate Ordered(xs: seq<Axis>) {
    forall i, j :: 0 <= i < j < |xs| ==> Rank(xs[i]) < Rank(xs[j])
  }

  /** `{valid: true}` or `{valid: false, conflict}`. */
  datatype PlacementResult = Valid | Invalid(conflict: seq<Axis>)

  /** `num` already occurs on axis `a` through cell (r, c). */
  predicate ConflictsOn(b: Board, r: int, c: int, num: int, a: Axis)
    requires IsGrid(b) && 0 <= r < 9 && 0 <= c < 9
  {
    match a
    case Row => InRow(b, r, num)
    case Column => InCol(b, c, num)
    case Region => InRegion(b, r, c, num)
  }

  /** letterToNumber: row letters A..I count from 1; anything else has no row. */
  function LetterToNumber(letter: char): (n: Option<int>)
    ensures n.Some? <==> 'A' <= letter <= 'I'
    ensures n.Some? ==> n.value == letter as int - 'A' as int + 1
  {
    match letter
    case 'A' => Some(1)
    case 'B' => Some(2)
    case 'C' => Some(3)
    case 'D' => Some(4)
    case 'E' => Some(5)
    case 'F' => Some(6)
    case 'G' => Some(7)
    case 'H' => Some(8)
    case 'I' => Some(9)
    case _ => None
  }

  /** What checkPlacement reports for digit `num` at the 0-indexed cell
      (r, c) of grid b: a cell that already holds `num` is valid; otherwise
      the conflict list holds every failing axis, in reporting order, and
      the placement is valid exactly when that list is empty. */
  function Diagnose(b: Board, r: int, c: int, num: int): (res: PlacementResult)
    requires IsGrid(b) && 0 <= r < 9 && 0 <= c < 9
    ensures b[r][c] == num ==> res == Valid
    ensures b[r][c] != num ==> (res == Valid <==> Safe(b, r, c, num))
    ensures res.Invalid? ==>
      Ordered(res.conflict) && forall a :: a in res.conflict <==> ConflictsOn(b, r, c, num, a)
  {
    if b[r][c] == num then Valid
    else
      var conflict :=
        (if InRow(b, r, num) then [Row] else []) +
        (if InCol(b, c, num) then [Column] else []) +
        (if InRegion(b, r, c, num) then [Region] else []);
      if |conflict| > 0 then Invalid(conflict) else Valid
  }

  /** An ordered conflict list is fixed by which axes it contains, so the
      contract of Diagnose determines its result completely. */
  lemma {:induction false} OrderedDetermined(xs: seq<Axis>, ys: seq<Axis>)
    requires Ordered(xs) && Ordered(ys)
    requires forall a :: a in xs <==> a in ys
    ensures xs == ys
  {
    assert xs == [] <==> ys == [] by {
      if xs != [] {
        assert xs[0] in ys;
      }
      if ys != [] {
        assert ys[0] in xs;
      }
    }
    if xs != [] {
      assert xs[0] in ys;
      var k :| 0 <= k < |ys| && ys[k] == xs[0];
      assert xs[0] in xs && ys[0] in ys;
      assert ys[0] in xs;
      var m :| 0 <= m < |xs| && xs[m] == ys[0];
      assert Rank(ys[0]) <= Rank(xs[0]) && Rank(xs[0]) <= Rank(ys[0]);
      assert xs[0] == ys[0];
      forall a
        ensures a in xs[1..] <==> a in ys[1..]
      {
        if a in xs[1..] {
          var i :| 1 <= i < |xs| && xs[i] == a;
          assert a in ys && a != ys[0];
        }
        if a in ys[1..] {
          var j :| 1 <= j < |ys| && ys[j] == a;
          assert a in xs && a != xs[0];
        }
      }
      OrderedDetermined(xs[1..], ys[1..]);
    }
  }

  /** The conflict list as the strings it is reported with. */
  function Names(xs: seq<Axis>): seq<string> {
    seq(|xs|, i requires 0 <= i < |xs| => AxisName(xs[i]))
  }

  /** The reported conflict strings: `row`, `column` and `region` each
      appear exactly when that check fails, none twice, and in that order. */
  lemma ReportedNames(b: Board, r: int, c: int, num: int)
    requires IsGrid(b) && 0 <= r < 9 && 0 <= c < 9
    requires Diagnose(b, r, c, num).Invalid?
    ensures var ns := Names(Diagnose(b, r, c, num).conflict);
      ("row" in ns <==> InRow(b, r, num)) &&
      ("column" in ns <==> InCol(b, c, num)) &&
      ("region" in ns <==> InRegion(b, r, c, num)) &&
      forall i, j :: 0 <= i < j < |ns| ==> ns[i] != ns[j] && ns[i] != "region" && ns[j] != "row"
  {
    var xs := Diagnose(b, r, c, num).conflict;
    var ns := Names(xs);
    forall a
      ensures AxisName(a) in ns <==> a in xs
    {
      if AxisName(a) in ns {
        var i :| 0 <= i < |ns| && ns[i] == AxisName(a);
        AxisNamesIdentifyAxes(xs[i], a);
      }
      if a in xs {
        var i :| 0 <= i < |xs| && xs[i] == a;
        assert ns[i] == AxisName(a);
      }
    }
    assert AxisName(Row) == "row" && AxisName(Column) == "column" && AxisName(Region) == "region";
    forall i, j | 0 <= i < j < |ns|
      ensures ns[i] != ns[j] && ns[i] != "region" && ns[j] != "row"
    {
      assert Rank(xs[i]) < Rank(xs[j]);
      AxisNamesIdentifyAxes(xs[i], xs[j]);
      AxisNamesIdentifyAxes(xs[i], Region);
      AxisNamesIdentifyAxes(xs[j], Row);
    }
  }

  /** checkPlacement: the puzzle is transformed into a grid, the row letter
      and the column and value digits are parsed, and the three 1-indexed
      axis checks are run independently, each failure appended to the
      conflict list in turn. The coordinate and value are the ones the
      check endpoint has already accepted. */
  method CheckPlacement(puzzle: string, row: char, col: char, value: char) returns (res: PlacementResult)
    requires IsGridString(puzzle)
    requires 'A' <= row <= 'I' && '1' <= col <= '9' && '1' <= value <= '9'
    ensures res == Diagnose(Decode(puzzle), row as int - 'A' as int, DigitValue(col) - 1, DigitValue(value))
  {
    var grid := Transform(puzzle);
    var r := LetterToNumber(row).value;
    var c := DigitValue(col);
    var num := DigitValue(value);
    ghost var b := Cells(grid);
    assert grid[r - 1, c - 1] == b[r - 1][c - 1];
    if grid[r - 1, c - 1] == num {
      return Valid;
    }
    var rowIsValid := CheckRowPlacement(grid, r, num);
    var colIsValid := CheckColPlacement(grid, c, num);
    var regionIsValid := CheckRegionPlacement(grid, r, c, num);
    var conflict := [];
    if !rowIsValid {
      conflict := conflict + [Row];
    }
    if !colIsValid {
      conflict := conflict + [Column];
    }
    if !regionIsValid {
      conflict := conflict + [Region];
    }
    if |conflict| > 0 {
      return Invalid(conflict);
    }
    return Valid;
  }
}

/** Conversion between the 81-character puzzle string and the grid:
    `transform` reads the string row by row into a fresh 9x9 grid, turning
    `.` into 0; `transformBack` flattens a grid and joins its numbers. */
module Codec {
  import opened Board

  /** The characters `transform` can parse: an empty mark or one decimal digit. */
  predicate IsCodecChar(ch: char) {
    ch == '.' || '0' <= ch <= '9'
  }

  /** An input `transform` accepts: 81 characters it can parse. */
  predicate IsGridString(s: string) {
    |s| == 81 && forall i :: 0 <= i < 81 ==> IsCodecChar(s[i])
  }

  /** The string with every `.` replaced by `0`. */
  function ReplaceDots(s: string): (t: string)
    ensures |t| == |s|
  {
    seq(|s|, i requires 0 <= i < |s| => if s[i] == '.' then '0' else s[i])
  }

  /** Value of one decimal digit character. */
  function DigitValue(ch: char): int {
    ch as int - '0' as int
  }

  /** The character of a single decimal digit. */
  function DigitChar(v: int): char
    requires 0 <= v <= 9
  {
    (v + '0' as int) as char
  }

  /** The cell a puzzle character stands for: 0 for `.`, the digit otherwise. */
  function CellValue(ch: char): int {
    if ch == '.' then 0 else DigitValue(ch)
  }

  /** The grid a puzzle string describes: cell (r, c) comes from character 9r + c. */
  function Decode(s: string): (b: Board)
    requires IsGridString(s)
    ensures IsBoard(b)
  {
    seq(9, r requires 0 <= r < 9 => seq(9, c requires 0 <= c < 9 => CellValue(s[Pos(r, c)])))
  }

  /** transform: after the dots become zeros, each pass of the outer loop
      shifts nine characters off the front of the remaining array into a new
      row; the guard compares the row counter with the shrinking length,
      81 - 9i, so the loop runs exactly nine times. */
  method Transform(puzzle: string) returns (g: array2<int>)
    requires IsGridString(puzzle)
    ensures fresh(g) && g.Length0 == 9 && g.Length1 == 9
    ensures Cells(g) == Decode(puzzle)
  {
    var gridArray := ReplaceDots(puzzle);
    g := new int[9, 9];
    var i := 0;
    while i < |gridArray|
      invariant 0 <= i <= 9
      invariant |gridArray| == 81 - 9 * i
      invariant gridArray == ReplaceDots(puzzle)[9 * i..]
      invariant forall r, c :: 0 <= r < i && 0 <= c < 9 ==> g[r, c] == Decode(puzzle)[r][c]
    {
      var j := 0;
      while j < 9
        invariant 0 <= j <= 9
        invariant gridArray == ReplaceDots(puzzle)[9 * i + j..]
        invariant forall r, c :: 0 <= r < i && 0 <= c < 9 ==> g[r, c] == Decode(puzzle)[r][c]
        invariant forall c :: 0 <= c < j ==> g[i, c] == Decode(puzzle)[i][c]
      {
        g[i, j] := DigitValue(gridArray[0]);
        gridArray := gridArray[1..];
        j := j + 1;
      }
      i := i + 1;
    }
    GridExt(Cells(g), Decode(puzzle));
  }

  /** grid.flat(): the rows laid end to end. */
  function Flatten(b: seq<seq<int>>): seq<int> {
    if b == [] then [] else b[0] + Flatten(b[1..])
  }

  /** Flattening nine-cell rows puts cell (r, c) at position 9r + c. */
  lemma {:induction false} FlattenAt(b: seq<seq<int>>)
    requires forall r :: 0 <= r < |b| ==> |b[r]| == 9
    ensures |Flatten(b)| == 9 * |b|
    ensures forall r, c :: 0 <= r < |b| && 0 <= c < 9 ==> Flatten(b)[Pos(r, c)] == b[r][c]
  {
    if b != [] {
      FlattenAt(b[1..]);
      forall r, c | 0 <= r < |b| && 0 <= c < 9
        ensures Flatten(b)[Pos(r, c)] == b[r][c]
      {
        if r > 0 {
          assert Flatten(b)[Pos(r, c)] == Flatten(b[1..])[Pos(r - 1, c)];
        }
      }
    }
  }

  /** .join(""): every number written as its decimal digit. */
  function Join(xs: seq<int>): (s: string)
    requires forall i :: 0 <= i < |xs| ==> 0 <= xs[i] <= 9
    ensures |s| == |xs|
  {
    seq(|xs|, i requires 0 <= i < |xs| => DigitChar(xs[i]))
  }

  /** transformBack: the row-major string of the grid's digits, with empty
      cells written as `0`. */
  function TransformBack(b: Board): (s: string)
    requires IsBoard(b)
    ensures |s| == 81
    ensures forall r, c :: 0 <= r < 9 && 0 <= c < 9 ==> s[Pos(r, c)] == DigitChar(b[r][c])
  {
    FlattenDigits(b);
    FlattenAt(b);
    Join(Flatten(b))
  }

  /** Flattening a well-formed grid gives 81 numbers in 0..9. */
  lemma FlattenDigits(b: Board)
    requires IsBoard(b)
    ensures |Flatten(b)| == 81
    ensures forall i :: 0 <= i < |Flatten(b)| ==> 0 <= Flatten(b)[i] <= 9
  {
    FlattenAt(b);
    forall i | 0 <= i < 81
      ensures 0 <= Flatten(b)[i] <= 9
    {
      PosSplit(i);
    }
  }

  lemma DigitRoundTrip(v: int)
    requires 0 <= v <= 9
    ensures IsCodecChar(DigitChar(v)) && CellValue(DigitChar(v)) == v
  {
  }

  /** Row and column of a position in a row-major 9x9 layout. */
  lemma PosSplit(i: int)
    requires 0 <= i < 81
    ensures 0 <= i / 9 < 9 && 0 <= i % 9 < 9 && Pos(i / 9, i % 9) == i
  {
  }

  /** transform undoes transformBack on every well-formed grid. */
  lemma DecodeTransformBack(b: Board)
    requires IsBoard(b)
    ensures IsGridString(TransformBack(b))
    ensures Decode(TransformBack(b)) == b
  {
    var s := TransformBack(b);
    forall i | 0 <= i < 81
      ensures IsCodecChar(s[i])
    {
      PosSplit(i);
      DigitRoundTrip(b[i / 9][i % 9]);
    }
    forall r, c | 0 <= r < 9 && 0 <= c < 9
      ensures Decode(s)[r][c] == b[r][c]
    {
      DigitRoundTrip(b[r][c]);
    }
    GridExt(Decode(s), b);
  }

  /** transformBack after transform gives back the string with every `.`
      turned into `0`. */
  lemma TransformBackDecode(s: string)
    requires IsGridString(s)
    ensures TransformBack(Decode(s)) == ReplaceDots(s)
  {
    var t := TransformBack(Decode(s));
    forall i | 0 <= i < 81
      ensures t[i] == ReplaceDots(s)[i]
    {
      PosSplit(i);
    }
  }

  /** The round trip through the grid is exact precisely for strings
      without `.`. */
  lemma TransformBackDecodeExact(s: string)
    requires IsGridString(s)
    ensures TransformBack(Decode(s)) == s <==> forall i :: 0 <= i < 81 ==> s[i] != '.'
  {
    TransformBackDecode(s);
    if forall i :: 0 <= i < 81 ==> s[i] != '.' {
      assert ReplaceDots(s) == s;
    }
    if TransformBack(Decode(s)) == s {
      forall i | 0 <= i < 81
        ensures s[i] != '.'
      {
        assert ReplaceDots(s)[i] == s[i];
      }
    }
  }
}

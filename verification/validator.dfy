/** Structural checks on a puzzle string before any solving: length first,
    then alphabet, then the number of givens; the first failure wins. */
module Validator {
  const PuzzleLength := 81
  /** Fewest givens a puzzle may have. */
  const MinGivens := 17

  datatype ValidationError = WrongLength | BadCharacters | InsufficientGivens

  /** The message each failure is reported with. */
  function Message(e: ValidationError): string {
    match e
    case WrongLength => "Expected puzzle to be 81 characters long"
    case BadCharacters => "Invalid characters in puzzle"
    case InsufficientGivens => "Not enough givens / multiple solutions"
  }

  /** A client can tell the three failures apart by their messages. */
  lemma MessagesIdentifyErrors(e1: ValidationError, e2: ValidationError)
    ensures Message(e1) == Message(e2) <==> e1 == e2
  {
    if e1 != e2 {
      assert Message(e1)[0] != Message(e2)[0];
    }
  }

  /** `{valid: true}` or `{valid: false, errorMessage}`. */
  datatype Validity = Valid | Invalid(error: ValidationError)

  /** The puzzle alphabet: a digit 1..9 or `.`. */
  predicate IsPuzzleChar(ch: char) {
    '1' <= ch <= '9' || ch == '.'
  }

  predicate OnlyPuzzleChars(s: string) {
    forall i :: 0 <= i < |s| ==> IsPuzzleChar(s[i])
  }

  /** Number of characters other than `.`. */
  function Givens(s: string): nat {
    if s == [] then 0 else (if s[0] != '.' then 1 else 0) + Givens(s[1..])
  }

  /** Givens of a concatenation add up. */
  lemma {:induction false} GivensAppend(s: string, t: string)
    ensures Givens(s + t) == Givens(s) + Givens(t)
  {
    if s != [] {
      assert (s + t)[1..] == s[1..] + t;
      GivensAppend(s[1..], t);
    } else {
      assert s + t == t;
    }
  }

  /** A concatenation keeps to the alphabet exactly when both parts do. */
  lemma OnlyPuzzleCharsAppend(s: string, t: string)
    ensures OnlyPuzzleChars(s + t) <==> OnlyPuzzleChars(s) && OnlyPuzzleChars(t)
  {
    if OnlyPuzzleChars(s + t) {
      forall i | 0 <= i < |s| ensures IsPuzzleChar(s[i]) {
        assert s[i] == (s + t)[i];
      }
      forall i | 0 <= i < |t| ensures IsPuzzleChar(t[i]) {
        assert t[i] == (s + t)[|s| + i];
      }
    }
  }

  /** Givens never exceed the length, and reach it exactly when no `.` occurs. */
  lemma {:induction false} GivensBound(s: string)
    ensures Givens(s) <= |s|
    ensures Givens(s) == |s| <==> forall i :: 0 <= i < |s| ==> s[i] != '.'
  {
    if s != [] {
      GivensBound(s[1..]);
      assert forall i :: 1 <= i < |s| ==> s[i] == s[1..][i - 1];
    }
  }

  /** A puzzle that passes every check. */
  predicate IsValidPuzzle(s: string) {
    |s| == PuzzleLength && OnlyPuzzleChars(s) && Givens(s) >= MinGivens
  }

  /** validate: the checks in their fixed order, counting givens in a loop. */
  method Validate(puzzle: string) returns (v: Validity)
    ensures |puzzle| != PuzzleLength ==> v == Invalid(WrongLength)
    ensures |puzzle| == PuzzleLength && !OnlyPuzzleChars(puzzle) ==> v == Invalid(BadCharacters)
    ensures |puzzle| == PuzzleLength && OnlyPuzzleChars(puzzle) && Givens(puzzle) < MinGivens ==>
      v == Invalid(InsufficientGivens)
    ensures v == Valid <==> IsValidPuzzle(puzzle)
  {
    if |puzzle| != PuzzleLength {
      return Invalid(WrongLength);
    }
    if exists i :: 0 <= i < |puzzle| && !IsPuzzleChar(puzzle[i]) {
      return Invalid(BadCharacters);
    }
    var count := 0;
    for i := 0 to |puzzle|
      invariant count == Givens(puzzle[..i])
    {
      GivensAppend(puzzle[..i], [puzzle[i]]);
      assert puzzle[..i + 1] == puzzle[..i] + [puzzle[i]];
      if puzzle[i] != '.' {
        count := count + 1;
      }
    }
    assert puzzle[..|puzzle|] == puzzle;
    if count < MinGivens {
      return Invalid(InsufficientGivens);
    }
    return Valid;
  }
}

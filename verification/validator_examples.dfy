/** The validation cases the repository's unit tests exercise, stated
    against the model. */
module ValidatorExamples {
  import opened Validator

  /** The nine rows of the puzzle string the tests treat as valid. */
  const Row1: string := "..9..5.1."
  const Row2: string := "85.4....2"
  const Row3: string := "432......"
  const Row4: string := "1...69.83"
  const Row5: string := ".9.....6."
  const Row6: string := "62.71...9"
  const Row7: string := "......194"
  const Row8: string := "5....4.37"
  const Row9: string := ".4.3..6.."

  /** The puzzle string the tests treat as valid. */
  const ValidString: string := Row1 + Row2 + Row3 + Row4 + Row5 + Row6 + Row7 + Row8 + Row9

  /** The same puzzle with its first two characters replaced by letters. */
  const InvalidString: string := "AA9..5.1." + Row2 + Row3 + Row4 + Row5 + Row6 + Row7 + Row8 + Row9

  const ShortString: string := "stringthatisnot81charactersandhassomeothers...."
  const LongString: string :=
    "stringthatisnot81charactersandhassomeothers..............................................."

  /** Nine strings laid end to end: their givens add up, and they keep to
      the puzzle alphabet when every one of them does. */
  lemma NineRows(x1: string, x2: string, x3: string, x4: string, x5: string,
                 x6: string, x7: string, x8: string, x9: string)
    ensures Givens(x1 + x2 + x3 + x4 + x5 + x6 + x7 + x8 + x9) ==
      Givens(x1) + Givens(x2) + Givens(x3) + Givens(x4) + Givens(x5) +
      Givens(x6) + Givens(x7) + Givens(x8) + Givens(x9)
    ensures
      (OnlyPuzzleChars(x1) && OnlyPuzzleChars(x2) && OnlyPuzzleChars(x3) &&
       OnlyPuzzleChars(x4) && OnlyPuzzleChars(x5) && OnlyPuzzleChars(x6) &&
       OnlyPuzzleChars(x7) && OnlyPuzzleChars(x8) && OnlyPuzzleChars(x9)) ==>
      OnlyPuzzleChars(x1 + x2 + x3 + x4 + x5 + x6 + x7 + x8 + x9)
  {
    GivensAppend(x1, x2);
    OnlyPuzzleCharsAppend(x1, x2);
    GivensAppend(x1 + x2, x3);
    OnlyPuzzleCharsAppend(x1 + x2, x3);
    GivensAppend(x1 + x2 + x3, x4);
    OnlyPuzzleCharsAppend(x1 + x2 + x3, x4);
    GivensAppend(x1 + x2 + x3 + x4, x5);
    OnlyPuzzleCharsAppend(x1 + x2 + x3 + x4, x5);
    GivensAppend(x1 + x2 + x3 + x4 + x5, x6);
    OnlyPuzzleCharsAppend(x1 + x2 + x3 + x4 + x5, x6);
    GivensAppend(x1 + x2 + x3 + x4 + x5 + x6, x7);
    OnlyPuzzleCharsAppend(x1 + x2 + x3 + x4 + x5 + x6, x7);
    GivensAppend(x1 + x2 + x3 + x4 + x5 + x6 + x7, x8);
    OnlyPuzzleCharsAppend(x1 + x2 + x3 + x4 + x5 + x6 + x7, x8);
    GivensAppend(x1 + x2 + x3 + x4 + x5 + x6 + x7 + x8, x9);
    OnlyPuzzleCharsAppend(x1 + x2 + x3 + x4 + x5 + x6 + x7 + x8, x9);
  }

  // Each row of the sample puzzle uses only the puzzle alphabet; the counts are
  // its givens.
  lemma Row1Facts() ensures OnlyPuzzleChars(Row1) && Givens(Row1) == 3 {}
  lemma Row2Facts() ensures OnlyPuzzleChars(Row2) && Givens(Row2) == 4 {}
  lemma Row3Facts() ensures OnlyPuzzleChars(Row3) && Givens(Row3) == 3 {}
  lemma Row4Facts() ensures OnlyPuzzleChars(Row4) && Givens(Row4) == 5 {}
  lemma Row5Facts() ensures OnlyPuzzleChars(Row5) && Givens(Row5) == 2 {}
  lemma Row6Facts() ensures OnlyPuzzleChars(Row6) && Givens(Row6) == 5 {}
  lemma Row7Facts() ensures OnlyPuzzleChars(Row7) && Givens(Row7) == 3 {}
  lemma Row8Facts() ensures OnlyPuzzleChars(Row8) && Givens(Row8) == 4 {}
  lemma Row9Facts() ensures OnlyPuzzleChars(Row9) && Givens(Row9) == 3 {}

  /** validate accepts the sample puzzle: 81 characters from the puzzle
      alphabet, 32 of them givens. */
  lemma ValidStringIsValid()
    ensures |ValidString| == PuzzleLength
    ensures OnlyPuzzleChars(ValidString)
    ensures Givens(ValidString) == 32
    ensures IsValidPuzzle(ValidString)
  {
    NineRows(Row1, Row2, Row3, Row4, Row5, Row6, Row7, Row8, Row9);
    Row1Facts();
    Row2Facts();
    Row3Facts();
    Row4Facts();
    Row5Facts();
    Row6Facts();
    Row7Facts();
    Row8Facts();
    Row9Facts();
  }

  /** validate rejects the invalid-character string at the alphabet check and
      both wrong-length strings at the length check. */
  lemma InvalidStringsRejected()
    ensures |InvalidString| == PuzzleLength && !OnlyPuzzleChars(InvalidString)
    ensures |ShortString| != PuzzleLength && |LongString| != PuzzleLength
  {
    assert InvalidString[0] == 'A';
  }
}

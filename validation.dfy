/** Structural and semantic validation of a puzzle string: length, character set, the
    minimum number of clues, and the consistency of every clue with the rest of the board. */
module Validation {
  import opened Grid
  import opened Placement

  const LengthError := "Expected puzzle to be 81 characters long"
  const CharactersError := "Invalid characters in puzzle"
  const UnsolvableError := "Puzzle cannot be solved"

  /** `{isValid: true}`, or `{isValid: false, error}`. */
  datatype ValidationResult = Valid | Invalid(error: string)

  predicate AllCellChars(puzzle: string) {
    forall k :: 0 <= k < |puzzle| ==> IsCellChar(puzzle[k])
  }

  /** `/^[1-9\.]{81}$/`. */
  predicate IsPuzzleString(puzzle: string) {
    |puzzle| == NumCells && AllCellChars(puzzle)
  }

  /** The number of digits 1-9 in the string: the length left by `replace(/[^1-9]/gm, '')`. */
  function ClueCount(puzzle: string): (n: nat)
    ensures n <= |puzzle|
    ensures n == |puzzle| <==> forall k :: 0 <= k < |puzzle| ==> IsDigit(puzzle[k])
  {
    if puzzle == [] then 0
    else
      var rest := puzzle[1..];
      assert forall k :: 1 <= k < |puzzle| ==> puzzle[k] == rest[k - 1];
      (if IsDigit(puzzle[0]) then 1 else 0) + ClueCount(rest)
  }

  /** Counting clues distributes over concatenation: the count of a puzzle is the sum of the
      counts of its rows. */
  lemma {:induction false} ClueCountAppend(a: string, b: string)
    ensures ClueCount(a + b) == ClueCount(a) + ClueCount(b)
  {
    if a != [] {
      assert (a + b)[1..] == a[1..] + b;
      ClueCountAppend(a[1..], b);
    } else {
      assert a + b == b;
    }
  }

  /** areEnoughClues. */
  predicate AreEnoughClues(puzzle: string): (b: bool)
    ensures b ==> |puzzle| >= MinClues
    ensures |puzzle| >= MinClues && (forall k :: 0 <= k < |puzzle| ==> IsDigit(puzzle[k])) ==> b
  {
    ClueCount(puzzle) >= MinClues
  }

  /** What validateEachClue asks of the clue at index i: with that cell blanked, the clue's
      own digit passes the row, column and region checks at its coordinate. */
  predicate ClueConsistent(puzzle: string, i: int)
    requires |puzzle| == NumCells && 0 <= i < NumCells
  {
    var blanked := puzzle[i := '.'];
    var row := [RowLetterFromIndex(i / RowLength)];
    var column := [DigitChar(i % RowLength + 1)];
    var value := [puzzle[i]];
    && CheckRowPlacement(blanked, row, column, value)
    && CheckColPlacement(blanked, row, column, value)
    && CheckRegionPlacement(blanked, row, column, value)
  }

  predicate AllCluesConsistent(puzzle: string)
    requires |puzzle| == NumCells
  {
    forall i :: 0 <= i < NumCells && puzzle[i] != '.' ==> ClueConsistent(puzzle, i)
  }

  /** validateEachClue: for every clue in turn, blank it in a copy and re-check it; stop at
      the first clue that fails. */
  method ValidateEachClue(puzzle: string) returns (ok: bool)
    requires |puzzle| == NumCells
    ensures ok == AllCluesConsistent(puzzle)
  {
    for i := 0 to NumCells
      invariant forall k :: 0 <= k < i && puzzle[k] != '.' ==> ClueConsistent(puzzle, k)
    {
      var wValue := puzzle[i];
      var wRow := RowLetterFromIndex(i / RowLength);
      var wCol := i % RowLength + 1;
      if wValue == '.' {
        continue;
      }
      var wPuzzle := puzzle[i := '.'];
      if !CheckRowPlacement(wPuzzle, [wRow], [DigitChar(wCol)], [wValue]) {
        return false;
      }
      if !CheckColPlacement(wPuzzle, [wRow], [DigitChar(wCol)], [wValue]) {
        return false;
      }
      if !CheckRegionPlacement(wPuzzle, [wRow], [DigitChar(wCol)], [wValue]) {
        return false;
      }
    }
    return true;
  }

  /** No two clues that share a row, a column or a region hold the same digit. */
  ghost predicate NoDuplicateClues(puzzle: string)
    requires |puzzle| == NumCells
  {
    forall j, k ::
      (0 <= j < NumCells && 0 <= k < NumCells && j != k && Peers(j, k) && puzzle[j] != '.' && puzzle[k] != '.')
      ==> puzzle[j] != puzzle[k]
  }

  /** A clue passes its re-check exactly when it is a digit that no peer repeats. */
  lemma ClueConsistentIff(puzzle: string, i: int)
    requires |puzzle| == NumCells && 0 <= i < NumCells && puzzle[i] != '.'
    ensures ClueConsistent(puzzle, i) <==>
      IsDigit(puzzle[i]) && forall k :: 0 <= k < NumCells && k != i && Peers(i, k) ==> puzzle[k] != puzzle[i]
  {
    var blanked := puzzle[i := '.'];
    var row := [RowLetterFromIndex(i / RowLength)];
    var column := [DigitChar(i % RowLength + 1)];
    RowLetterRoundTrip(i / RowLength);
    DivMod9(i, i / 9, i % 9);
    if IsDigit(puzzle[i]) {
      assert IsValidRowColVal(row, column, [puzzle[i]]);
      assert TargetIndex(row, column) == i;
      assert At(blanked, i) == Some('.');
      forall k | 0 <= k < NumCells && k != i
        ensures At(blanked, k) == Some(puzzle[k])
      {
      }
    }
  }

  /** validateEachClue succeeds on a well-formed puzzle exactly when no two clues in the same
      row, column or region repeat a digit. */
  lemma {:induction false} AllCluesConsistentIffNoDuplicates(puzzle: string)
    requires IsPuzzleString(puzzle)
    ensures AllCluesConsistent(puzzle) <==> NoDuplicateClues(puzzle)
  {
    if AllCluesConsistent(puzzle) {
      forall j, k | 0 <= j < NumCells && 0 <= k < NumCells && j != k && Peers(j, k)
        && puzzle[j] != '.' && puzzle[k] != '.'
        ensures puzzle[j] != puzzle[k]
      {
        ClueConsistentIff(puzzle, k);
      }
    }
    if NoDuplicateClues(puzzle) {
      forall i | 0 <= i < NumCells && puzzle[i] != '.'
        ensures ClueConsistent(puzzle, i)
      {
        ClueConsistentIff(puzzle, i);
      }
    }
  }

  /** validate: the four checks in order, stopping at the first that fails. */
  function Validate(puzzle: string): (v: ValidationResult)
    ensures v == Invalid(LengthError) <==> |puzzle| != NumCells
    ensures v == Invalid(CharactersError) <==> |puzzle| == NumCells && !AllCellChars(puzzle)
    ensures v == Invalid(UnsolvableError) <==>
      IsPuzzleString(puzzle) && (ClueCount(puzzle) < MinClues || !NoDuplicateClues(puzzle))
    ensures v == Valid <==>
      IsPuzzleString(puzzle) && ClueCount(puzzle) >= MinClues && NoDuplicateClues(puzzle)
  {
    if |puzzle| != NumCells then Invalid(LengthError)
    else if !IsPuzzleString(puzzle) then Invalid(CharactersError)
    else if !AreEnoughClues(puzzle) then Invalid(UnsolvableError)
    else
      AllCluesConsistentIffNoDuplicates(puzzle);
      if !AllCluesConsistent(puzzle) then Invalid(UnsolvableError)
      else Valid
  }

  /** A full board of digits with no repeated digit in any row, column or region validates
      (re-validating a solution succeeds). */
  lemma ValidateFullBoard(board: string)
    requires |board| == NumCells && (forall k :: 0 <= k < NumCells ==> IsDigit(board[k]))
    requires NoDuplicateClues(board)
    ensures Validate(board) == Valid
  {
    assert ClueCount(board) == NumCells;
  }
}

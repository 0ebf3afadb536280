/** The solver proper: the search for the next digit to try, the step back to the previous
    blank, and `solve`, which drives the annotated matrix from the first cell to the last. */
module Solver {
  import opened Grid
  import opened Placement
  import opened Validation
  import opened Lex
  import opened Search

  const SolveLengthError := "Invalid length in solve()"
  const SolveCharactersError := "Invalid characters in solve()"

  /** What `solve` returns: a `solution` string or an `error` message. */
  datatype SolveResult = Solution(solution: string) | Failure(error: string)

  /** findNextValidNumber: the smallest digit from `nextNumberToTry` to 9 that passes the
      column, row and region checks at (row, col), or -1 when there is none. */
  method FindNextValidNumber(puzzle: string, row: int, col: int, nextNumberToTry: int) returns (n: int)
    requires |puzzle| > 72 && 0 <= row < RowLength && 0 <= col < RowLength && 1 <= nextNumberToTry
    ensures n == -1 || (nextNumberToTry <= n <= 9 && PassesChecks(puzzle, row, col, n))
    ensures forall e :: nextNumberToTry <= e <= 9 && (n == -1 || e < n) ==> !PassesChecks(puzzle, row, col, e)
  {
    var nextNum := nextNumberToTry;
    while nextNum <= 9
      invariant nextNumberToTry <= nextNum
      invariant forall e :: nextNumberToTry <= e < nextNum && e <= 9 ==> !PassesChecks(puzzle, row, col, e)
      decreases 10 - nextNum
    {
      var r, c, v := [RowLetterFromIndex(row)], [DigitChar(col + 1)], [DigitChar(nextNum)];
      if CheckColPlacement(puzzle, r, c, v) && CheckRowPlacement(puzzle, r, c, v) && CheckRegionPlacement(puzzle, r, c, v) {
        return nextNum;
      }
      nextNum := nextNum + 1;
    }
    return -1;
  }

  /** backtrack: the nearest blank of the original puzzle strictly before `currentIndex`,
      or -1 when there is none. */
  method Backtrack(puzzle: string, currentIndex: int) returns (index: int)
    ensures index == -1 || (0 <= index < currentIndex && At(puzzle, index) == Some('.'))
    ensures forall k :: index < k < currentIndex ==> At(puzzle, k) != Some('.')
  {
    var indexIter := currentIndex - 1;
    while indexIter >= 0
      invariant indexIter < currentIndex
      invariant forall k :: indexIter < k < currentIndex ==> At(puzzle, k) != Some('.')
    {
      if At(puzzle, indexIter) == Some('.') {
        return indexIter;
      }
      indexIter := indexIter - 1;
    }
    return -1;
  }

  /** The guess at a blank cursor: the next digit from `nextNumToTry` on that passes the
      checks is written and the cursor moves on; when there is none the blank is reset, the
      cursor moves back to the nearest earlier blank, which is cleared, and -1 means there is
      no earlier blank. `d` is the digit written, or 0 when there is none. */
  method Guess(puzzle: string, cells: array<Cell>, iter: int, ghost board: seq<Cell>)
      returns (next: int, ghost board': seq<Cell>, ghost d: int)
    requires cells[..] == board && SearchInv(puzzle, board, iter)
    requires iter < NumCells && board[iter].nextNumToTry != ClueMark
    modifies cells
    ensures next == -1 || next == iter + 1 || 0 <= next < iter
    // a digit fits: the least one from the next to try is written, and the cursor moves on
    ensures next == iter + 1 ==>
      && board[iter].nextNumToTry <= d <= 9
      && PassesChecks(BoardOf(board), iter / RowLength, iter % RowLength, d)
      && (forall e :: 1 <= board[iter].nextNumToTry <= e < d ==>
            !PassesChecks(BoardOf(board), iter / RowLength, iter % RowLength, e))
      && board' == board[iter := Cell(DigitChar(d), d + 1)]
    // no digit fits: the cell is reset and the cursor goes back to the nearest earlier blank
    ensures next != iter + 1 ==>
      forall e :: 1 <= board[iter].nextNumToTry <= e <= 9 ==>
        !PassesChecks(BoardOf(board), iter / RowLength, iter % RowLength, e)
    ensures 0 <= next < iter ==>
      && puzzle[next] == '.' && (forall m :: next < m < iter ==> puzzle[m] != '.')
      && board' == board[iter := Cell('.', 1)][next := Cell('.', board[next].nextNumToTry)]
    ensures next == -1 ==>
      && (forall m :: 0 <= m < iter ==> puzzle[m] != '.')
      && cells[..] == board[iter := Cell('.', 1)]
      && forall s :: !Acceptable(puzzle, s)
    ensures next != -1 ==> cells[..] == board' && SearchInv(puzzle, board', next)
    ensures next != -1 ==> Progress(puzzle, board, iter) < Progress(puzzle, board', next)
  {
    board', d := board, 0;
    var wCell := cells[iter];
    var wPuzzleString := BoardOf(cells[..]);
    var possibleValue := FindNextValidNumber(wPuzzleString, iter / RowLength, iter % RowLength, wCell.nextNumToTry);
    if possibleValue == -1 {
      cells[iter] := Cell('.', 1);
      next := Backtrack(puzzle, iter);
      forall m | next < m < iter
        ensures puzzle[m] != '.'
      {
        assert At(puzzle, m) != Some('.');
      }
      if next == -1 {
        StepExhausted(puzzle, board, iter);
        return;
      }
      assert At(puzzle, next) == Some('.');
      cells[next] := Cell('.', cells[next].nextNumToTry);
      StepBack(puzzle, board, iter, next);
      board' := board[iter := Cell('.', 1)][next := Cell('.', board[next].nextNumToTry)];
    } else {
      d := possibleValue;
      cells[iter] := Cell(DigitChar(possibleValue), possibleValue + 1);
      StepPlace(puzzle, board, iter, possibleValue);
      board' := board[iter := Cell(DigitChar(possibleValue), possibleValue + 1)];
      next := iter + 1;
    }
  }

  /** solve: the length and character checks, then the backtracking search. On a well-formed
      puzzle the result is the least acceptable completion in dictionary order, or the
      unsolvable error exactly when there is no acceptable completion. */
  method Solve(puzzle: string) returns (result: SolveResult)
    ensures |puzzle| != NumCells ==> result == Failure(SolveLengthError)
    ensures |puzzle| == NumCells && !AllCellChars(puzzle) ==> result == Failure(SolveCharactersError)
    ensures IsPuzzleString(puzzle) && result.Failure? ==>
      result.error == UnsolvableError && forall s :: !Acceptable(puzzle, s)
    ensures IsPuzzleString(puzzle) && result.Solution? ==>
      && Acceptable(puzzle, result.solution)
      && forall s :: Acceptable(puzzle, s) ==> !LexLess(s, result.solution)
  {
    var puzzleMatrix := CreatePuzzleMatrix(puzzle);
    if |puzzle| != NumCells {
      return Failure(SolveLengthError);
    }
    if !AllCellChars(puzzle) {
      return Failure(SolveCharactersError);
    }
    var annotatedMatrix := AddNextToTry(puzzleMatrix);
    FlatAnnotated(puzzleMatrix);
    FlattenPuzzleMatrix(puzzle);
    var annotated := FlatCells(annotatedMatrix);
    var cells := new Cell[NumCells](k requires 0 <= k < NumCells => annotated[k]);
    assert cells[..] == AnnotatedCells(puzzle);
    InitialState(puzzle);

    var unsolvable := false;
    var iter := 0;
    ghost var board := cells[..];
    while iter < NumCells
      invariant board == cells[..]
      invariant SearchInv(puzzle, board, iter)
      decreases Pow(NumCells) - Progress(puzzle, board, iter)
    {
      ProgressBounded(puzzle, board, iter);
      var wCell := cells[iter];
      if wCell.nextNumToTry == ClueMark {
        StepClue(puzzle, board, iter);
        iter := iter + 1;
      } else {
        var next;
        ghost var after, d;
        next, after, d := Guess(puzzle, cells, iter, board);
        if next == -1 {
          unsolvable := true;
          break;
        }
        board, iter := after, next;
      }
    }
    if unsolvable {
      return Failure(UnsolvableError);
    }
    Finished(puzzle, board);
    return Solution(BoardOf(cells[..]));
  }
}

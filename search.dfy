/** The state of the backtracking search and what each of its steps keeps true.

    The solver walks a cursor `iter` over the 81 cells in row-major order. Every cell
    carries its value and the next digit to try there (-1 for a clue). A forward step
    writes the smallest digit, from the cell's next digit to try up to 9, that passes the
    three placement checks; when none does, the cell is reset and the cursor goes back to
    the nearest earlier blank of the original puzzle, which is cleared.

    The search explores candidate boards in lexicographic order. The invariant `SearchInv`
    says that the board is consistent so far (`Sound`) and that no acceptable completion
    lies before the current position (`NothingSkipped`); a weight per cell, read as one
    number (`Progress`), grows with every step and bounds the search. */
module Search {
  import opened Grid
  import opened Placement
  import opened Validation
  import opened Lex

  /** A cell of the annotated matrix: its value and the next digit to try there. */
  datatype Cell = Cell(value: char, nextNumToTry: int)

  /** The `nextNumToTry` of a clue. */
  const ClueMark := -1

  /** The annotation of one cell: a blank starts at digit 1, a clue is marked. */
  function Annotate(c: char): Cell {
    if c == '.' then Cell('.', 1) else Cell(c, ClueMark)
  }

  /** addNextToTryToMatrix: annotate every cell of the row matrix. */
  function AddNextToTry(matrix: seq<seq<char>>): seq<seq<Cell>> {
    seq(|matrix|, r requires 0 <= r < |matrix| =>
      seq(|matrix[r]|, c requires 0 <= c < |matrix[r]| => Annotate(matrix[r][c])))
  }

  /** The annotated matrix has the shape of the row matrix, keeps every value, marks exactly
      the clues and starts every blank from 1. */
  lemma AnnotatedMatrix(matrix: seq<seq<char>>)
    ensures var m := AddNextToTry(matrix);
      && |m| == |matrix| && (forall r :: 0 <= r < |matrix| ==> |m[r]| == |matrix[r]|)
      && forall r, c :: 0 <= r < |matrix| && 0 <= c < |matrix[r]| ==>
           && m[r][c].value == matrix[r][c]
           && (m[r][c].nextNumToTry == ClueMark <==> matrix[r][c] != '.')
           && (matrix[r][c] == '.' ==> m[r][c].nextNumToTry == 1)
  {
  }

  /** The rows of a cell matrix, one after the other (`flat()`). */
  function FlatCells(matrix: seq<seq<Cell>>): seq<Cell> {
    if matrix == [] then [] else matrix[0] + FlatCells(matrix[1..])
  }

  /** The annotated puzzle, read in row-major order. */
  function AnnotatedCells(puzzle: string): seq<Cell> {
    seq(|puzzle|, k requires 0 <= k < |puzzle| => Annotate(puzzle[k]))
  }

  /** The string view of the cells: `flat().map(e => e.value).join("")`. */
  function BoardOf(cells: seq<Cell>): string {
    seq(|cells|, k requires 0 <= k < |cells| => cells[k].value)
  }

  /** Annotating the rows and then flattening annotates the flattened rows. */
  lemma {:induction false} FlatAnnotated(matrix: seq<seq<char>>)
    ensures FlatCells(AddNextToTry(matrix)) == AnnotatedCells(Flatten(matrix))
  {
    if matrix != [] {
      FlatAnnotated(matrix[1..]);
      assert AddNextToTry(matrix)[1..] == AddNextToTry(matrix[1..]);
    }
  }

  /** Annotating a puzzle keeps its board, and marks exactly its clues. */
  lemma AnnotatedBoard(puzzle: string)
    ensures BoardOf(AnnotatedCells(puzzle)) == puzzle
    ensures forall k :: 0 <= k < |puzzle| ==>
      (AnnotatedCells(puzzle)[k].nextNumToTry == ClueMark <==> puzzle[k] != '.')
  {
  }

  // ---------------------------------------------------------------------------
  // Candidates

  /** The checks findNextValidNumber makes for digit d at (row, col), column first. */
  predicate PassesChecks(board: string, row: int, col: int, d: int)
    requires |board| > 72 && 0 <= row < 9 && 0 <= col < 9 && 1 <= d <= 9
  {
    var r, c, v := [RowLetterFromIndex(row)], [DigitChar(col + 1)], [DigitChar(d)];
    CheckColPlacement(board, r, c, v) && CheckRowPlacement(board, r, c, v) && CheckRegionPlacement(board, r, c, v)
  }

  /** Digit d repeats no peer of cell i. */
  ghost predicate Placeable(board: string, i: int, d: int)
    requires |board| == NumCells && 1 <= d <= 9
  {
    forall m :: 0 <= m < NumCells && Peers(i, m) ==> board[m] != DigitChar(d)
  }

  /** On a blank cell, the three checks together accept exactly the digits no peer holds. */
  lemma PassesChecksIff(board: string, i: int, d: int)
    requires |board| == NumCells && 0 <= i < NumCells && board[i] == '.' && 1 <= d <= 9
    ensures PassesChecks(board, i / RowLength, i % RowLength, d) <==> Placeable(board, i, d)
  {
    var r, c, v := [RowLetterFromIndex(i / 9)], [DigitChar(i % 9 + 1)], [DigitChar(d)];
    RowLetterRoundTrip(i / 9);
    DivMod9(i, i / 9, i % 9);
    assert IsValidRowColVal(r, c, v);
    assert TargetIndex(r, c) == i;
    assert forall m :: 0 <= m < NumCells ==> At(board, m) == Some(board[m]);
  }

  // ---------------------------------------------------------------------------
  // Completions

  /** A full board of digits that keeps every clue of the puzzle. */
  ghost predicate Completes(puzzle: string, s: string)
    requires |puzzle| == NumCells
  {
    |s| == NumCells && forall k :: 0 <= k < NumCells ==> IsDigit(s[k]) && (puzzle[k] != '.' ==> s[k] == puzzle[k])
  }

  /** What the search accepts: a completion in which no cell that was blank repeats the digit
      of a peer. Two clues are never compared with each other. */
  ghost predicate Acceptable(puzzle: string, s: string)
    requires |puzzle| == NumCells
  {
    && Completes(puzzle, s)
    && forall j, k {:trigger Peers(j, k)} :: (0 <= j < NumCells && 0 <= k < NumCells && j != k && puzzle[k] == '.' && Peers(j, k))
         ==> s[j] != s[k]
  }

  /** A solved Sudoku: 81 digits with no digit repeated in a row, a column or a region. */
  ghost predicate Solved(s: string) {
    |s| == NumCells && (forall k :: 0 <= k < NumCells ==> IsDigit(s[k])) && NoDuplicateClues(s)
  }

  /** s comes before t in dictionary order. */
  ghost predicate LexLess(s: string, t: string)
    requires |s| == NumCells && |t| == NumCells
  {
    exists k :: 0 <= k < NumCells && s[..k] == t[..k] && s[k] < t[k]
  }

  /** s comes before the search position at cell k: it agrees with the board before k, k is
      at or before the cursor, and s is smaller at k than the board's digit (before the
      cursor) or than the next digit to try (at the cursor). */
  ghost predicate BelowAt(s: string, board: string, iter: int, next: int, k: int)
    requires |s| == NumCells && |board| == NumCells
  {
    0 <= k <= iter && k < NumCells && s[..k] == board[..k] &&
      (if k < iter then s[k] < board[k] else DigitValue(s[k]) < next)
  }

  // ---------------------------------------------------------------------------
  // The search invariant

  /** Every filled blank differs from every filled peer. */
  ghost predicate Sound(puzzle: string, board: string)
    requires |puzzle| == NumCells && |board| == NumCells
  {
    forall j, k ::
      (0 <= j < NumCells && 0 <= k < NumCells && j != k && puzzle[k] == '.' && board[k] != '.' && board[j] != '.' && Peers(j, k))
      ==> board[j] != board[k]
  }

  /** No acceptable completion lies before the search position. */
  ghost predicate NothingSkipped(puzzle: string, board: string, iter: int, next: int)
    requires |puzzle| == NumCells && |board| == NumCells
  {
    forall s, k :: Acceptable(puzzle, s) ==> !BelowAt(s, board, iter, next, k)
  }

  ghost function NextAt(cells: seq<Cell>, iter: int): int {
    if 0 <= iter < |cells| then cells[iter].nextNumToTry else 0
  }

  ghost predicate SearchInv(puzzle: string, cells: seq<Cell>, iter: int) {
    && IsPuzzleString(puzzle) && |cells| == NumCells && 0 <= iter <= NumCells
    // clues are never written
    && (forall k :: 0 <= k < NumCells && puzzle[k] != '.' ==> cells[k] == Cell(puzzle[k], ClueMark))
    // every blank before the cursor holds a digit, and its next digit to try follows it
    && (forall k :: 0 <= k < iter && puzzle[k] == '.' ==>
          IsDigit(cells[k].value) && cells[k].nextNumToTry == DigitValue(cells[k].value) + 1)
    // every blank after the cursor is empty and starts again from 1
    && (forall k :: iter < k < NumCells && puzzle[k] == '.' ==> cells[k] == Cell('.', 1))
    // a blank under the cursor is empty, with a next digit to try from 1 to 10
    && (iter < NumCells && puzzle[iter] == '.' ==>
          cells[iter].value == '.' && 1 <= cells[iter].nextNumToTry <= 10)
    && Sound(puzzle, BoardOf(cells))
    && NothingSkipped(puzzle, BoardOf(cells), iter, NextAt(cells, iter))
  }

  // ---------------------------------------------------------------------------
  // Termination measure: one weight per cell, read as a number in base 20

  ghost function Weight(puzzle: string, cells: seq<Cell>, iter: int, k: int): int
    requires |puzzle| == NumCells && |cells| == NumCells && 0 <= k < NumCells
  {
    if puzzle[k] != '.' then (if k < iter then 1 else 0)
    else if k < iter then 2 * DigitValue(cells[k].value)
    else if k == iter then 2 * cells[k].nextNumToTry - 1
    else 0
  }

  ghost function Weights(puzzle: string, cells: seq<Cell>, iter: int): (w: seq<int>)
    requires |puzzle| == NumCells && |cells| == NumCells
    ensures |w| == NumCells
  {
    seq(NumCells, k requires 0 <= k < NumCells => Weight(puzzle, cells, iter, k))
  }

  ghost function Progress(puzzle: string, cells: seq<Cell>, iter: int): int
    requires |puzzle| == NumCells && |cells| == NumCells
  {
    Enc(Weights(puzzle, cells, iter))
  }

  lemma WeightsBounded(puzzle: string, cells: seq<Cell>, iter: int)
    requires SearchInv(puzzle, cells, iter)
    ensures Bounded(Weights(puzzle, cells, iter))
  {
  }

  /** The measure of the solver's loop is never negative. */
  lemma ProgressBounded(puzzle: string, cells: seq<Cell>, iter: int)
    requires SearchInv(puzzle, cells, iter)
    ensures 0 <= Progress(puzzle, cells, iter) < Pow(NumCells)
  {
    WeightsBounded(puzzle, cells, iter);
    EncBounds(Weights(puzzle, cells, iter));
  }

  /** A step that keeps the weights before cell c and raises the weight of c makes progress. */
  lemma ProgressIncrease(puzzle: string, cells: seq<Cell>, iter: int, newCells: seq<Cell>, iter': int, c: int)
    requires SearchInv(puzzle, cells, iter) && SearchInv(puzzle, newCells, iter')
    requires 0 <= c < NumCells
    requires forall k :: 0 <= k < c ==> Weight(puzzle, cells, iter, k) == Weight(puzzle, newCells, iter', k)
    requires Weight(puzzle, cells, iter, c) < Weight(puzzle, newCells, iter', c)
    ensures Progress(puzzle, cells, iter) < Progress(puzzle, newCells, iter')
  {
    var w, v := Weights(puzzle, cells, iter), Weights(puzzle, newCells, iter');
    WeightsBounded(puzzle, cells, iter);
    WeightsBounded(puzzle, newCells, iter');
    assert w[..c] == v[..c];
    EncLexIncrease(w, v, c);
  }

  // ---------------------------------------------------------------------------
  // The steps of the search

  /** The annotated puzzle, cursor at 0, satisfies the invariant. */
  lemma InitialState(puzzle: string)
    requires IsPuzzleString(puzzle)
    ensures SearchInv(puzzle, AnnotatedCells(puzzle), 0)
  {
    var cells := AnnotatedCells(puzzle);
    AnnotatedBoard(puzzle);
    forall s, k | Acceptable(puzzle, s)
      ensures !BelowAt(s, puzzle, 0, NextAt(cells, 0), k)
    {
      assert IsDigit(s[0]);
    }
  }

  /** An acceptable completion that agrees with the board before the cursor holds, at the
      cursor, a digit not below the next one to try that passes the three checks. */
  lemma AgreeingPasses(puzzle: string, cells: seq<Cell>, iter: int, s: string)
    requires SearchInv(puzzle, cells, iter) && iter < NumCells && puzzle[iter] == '.'
    ensures Acceptable(puzzle, s) && s[..iter] == BoardOf(cells)[..iter] ==>
      && cells[iter].nextNumToTry <= DigitValue(s[iter]) <= 9
      && PassesChecks(BoardOf(cells), iter / RowLength, iter % RowLength, DigitValue(s[iter]))
  {
    var board := BoardOf(cells);
    if Acceptable(puzzle, s) && s[..iter] == board[..iter] {
      var e := DigitValue(s[iter]);
      assert IsDigit(s[iter]);
      assert DigitChar(e) == s[iter];
      forall m | 0 <= m < NumCells && Peers(iter, m)
        ensures board[m] != s[iter]
      {
        assert Peers(m, iter);
        if m < iter {
          assert s[..iter][m] == board[..iter][m];
        }
      }
      assert !BelowAt(s, board, iter, cells[iter].nextNumToTry, iter);
      PassesChecksIff(board, iter, e);
    }
  }

  /** When no digit from the next one to try passes the checks, no acceptable completion
      agrees with the board before the cursor. */
  lemma ExhaustedDisagrees(puzzle: string, cells: seq<Cell>, iter: int, s: string)
    requires SearchInv(puzzle, cells, iter) && iter < NumCells && puzzle[iter] == '.'
    requires forall e :: cells[iter].nextNumToTry <= e <= 9 ==>
      !PassesChecks(BoardOf(cells), iter / RowLength, iter % RowLength, e)
    ensures Acceptable(puzzle, s) ==> s[..iter] != BoardOf(cells)[..iter]
  {
    AgreeingPasses(puzzle, cells, iter, s);
  }

  /** Moving the cursor over a clue. */
  lemma StepClue(puzzle: string, cells: seq<Cell>, iter: int)
    requires SearchInv(puzzle, cells, iter) && iter < NumCells && cells[iter].nextNumToTry == ClueMark
    ensures puzzle[iter] != '.'
    ensures SearchInv(puzzle, cells, iter + 1)
    ensures Progress(puzzle, cells, iter) < Progress(puzzle, cells, iter + 1)
  {
    var board, after := BoardOf(cells), iter + 1;
    forall s, k | Acceptable(puzzle, s)
      ensures !BelowAt(s, board, after, NextAt(cells, after), k)
    {
      if k < iter {
        assert !BelowAt(s, board, iter, NextAt(cells, iter), k);
      } else if k == iter {
        assert s[k] == board[k];
      } else if k == iter + 1 < NumCells {
        assert IsDigit(s[k]);
      }
    }
    ProgressIncrease(puzzle, cells, iter, cells, iter + 1, iter);
  }

  /** Writing the smallest digit d from the next one to try that passes the checks, and
      moving on. */
  lemma StepPlace(puzzle: string, cells: seq<Cell>, iter: int, d: int)
    requires SearchInv(puzzle, cells, iter) && iter < NumCells && cells[iter].nextNumToTry != ClueMark
    requires cells[iter].nextNumToTry <= d <= 9
    requires PassesChecks(BoardOf(cells), iter / RowLength, iter % RowLength, d)
    requires forall e :: cells[iter].nextNumToTry <= e < d ==>
      !PassesChecks(BoardOf(cells), iter / RowLength, iter % RowLength, e)
    ensures SearchInv(puzzle, cells[iter := Cell(DigitChar(d), d + 1)], iter + 1)
    ensures Progress(puzzle, cells, iter) < Progress(puzzle, cells[iter := Cell(DigitChar(d), d + 1)], iter + 1)
  {
    var board := BoardOf(cells);
    var next := cells[iter].nextNumToTry;
    var newCells := cells[iter := Cell(DigitChar(d), d + 1)];
    var newBoard := BoardOf(newCells);
    assert puzzle[iter] == '.';
    assert newBoard == board[iter := DigitChar(d)];
    PassesChecksIff(board, iter, d);
    assert Sound(puzzle, newBoard);
    var after := iter + 1;
    var newNext := NextAt(newCells, after);
    forall s, k | Acceptable(puzzle, s)
      ensures !BelowAt(s, newBoard, after, newNext, k)
    {
      if 0 <= k < iter {
        assert newBoard[..k] == board[..k];
        assert !BelowAt(s, board, iter, next, k);
      } else if k == iter {
        assert newBoard[..k] == board[..k];
        AgreeingPasses(puzzle, cells, iter, s);
      } else if k == iter + 1 < NumCells {
        assert IsDigit(s[k]);
      }
    }
    assert SearchInv(puzzle, newCells, iter + 1);
    ProgressIncrease(puzzle, cells, iter, newCells, iter + 1, iter);
  }

  /** No digit fits at the cursor: reset it, go back to the nearest earlier blank j and clear
      it, keeping its next digit to try. */
  lemma StepBack(puzzle: string, cells: seq<Cell>, iter: int, j: int)
    requires SearchInv(puzzle, cells, iter) && iter < NumCells && cells[iter].nextNumToTry != ClueMark
    requires forall e :: cells[iter].nextNumToTry <= e <= 9 ==>
      !PassesChecks(BoardOf(cells), iter / RowLength, iter % RowLength, e)
    requires 0 <= j < iter && puzzle[j] == '.' && forall m :: j < m < iter ==> puzzle[m] != '.'
    ensures SearchInv(puzzle, cells[iter := Cell('.', 1)][j := Cell('.', cells[j].nextNumToTry)], j)
    ensures Progress(puzzle, cells, iter) <
            Progress(puzzle, cells[iter := Cell('.', 1)][j := Cell('.', cells[j].nextNumToTry)], j)
  {
    var board := BoardOf(cells);
    var next := cells[iter].nextNumToTry;
    var newCells := cells[iter := Cell('.', 1)][j := Cell('.', cells[j].nextNumToTry)];
    var newBoard := BoardOf(newCells);
    assert puzzle[iter] == '.';
    assert newBoard == board[j := '.'];
    var newNext := NextAt(newCells, j);
    forall s, k | Acceptable(puzzle, s)
      ensures !BelowAt(s, newBoard, j, newNext, k)
    {
      if 0 <= k < j {
        assert newBoard[..k] == board[..k];
        assert !BelowAt(s, board, iter, next, k);
      } else if k == j {
        assert newBoard[..j] == board[..j];
        assert !BelowAt(s, board, iter, next, j);
        // agreeing up to j, including j, is agreeing up to the cursor
        assert s[..j] == board[..j] && s[j] == board[j] ==> s[..iter] == board[..iter] by {
          if s[..j] == board[..j] && s[j] == board[j] {
            forall m | 0 <= m < iter
              ensures s[m] == board[m]
            {
              if m < j {
                assert s[..j][m] == board[..j][m];
              }
            }
          }
        }
        ExhaustedDisagrees(puzzle, cells, iter, s);
      }
    }
    assert SearchInv(puzzle, newCells, j);
    ProgressIncrease(puzzle, cells, iter, newCells, j, j);
  }

  /** No digit fits at the cursor and no blank precedes it: the puzzle has no acceptable
      completion. */
  lemma StepExhausted(puzzle: string, cells: seq<Cell>, iter: int)
    requires SearchInv(puzzle, cells, iter) && iter < NumCells && cells[iter].nextNumToTry != ClueMark
    requires forall e :: cells[iter].nextNumToTry <= e <= 9 ==>
      !PassesChecks(BoardOf(cells), iter / RowLength, iter % RowLength, e)
    requires forall m :: 0 <= m < iter ==> puzzle[m] != '.'
    ensures forall s :: !Acceptable(puzzle, s)
  {
    var board := BoardOf(cells);
    forall s
      ensures !Acceptable(puzzle, s)
    {
      ExhaustedDisagrees(puzzle, cells, iter, s);
      if Completes(puzzle, s) {
        assert s[..iter] == board[..iter];
      }
    }
  }

  /** The cursor has passed the last cell: the board is the least acceptable completion. */
  lemma Finished(puzzle: string, cells: seq<Cell>)
    requires SearchInv(puzzle, cells, NumCells)
    ensures Acceptable(puzzle, BoardOf(cells))
    ensures forall s :: Acceptable(puzzle, s) ==> !LexLess(s, BoardOf(cells))
  {
    var board := BoardOf(cells);
    forall s, k | Acceptable(puzzle, s) && 0 <= k < NumCells
      ensures !(s[..k] == board[..k] && s[k] < board[k])
    {
      assert !BelowAt(s, board, NumCells, NextAt(cells, NumCells), k);
    }
  }

  // ---------------------------------------------------------------------------
  // What an acceptable completion is, on a puzzle that validates

  /** When no two clues repeat a digit, the acceptable completions are exactly the solved
      boards that keep the clues. */
  lemma {:induction false} AcceptableIffSolved(puzzle: string, s: string)
    requires IsPuzzleString(puzzle) && NoDuplicateClues(puzzle)
    ensures Acceptable(puzzle, s) <==> Completes(puzzle, s) && Solved(s)
  {
    if Acceptable(puzzle, s) {
      forall j, k | 0 <= j < NumCells && 0 <= k < NumCells && j != k && Peers(j, k) && s[j] != '.' && s[k] != '.'
        ensures s[j] != s[k]
      {
        if puzzle[k] != '.' && puzzle[j] == '.' {
          assert Peers(k, j);
        }
      }
    }
  }

  /** A solved board that completes a puzzle is accepted for it, and a puzzle with such a
      completion has no two clues that repeat a digit among peers. */
  lemma SolvedCompletion(puzzle: string, s: string)
    requires |puzzle| == NumCells
    ensures Completes(puzzle, s) && Solved(s) ==> Acceptable(puzzle, s) && NoDuplicateClues(puzzle)
  {
  }

  /** An acceptable completion of a puzzle that validates is a solved board, and it validates
      in turn. */
  lemma SolutionRevalidates(puzzle: string, s: string)
    requires Validate(puzzle) == Valid && Acceptable(puzzle, s)
    ensures Solved(s) && Validate(s) == Valid
  {
    AcceptableIffSolved(puzzle, s);
    ValidateFullBoard(s);
  }

  /** A puzzle without a blank is its own and only acceptable completion, whether or not its
      clues repeat a digit. */
  lemma FullPuzzleAcceptsItself(puzzle: string)
    requires IsPuzzleString(puzzle) && forall k :: 0 <= k < NumCells ==> puzzle[k] != '.'
    ensures Acceptable(puzzle, puzzle)
    ensures forall s :: Acceptable(puzzle, s) ==> s == puzzle
  {
  }
}

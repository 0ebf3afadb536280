# Sudoku solver core, modelled in Dafny

A model of `controllers/sudoku-solver.js`, the engine of a 9x9 Sudoku service. A puzzle is an
81-character row-major string over `1-9` and `.`.

The engine has four parts:

- **Grid indexing.** It reads a row, a column or a 3x3 region from the flat string or from its
  9x9 matrix view, and converts row letters A-I to indices (`Grid`).
- **Placement checks.** `checkRowPlacement`, `checkColPlacement` and `checkRegionPlacement` each
  ask whether a value may go at a lettered coordinate without repeating a digit of its unit
  (`Placement`).
- **Validation.** `validate` makes four checks in order and stops at the first that fails:
  length, characters, at least 17 clues, and the self-consistency of every clue. The last check
  is `validateEachClue`, which blanks each clue and re-checks it (`Validation`).
- **The backtracking solver.** `solve` walks a cursor over the 81 cells and writes the smallest
  digit that passes the three checks. When no digit fits, it steps back to the nearest earlier
  cell that was blank in the original puzzle (`Search`, `Solver`).

`solve` is a method over an `array<Cell>`, the flattened annotated matrix, with a loop invariant
(`Search.SearchInv`). Its contract says:

- the length error comes first, then the character error;
- on a well-formed puzzle the result is the least acceptable completion in dictionary order;
- otherwise it is "Puzzle cannot be solved", exactly when no acceptable completion exists.

An acceptable completion is 81 digits that keep every clue, in which no cell that was blank
repeats a digit of one of its peers.

Termination is proved. Each cell gets a weight, the weights are read as one number in base 20
(`Lex`), and every step makes that number grow. The unit-test cases of `tests/1_unit-tests.js`
are proved in `Scenarios`, including that `solve` returns the expected solution for the test
puzzle. That proof shows that every blank of the test puzzle is forced by its peers, so the
puzzle has exactly one acceptable completion.

Two consequences of the code are worth stating:

- `solve` never compares one clue with another. Called directly on a full board of 81 digits,
  it returns the board itself, whatever the board repeats (`Search.FullPuzzleAcceptsItself`).
- When the puzzle validates, the solution is a solved board and validates in its turn
  (`Search.SolutionRevalidates`). In general the solution is a solved board exactly when no two
  clues repeat a digit (`Search.AcceptableIffSolved`, `Search.SolvedCompletion`).

## Model

| member | source | states |
|---|---|---|
| Grid.RowLetterFromIndex | controllers/sudoku-solver.js:180-183 | the letter for a row index is an upper-case letter |
| Grid.RowLetterToNumber | controllers/sudoku-solver.js:408-412 | a letter maps to 0..25 case-insensitively, and below 9 exactly for A-I in either case |
| Grid.RowLetterRoundTrip | controllers/sudoku-solver.js:408-412 | rowLetter2Number inverts rowLetterFromIndex, and also reads the lower-case letter |
| Grid.GetRegion | controllers/sudoku-solver.js:276-290 | the pushed cells are the nine cells of the region, three runs of three with stride nine, `undefined` outside the string |
| Grid.RegionTopLeftCorner | controllers/sudoku-solver.js:269-274 | for a cell on the board, getRegionTopLeftIndex (`Grid.RegionTopLeftIndex`) gives an index that is on the board, in the first row and first column of the cell's 3x3 block |
| Grid.RegionIndexCoordinates | controllers/sudoku-solver.js:269-290 | the i-th region cell lies on the board, in row (r/3)*3 + i/3 and column (c/3)*3 + i%3, in the block of (r, c) |
| Grid.RegionCovers | controllers/sudoku-solver.js:269-290 | every cell in the block of (r, c) is read by getRegion at a computed position |
| Grid.RegionIsBlock | controllers/sudoku-solver.js:269-290 | getRegion(getRegionTopLeftIndex(r, c)) reads nine distinct cells, exactly the block of (r, c), including (r, c) itself |
| Grid.CreatePuzzleMatrix | controllers/sudoku-solver.js:313-326 | the matrix is the string cut into rows of nine, with one (possibly empty) row at least |
| Grid.FlattenPuzzleMatrix | controllers/sudoku-solver.js:313-326 | flattening the matrix gives the string back |
| Grid.MatrixCell | controllers/sudoku-solver.js:313-326 | matrix cell (r, c) is string character 9r + c |
| Grid.MatrixRowMembership | controllers/sudoku-solver.js:313-326 | a character is in matrix row r exactly when one of the nine cells of row r holds it |
| Grid.GetSudokuMatrixColumn | controllers/sudoku-solver.js:304-311 | the column holds matrix[i][c] for i in 0..8, `undefined` past a short row |
| Grid.MatrixColumn | controllers/sudoku-solver.js:304-311 | on a string longer than 72, column c of the matrix is the characters at 9i + c |
| Placement.ValidRowColValIff | controllers/sudoku-solver.js:328-342 | isValidRowColVal (`Placement.IsValidRowColVal`) is true exactly when the row is a single letter naming one of the nine rows and the column and value are single characters with numbers 1 to 9 |
| Placement.CellTakenIff | controllers/sudoku-solver.js:353-356 | isCellTaken (`Placement.IsCellTaken`): on a full-length board the cell is taken exactly when it is not `.`; an index past the end of the string counts as taken |
| Placement.TargetIndex | controllers/sudoku-solver.js:353-356 | the index a well-formed coordinate addresses lies on the board, in the lettered row and the given column |
| Placement.DoesValueAlreadyExist | controllers/sudoku-solver.js:344-351 | the scan finds the value exactly when it occurs in the sequence |
| Placement.ColumnMembership | controllers/sudoku-solver.js:63-79 | a value is in the matrix column exactly when some cell of that board column holds it |
| Placement.RegionMembership | controllers/sudoku-solver.js:292-301 | a value is in getSudokuMatrixRegion exactly when some cell of the block of (r, c) holds it |
| Placement.CheckRowPlacement | controllers/sudoku-solver.js:46-61 | true exactly when the coordinate and value are well-formed, the target cell is `.`, and no cell of the row holds the value |
| Placement.CheckColPlacement | controllers/sudoku-solver.js:63-79 | the same over the column; demands a ninth matrix row for well-formed arguments, where the source throws |
| Placement.CheckRegionPlacement | controllers/sudoku-solver.js:81-98 | the same over the 3x3 region |
| Validation.ClueCount | controllers/sudoku-solver.js:358-363 | the count of digits is at most the length, and equals it exactly when every character is a digit |
| Validation.ClueCountAppend | controllers/sudoku-solver.js:358-363 | the count of digits of two strings put end to end is the sum of their counts |
| Validation.AreEnoughClues | controllers/sudoku-solver.js:358-363 | a string with enough clues has at least 17 characters, and a string of at least 17 digits has enough |
| Validation.ValidateEachClue | controllers/sudoku-solver.js:365-406 | true exactly when every clue, blanked in a copy, passes the row, column and region checks with its own digit |
| Validation.ClueConsistentIff | controllers/sudoku-solver.js:365-406 | one clue passes its re-check exactly when it is a digit that none of its peers repeats |
| Validation.AllCluesConsistentIffNoDuplicates | controllers/sudoku-solver.js:365-406 | on a well-formed puzzle, validateEachClue succeeds exactly when no two peer clues hold the same digit |
| Validation.Validate | controllers/sudoku-solver.js:12-44 | each of the four results holds exactly when its check is the first to fail (length, characters, clues and consistency), and valid exactly when all pass |
| Validation.ValidateFullBoard | controllers/sudoku-solver.js:12-44 | a full board of digits with no repeated digit among peers validates |
| Search.AnnotatedMatrix | controllers/sudoku-solver.js:217-236 | addNextToTryToMatrix (`Search.AddNextToTry`) gives a matrix that has the shape of the row matrix, keeps every value, marks exactly the clues with -1 and starts every blank at 1 |
| Search.FlatAnnotated | controllers/sudoku-solver.js:217-236 | annotating the rows and flattening equals flattening and annotating |
| Search.AnnotatedBoard | controllers/sudoku-solver.js:217-236 | annotation keeps every value and marks exactly the clues with -1 |
| Search.PassesChecksIff | controllers/sudoku-solver.js:185-215 | on a blank cell, the three checks accept exactly the digits that no peer holds |
| Search.ProgressBounded | controllers/sudoku-solver.js:114-164 | the termination measure of the loop stays within 0 and 20^81 |
| Search.ProgressIncrease | controllers/sudoku-solver.js:114-164 | a step that keeps earlier weights and raises one weight increases the measure |
| Search.InitialState | controllers/sudoku-solver.js:110-113 | the freshly annotated puzzle with the cursor at 0 satisfies the search invariant |
| Search.StepClue | controllers/sudoku-solver.js:124-127 | stepping over a clue keeps the invariant and makes progress |
| Search.StepPlace | controllers/sudoku-solver.js:148-158 | writing the smallest passing digit and advancing keeps the invariant and makes progress |
| Search.StepBack | controllers/sudoku-solver.js:136-147 | resetting the cell, moving back to the nearest earlier blank and clearing it keeps the invariant and makes progress |
| Search.StepExhausted | controllers/sudoku-solver.js:136-139 | when nothing fits and no blank precedes the cursor, no acceptable completion exists |
| Search.Finished | controllers/sudoku-solver.js:165-170 | at the end of the loop the board is acceptable and no acceptable completion comes before it |
| Search.AcceptableIffSolved | controllers/sudoku-solver.js:12-44 | when no two clues repeat a digit, the acceptable completions are exactly the solved boards that keep the clues |
| Search.SolvedCompletion | controllers/sudoku-solver.js:100-171 | a solved board that keeps the clues is acceptable, and then the clues repeat no digit |
| Search.SolutionRevalidates | controllers/sudoku-solver.js:165-170 | for a puzzle that validates, an acceptable completion is solved and validates in turn |
| Search.FullPuzzleAcceptsItself | controllers/sudoku-solver.js:100-171 | a puzzle without blanks is its own and only acceptable completion, even when its clues repeat a digit |
| Solver.FindNextValidNumber | controllers/sudoku-solver.js:185-215 | the result is the smallest digit from nextNumberToTry to 9 that passes the three checks, or -1 when none does |
| Solver.Backtrack | controllers/sudoku-solver.js:238-250 | the result is the nearest index before the cursor that is `.` in the original string, or -1 when there is none |
| Solver.Guess | controllers/sudoku-solver.js:128-159 | the cursor moves to iter + 1, to an earlier original blank, or to -1. Moving on, the cell holds the least digit d from its next digit to try that passes the three checks, with next digit d + 1. Otherwise no digit from the next to try passes: the cell is reset to `.` with next digit 1, the cursor lands on the nearest earlier original blank, which is cleared keeping its next digit; -1 means no earlier blank and no acceptable completion. Each step keeps the search invariant and makes progress |
| Solver.Solve | controllers/sudoku-solver.js:100-171 | the length error, then the character error; otherwise the least acceptable completion in dictionary order, or "Puzzle cannot be solved" exactly when there is none |
| Scenarios.ValidateRejectsMalformed | tests/1_unit-tests.js:18-36 | validate reports the invalid character and the short string with the tests' messages |
| Scenarios.RowPlacementCases | tests/1_unit-tests.js:41-79 | A2 accepts 7 and 6 by row, A1 rejects 1 |
| Scenarios.ColumnPlacementCase | tests/1_unit-tests.js:81-92 | A2 rejects 6 by column |
| Scenarios.RegionPlacementCases | tests/1_unit-tests.js:94-120 | A2 accepts 3 and rejects 6 by region |
| Scenarios.SolveWithLetter | tests/1_unit-tests.js:135-141 | solve rejects the test puzzle with an `s` in its last cell |
| Scenarios.SolveShort | tests/1_unit-tests.js:143-148 | solve rejects the 77-character string |
| Scenarios.ExpectedAcceptable | tests/1_unit-tests.js:11-16 | the test puzzle validates, and the expected solution is an acceptable completion of it |
| Scenarios.OnlyCompletion | tests/1_unit-tests.js:125-133 | every acceptable completion of the test puzzle is the expected solution |
| Scenarios.SolveTestPuzzle | tests/1_unit-tests.js:125-133 | solve returns exactly the expected solution for the test puzzle |

## Left out

- `prettyPrint` writes to the console only. The module-level singleton is not modelled: the checks are plain functions, since no state persists across calls.
- The HTTP routes and the mocha test harness are not part of this model. The unit tests' cases are restated as lemmas.
- JavaScript strings are UTF-16 sequences. The model's `string` is a sequence of characters, which is the same for the ASCII inputs that pass the character checks.
- Grid.RowLetterToNumber: defined for ASCII letters only. Every caller has first checked the row against `/^[a-i]$/i`.
- Grid.RowLetterFromIndex: defined for indices 0..25. The solver calls it with 0..8 only.
- Solver.FindNextValidNumber: requires a board longer than 72 characters and a coordinate on the board. Inside `solve` that always holds. Elsewhere the column check would throw on a short board.
- Placement.CheckColPlacement: for well-formed arguments it requires more than 72 characters. On a shorter string the source throws a TypeError (`matrix[i]` is undefined), and the model does not model exceptions.
- Grid.GetSudokuMatrixColumn: requires a matrix of at least nine rows. On a shorter matrix the source throws a TypeError when it reads a missing row.
- The solver stores the number `possibleValue` in a cell, where the model stores its digit character. The board string is the same once joined.
- Column numbers and values passed as numbers and coerced by `RegExp.test` are modelled as the one-character digit strings they become.
- Solver.Solve: the annotated 9x9 matrix is kept as one flat `array<Cell>` in row-major order. The string view is recomputed from it rather than stored after each write.
- The loop's "make a guess" branch is written as the method `Solver.Guess`. Its statements are those of the source.
- Running time is not modelled.

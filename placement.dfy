/** The placement checker: may a value go at a coordinate without repeating a digit of its
    row, its column or its 3x3 region? Rows are letters A-I, columns and values digits 1-9,
    all given as strings, as they arrive from the HTTP layer. */
module Placement {
  import opened Grid

  /** `/^[a-i]$/i`: exactly one letter from A to I, in either case. */
  predicate IsValidRow(row: string) {
    |row| == 1 && ('a' <= row[0] <= 'i' || 'A' <= row[0] <= 'I')
  }

  /** `/^[1-9]$/`: exactly one digit from 1 to 9 (the column and the value use the same pattern). */
  predicate IsValidDigit(s: string) {
    |s| == 1 && IsDigit(s[0])
  }

  /** isValidRowColVal: the row letter names one of the nine rows, the column and the value
      are numbers from 1 to 9. */
  predicate IsValidRowColVal(row: string, column: string, value: string) {
    IsValidRow(row) && IsValidDigit(column) && IsValidDigit(value)
  }

  /** The arguments are well-formed exactly when the row letter names one of the nine rows
      and the column and the value are numbers from 1 to 9. */
  lemma ValidRowColValIff(row: string, column: string, value: string)
    ensures IsValidRowColVal(row, column, value) <==>
      && |row| == 1 && |column| == 1 && |value| == 1
      && IsAsciiLetter(row[0]) && RowLetterToNumber(row) < 9
      && 1 <= DigitValue(column[0]) <= 9 && 1 <= DigitValue(value[0]) <= 9
  {
  }

  /** Linear index of a well-formed coordinate: `rowLetter2Number(row) * 9 + parseInt(column) - 1`. */
  function TargetIndex(row: string, column: string): (k: int)
    requires IsValidRow(row) && IsValidDigit(column)
    ensures 0 <= k < NumCells
    ensures RowOf(k) == RowLetterToNumber(row) && ColOf(k) == DigitValue(column[0]) - 1
  {
    var k := RowLetterToNumber(row) * RowLength + DigitValue(column[0]) - 1;
    DivMod9(k, RowLetterToNumber(row), DigitValue(column[0]) - 1);
    k
  }

  /** isCellTaken: the cell is anything but '.', including past the end of the string. */
  function IsCellTaken(puzzle: string, row: int, col: int): bool {
    At(puzzle, row * RowLength + col) != Some('.')
  }

  /** On a full-length board a cell is taken exactly when it is not '.'; an index past the
      end of the string counts as taken. */
  lemma CellTakenIff(puzzle: string, row: int, col: int)
    ensures |puzzle| == NumCells && 0 <= row < RowLength && 0 <= col < RowLength ==>
      (IsCellTaken(puzzle, row, col) <==> puzzle[row * RowLength + col] != '.')
    ensures !(0 <= row * RowLength + col < |puzzle|) ==> IsCellTaken(puzzle, row, col)
  {
    if |puzzle| == NumCells && 0 <= row < RowLength && 0 <= col < RowLength {
      DivMod9(row * RowLength + col, row, col);
    }
  }

  /** doesValueAlreadyExist: a linear scan with early exit. */
  method DoesValueAlreadyExist<T(==)>(cells: seq<T>, value: T) returns (found: bool)
    ensures found <==> value in cells
  {
    for i := 0 to |cells|
      invariant value !in cells[..i]
    {
      if cells[i] == value {
        return true;
      }
    }
    return false;
  }

  lemma ColumnMembership(puzzle: string, c: int, x: char)
    requires |puzzle| > 72 && 0 <= c < RowLength
    ensures |PuzzleMatrix(puzzle)| >= RowLength
    ensures Some(x) in ColumnOf(PuzzleMatrix(puzzle), c) <==>
      exists k :: 0 <= k < NumCells && ColOf(k) == c && At(puzzle, k) == Some(x)
  {
    MatrixColumn(puzzle, c);
    var column := ColumnOf(PuzzleMatrix(puzzle), c);
    if Some(x) in column {
      var i :| 0 <= i < |column| && column[i] == Some(x);
      DivMod9(RowLength * i + c, i, c);
      assert At(puzzle, RowLength * i + c) == Some(x);
    }
    if exists k :: 0 <= k < NumCells && ColOf(k) == c && At(puzzle, k) == Some(x) {
      var k :| 0 <= k < NumCells && ColOf(k) == c && At(puzzle, k) == Some(x);
      var i := RowOf(k);
      DivMod9(k, i, c);
      assert column[i] == Some(x);
    }
  }

  lemma RegionMembership(puzzle: string, r: int, c: int, x: char)
    requires 0 <= r < 9 && 0 <= c < 9
    ensures Some(x) in RegionOf(RegionTopLeftIndex(r, c), puzzle) <==>
      exists k :: 0 <= k < NumCells && BlockOf(k) == BlockOf(r * RowLength + c) && At(puzzle, k) == Some(x)
  {
    RegionIsBlock(r, c);
    var top := RegionTopLeftIndex(r, c);
    var region := RegionOf(top, puzzle);
    if Some(x) in region {
      var i :| 0 <= i < |region| && region[i] == Some(x);
      assert At(puzzle, RegionIndex(top, i)) == Some(x);
    }
    if exists k :: 0 <= k < NumCells && BlockOf(k) == BlockOf(r * RowLength + c) && At(puzzle, k) == Some(x) {
      var k :| 0 <= k < NumCells && BlockOf(k) == BlockOf(r * RowLength + c) && At(puzzle, k) == Some(x);
      var i :| 0 <= i < 9 && RegionIndex(top, i) == k;
      assert region[i] == Some(x);
    }
  }

  /** checkRowPlacement: false for a malformed coordinate or value and for an occupied
      target cell; otherwise true exactly when the value is absent from the target's row. */
  function CheckRowPlacement(puzzle: string, row: string, column: string, value: string): (ok: bool)
    ensures ok <==>
      && IsValidRowColVal(row, column, value)
      && At(puzzle, TargetIndex(row, column)) == Some('.')
      && forall k :: 0 <= k < NumCells && RowOf(k) == RowLetterToNumber(row) ==> At(puzzle, k) != Some(value[0])
  {
    if !IsValidRowColVal(row, column, value) then false
    else
      var rowNumber := RowLetterToNumber(row);
      var col := DigitValue(column[0]) - 1;
      if IsCellTaken(puzzle, rowNumber, col) then false
      else
        MatrixRowMembership(puzzle, rowNumber, col, value[0]);
        var currentRow := PuzzleMatrix(puzzle)[rowNumber];
        assert forall k :: 0 <= k ==> (RowOf(k) == rowNumber <==> RowLength * rowNumber <= k < RowLength * rowNumber + RowLength);
        !(value[0] in currentRow)
  }

  /** checkColPlacement: as the row check, over the target's column. The column is read from
      the matrix view before the target cell is inspected, and the source throws when the
      matrix lacks a ninth row, hence the requirement on the length. */
  function CheckColPlacement(puzzle: string, row: string, column: string, value: string): (ok: bool)
    requires IsValidRowColVal(row, column, value) ==> |puzzle| > 72
    ensures ok <==>
      && IsValidRowColVal(row, column, value)
      && At(puzzle, TargetIndex(row, column)) == Some('.')
      && forall k :: 0 <= k < NumCells && ColOf(k) == DigitValue(column[0]) - 1 ==> At(puzzle, k) != Some(value[0])
  {
    if !IsValidRowColVal(row, column, value) then false
    else
      var rowNumber := RowLetterToNumber(row);
      var col := DigitValue(column[0]) - 1;
      ColumnMembership(puzzle, col, value[0]);
      var currentColumn := ColumnOf(PuzzleMatrix(puzzle), col);
      if IsCellTaken(puzzle, rowNumber, col) then false
      else !(Some(value[0]) in currentColumn)
  }

  /** checkRegionPlacement: as the row check, over the target's 3x3 region. */
  function CheckRegionPlacement(puzzle: string, row: string, column: string, value: string): (ok: bool)
    ensures ok <==>
      && IsValidRowColVal(row, column, value)
      && At(puzzle, TargetIndex(row, column)) == Some('.')
      && forall k :: 0 <= k < NumCells && BlockOf(k) == BlockOf(TargetIndex(row, column)) ==> At(puzzle, k) != Some(value[0])
  {
    if !IsValidRowColVal(row, column, value) then false
    else
      var rowNumber := RowLetterToNumber(row);
      var col := DigitValue(column[0]) - 1;
      RegionMembership(puzzle, rowNumber, col, value[0]);
      var currentRegion := RegionOf(RegionTopLeftIndex(rowNumber, col), puzzle);
      if IsCellTaken(puzzle, rowNumber, col) then false
      else !(Some(value[0]) in currentRegion)
  }
}

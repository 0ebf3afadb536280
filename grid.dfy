/** The grid codec: the flat 81-character row-major board, its 9x9 matrix view,
    and the rows, columns and 3x3 regions read from either. */
module Grid {

  const NumCells := 81
  const RowLength := 9
  const MinClues := 17

  datatype Option<T> = None | Some(value: T)

  /** `s[k]` in JavaScript: the character at `k`, or `undefined` (None) outside the string. */
  function At(s: string, k: int): Option<char> {
    if 0 <= k < |s| then Some(s[k]) else None
  }

  predicate IsDigit(c: char) { '1' <= c <= '9' }

  /** The character class `[1-9.]` of a puzzle string. */
  predicate IsCellChar(c: char) { IsDigit(c) || c == '.' }

  function DigitValue(c: char): int { c as int - '0' as int }

  /** `n.toString()` for a number 1..9. */
  function DigitChar(d: int): (c: char)
    requires 1 <= d <= 9
    ensures IsDigit(c) && DigitValue(c) == d
  {
    (d + '0' as int) as char
  }

  function Min(a: int, b: int): int { if a < b then a else b }

  // Coordinates of a linear index: row-major, nine cells per row.
  function RowOf(k: int): int { k / RowLength }
  function ColOf(k: int): int { k % RowLength }
  /** The 3x3 block of a cell, numbered floor(row/3)*3 + floor(col/3). */
  function BlockOf(k: int): int { (k / 27) * 3 + (k % RowLength) / 3 }

  /** Two cells constrain each other: same row, same column or same region. */
  predicate Peers(j: int, k: int) {
    RowOf(j) == RowOf(k) || ColOf(j) == ColOf(k) || BlockOf(j) == BlockOf(k)
  }

  // Quotient and remainder by the constants the grid uses.
  lemma DivMod3(n: int, q: int, r: int)
    requires 0 <= r < 3 && n == q * 3 + r
    ensures n / 3 == q && n % 3 == r
  {
  }

  lemma DivMod9(n: int, q: int, r: int)
    requires 0 <= r < 9 && n == q * 9 + r
    ensures n / 9 == q && n % 9 == r
  {
  }

  lemma DivMod27(n: int, q: int, r: int)
    requires 0 <= r < 27 && n == q * 27 + r
    ensures n / 27 == q && n % 27 == r
  {
  }

  // ---------------------------------------------------------------------------
  // Row letters

  predicate IsAsciiLetter(c: char) { 'a' <= c <= 'z' || 'A' <= c <= 'Z' }

  /** `String.fromCharCode(index + 'A'.charCodeAt(0))`, for the letters of the alphabet. */
  function RowLetterFromIndex(index: int): (letter: char)
    requires 0 <= index < 26
    ensures 'A' <= letter <= 'Z'
  {
    (index + 'A' as int) as char
  }

  /** `row.toUpperCase().charCodeAt(0) - 'A'.charCodeAt(0)` for a row starting with an ASCII letter. */
  function RowLetterToNumber(row: string): (n: int)
    requires |row| > 0 && IsAsciiLetter(row[0])
    ensures 0 <= n < 26
    ensures 'a' <= row[0] <= 'i' || 'A' <= row[0] <= 'I' <==> n < 9
  {
    var upper := if 'a' <= row[0] <= 'z' then row[0] as int - 'a' as int + 'A' as int else row[0] as int;
    upper - 'A' as int
  }

  /** Reading back the letter of a row index gives the index, in either case. */
  lemma RowLetterRoundTrip(index: int)
    requires 0 <= index < 26
    ensures RowLetterToNumber([RowLetterFromIndex(index)]) == index
    ensures RowLetterToNumber([(index + 'a' as int) as char]) == index
  {
  }

  // ---------------------------------------------------------------------------
  // Regions

  /** Linear index of the top-left cell of the region holding (row, column). */
  function RegionTopLeftIndex(row: nat, column: nat): nat {
    (column / 3) * 3 + (row / 3) * RowLength * 3
  }

  /** For a cell on the board, getRegionTopLeftIndex is the first row and first column of
      the cell's 3x3 block. */
  lemma RegionTopLeftCorner(row: nat, column: nat)
    requires row < 9 && column < 9
    ensures var top := RegionTopLeftIndex(row, column);
      && top < NumCells && RowOf(top) == (row / 3) * 3 && ColOf(top) == (column / 3) * 3
      && BlockOf(top) == BlockOf(row * RowLength + column)
  {
    var top := RegionTopLeftIndex(row, column);
    DivMod9(top, (row / 3) * 3, (column / 3) * 3);
    DivMod27(top, row / 3, (column / 3) * 3);
    DivMod3((column / 3) * 3, column / 3, 0);
    OwnBlock(row, column);
  }

  /** The i-th cell of a region read as three runs of three cells with a stride of nine. */
  function RegionIndex(top: int, i: int): int {
    top + (i / 3) * RowLength + i % 3
  }

  function RegionOf(top: int, puzzle: string): seq<Option<char>> {
    seq(9, i => At(puzzle, RegionIndex(top, i)))
  }

  /** getRegion: pushes the nine cells of the region starting at `regionIndex`. */
  method GetRegion(regionIndex: int, puzzle: string) returns (region: seq<Option<char>>)
    ensures region == RegionOf(regionIndex, puzzle)
  {
    region := [];
    for i := 0 to RowLength
      invariant region == RegionOf(regionIndex, puzzle)[..i]
    {
      var rowOffset := i / 3;
      var columnOffset := i % 3;
      var wIndex := regionIndex + rowOffset * RowLength + columnOffset;
      region := region + [At(puzzle, wIndex)];
    }
  }

  lemma RegionIndexCoordinates(row: int, column: int, i: int)
    requires 0 <= row < 9 && 0 <= column < 9 && 0 <= i < 9
    ensures var k := RegionIndex(RegionTopLeftIndex(row, column), i);
      && 0 <= k < NumCells
      && RowOf(k) == (row / 3) * 3 + i / 3
      && ColOf(k) == (column / 3) * 3 + i % 3
      && BlockOf(k) == BlockOf(row * RowLength + column)
  {
    var k := RegionIndex(RegionTopLeftIndex(row, column), i);
    var inner := (i / 3) * 9 + (column / 3) * 3 + i % 3;
    assert k == (row / 3) * 27 + inner;
    DivMod27(k, row / 3, inner);
    DivMod9(k, (row / 3) * 3 + i / 3, (column / 3) * 3 + i % 3);
    DivMod3((column / 3) * 3 + i % 3, column / 3, i % 3);
    var own := row * 9 + column;
    DivMod9(own, row, column);
    DivMod3(row, row / 3, row % 3);
    DivMod27(own, row / 3, (row % 3) * 9 + column);
  }

  /** A block number splits into its block row floor(k/27) and block column floor((k%9)/3). */
  lemma BlockParts(k: int)
    requires 0 <= k
    ensures BlockOf(k) / 3 == k / 27 && BlockOf(k) % 3 == (k % 9) / 3
  {
    DivMod3(BlockOf(k), k / 27, (k % 9) / 3);
  }

  /** A cell index in base 27/9/3/1: block row, row within the block, block column, column within it. */
  lemma Digits(k: int)
    requires 0 <= k
    ensures k / 27 == (k / 9) / 3
    ensures k == (k / 27) * 27 + ((k / 9) % 3) * 9 + ((k % 9) / 3) * 3 + (k % 9) % 3
  {
    var r, c := k / 9, k % 9;
    DivMod3(r, r / 3, r % 3);
    DivMod27(k, r / 3, (r % 3) * 9 + c);
    DivMod3(c, c / 3, c % 3);
  }

  lemma OwnBlock(row: int, column: int)
    requires 0 <= row < 9 && 0 <= column < 9
    ensures (row * RowLength + column) / 27 == row / 3
    ensures ((row * RowLength + column) % 9) / 3 == column / 3
  {
    var own := row * 9 + column;
    DivMod9(own, row, column);
    DivMod3(row, row / 3, row % 3);
    DivMod27(own, row / 3, (row % 3) * 9 + column);
  }

  /** A cell in the same block as (row, column) is one of the nine cells of its region. */
  lemma RegionCovers(row: int, column: int, k: int)
    requires 0 <= row < 9 && 0 <= column < 9 && 0 <= k < NumCells
    requires BlockOf(k) == BlockOf(row * RowLength + column)
    ensures 0 <= ((k / 9) % 3) * 3 + k % 3 < 9
    ensures RegionIndex(RegionTopLeftIndex(row, column), ((k / 9) % 3) * 3 + k % 3) == k
  {
    OwnBlock(row, column);
    BlockParts(k);
    BlockParts(row * RowLength + column);
    Digits(k);
    assert k / 27 == row / 3 && (k % 9) / 3 == column / 3;
    assert (k % 9) % 3 == k % 3 by { DivMod3(k, k / 3, k % 3); DivMod9(k, k / 9, k % 9); DivMod3(k % 9, (k % 9) / 3, (k % 9) % 3); }
    var i := ((k / 9) % 3) * 3 + k % 3;
    DivMod3(i, (k / 9) % 3, k % 3);
  }

  /** getRegion(getRegionTopLeftIndex(r, c), s) reads exactly the nine distinct cells of the
      region of (r, c), the cell (r, c) itself among them. */
  lemma RegionIsBlock(row: int, column: int)
    requires 0 <= row < 9 && 0 <= column < 9
    ensures var top := RegionTopLeftIndex(row, column);
      && (forall i :: 0 <= i < 9 ==>
            0 <= RegionIndex(top, i) < NumCells && BlockOf(RegionIndex(top, i)) == BlockOf(row * RowLength + column))
      && (forall k :: 0 <= k < NumCells && BlockOf(k) == BlockOf(row * RowLength + column) ==>
            exists i :: 0 <= i < 9 && RegionIndex(top, i) == k)
      && (forall i, j :: 0 <= i < j < 9 ==> RegionIndex(top, i) != RegionIndex(top, j))
      && (exists i :: 0 <= i < 9 && RegionIndex(top, i) == row * RowLength + column)
  {
    var top := RegionTopLeftIndex(row, column);
    forall i | 0 <= i < 9
      ensures 0 <= RegionIndex(top, i) < NumCells && BlockOf(RegionIndex(top, i)) == BlockOf(row * RowLength + column)
    {
      RegionIndexCoordinates(row, column, i);
    }
    forall k | 0 <= k < NumCells && BlockOf(k) == BlockOf(row * RowLength + column)
      ensures exists i :: 0 <= i < 9 && RegionIndex(top, i) == k
    {
      RegionCovers(row, column, k);
    }
    forall i, j | 0 <= i < j < 9
      ensures RegionIndex(top, i) != RegionIndex(top, j)
    {
      RegionIndexCoordinates(row, column, i);
      RegionIndexCoordinates(row, column, j);
      DivMod3(i, i / 3, i % 3);
      DivMod3(j, j / 3, j % 3);
    }
    var own := row * RowLength + column;
    DivMod9(own, row, column);
    DivMod3(row, row / 3, row % 3);
    DivMod27(own, row / 3, (row % 3) * 9 + column);
    RegionCovers(row, column, own);
  }

  // ---------------------------------------------------------------------------
  // The 9x9 matrix view

  /** Rows produced by createPuzzleMatrix: one per nine characters, and one (possibly empty) at least. */
  function RowCount(n: nat): nat {
    if n == 0 then 1 else (n + 8) / 9
  }

  function PuzzleMatrix(puzzle: string): seq<seq<char>> {
    seq(RowCount(|puzzle|), r requires 0 <= r < RowCount(|puzzle|) =>
      puzzle[RowLength * r .. Min(RowLength * r + RowLength, |puzzle|)])
  }

  /** `matrix.flat().join("")`. */
  function Flatten(matrix: seq<seq<char>>): string {
    if matrix == [] then [] else matrix[0] + Flatten(matrix[1..])
  }

  /** createPuzzleMatrix: split the string into rows of nine characters, in order. */
  method CreatePuzzleMatrix(puzzle: string) returns (matrix: seq<seq<char>>)
    ensures matrix == PuzzleMatrix(puzzle)
  {
    matrix := [];
    var puzzleRow: seq<char> := [];
    for i := 0 to |puzzle|
      invariant |matrix| == if i == 0 then 0 else (i - 1) / RowLength
      invariant forall r :: 0 <= r < |matrix| ==> matrix[r] == puzzle[RowLength * r .. RowLength * r + RowLength]
      invariant puzzleRow == puzzle[RowLength * |matrix| .. i]
    {
      var c := puzzle[i];
      if i != 0 && i % RowLength == 0 {
        matrix := matrix + [puzzleRow];
        puzzleRow := [];
      }
      puzzleRow := puzzleRow + [c];
    }
    matrix := matrix + [puzzleRow];
  }

  lemma MatrixSplit(puzzle: string)
    requires |puzzle| > RowLength
    ensures PuzzleMatrix(puzzle) == [puzzle[..RowLength]] + PuzzleMatrix(puzzle[RowLength..])
  {
    var m, rest := PuzzleMatrix(puzzle), PuzzleMatrix(puzzle[RowLength..]);
    assert |m| == |rest| + 1;
    var tail := puzzle[RowLength..];
    forall r | 1 <= r < |m| ensures m[r] == rest[r - 1] {
      var lo, hi := RowLength * (r - 1), Min(RowLength * (r - 1) + RowLength, |tail|);
      assert rest[r - 1] == tail[lo .. hi];
      assert m[r] == puzzle[lo + RowLength .. hi + RowLength];
      assert tail[lo .. hi] == puzzle[lo + RowLength .. hi + RowLength];
    }
  }

  /** The matrix view and the string view are the same board: flattening the rows of a
      puzzle gives the puzzle back. */
  lemma {:induction false} FlattenPuzzleMatrix(puzzle: string)
    ensures Flatten(PuzzleMatrix(puzzle)) == puzzle
    decreases |puzzle|
  {
    if |puzzle| <= RowLength {
      assert RowCount(|puzzle|) == 1;
      assert PuzzleMatrix(puzzle)[0] == puzzle;
      assert PuzzleMatrix(puzzle) == [puzzle];
      assert Flatten([puzzle]) == puzzle + Flatten([]);
    } else {
      MatrixSplit(puzzle);
      FlattenPuzzleMatrix(puzzle[RowLength..]);
      assert puzzle[..RowLength] + puzzle[RowLength..] == puzzle;
    }
  }

  /** Cell (r, c) of the matrix is character 9r + c of the string. */
  lemma MatrixCell(puzzle: string, r: int, c: int)
    requires 0 <= r && 0 <= c < RowLength && RowLength * r + c < |puzzle|
    ensures r < |PuzzleMatrix(puzzle)| && c < |PuzzleMatrix(puzzle)[r]|
    ensures PuzzleMatrix(puzzle)[r][c] == puzzle[RowLength * r + c]
  {
    DivMod9(|puzzle| + 8, (|puzzle| + 8) / 9, (|puzzle| + 8) % 9);
  }

  /** A character is in row r of the matrix exactly when it sits at one of the indices 9r..9r+8. */
  lemma MatrixRowMembership(puzzle: string, r: int, c: int, x: char)
    requires 0 <= r && 0 <= c < RowLength && RowLength * r + c < |puzzle|
    ensures r < |PuzzleMatrix(puzzle)|
    ensures x in PuzzleMatrix(puzzle)[r] <==>
      exists k :: RowLength * r <= k < RowLength * r + RowLength && At(puzzle, k) == Some(x)
  {
    MatrixCell(puzzle, r, c);
    var row := PuzzleMatrix(puzzle)[r];
    assert row == puzzle[RowLength * r .. Min(RowLength * r + RowLength, |puzzle|)];
    if x in row {
      var j :| 0 <= j < |row| && row[j] == x;
      assert At(puzzle, RowLength * r + j) == Some(x);
    }
    if exists k :: RowLength * r <= k < RowLength * r + RowLength && At(puzzle, k) == Some(x) {
      var k :| RowLength * r <= k < RowLength * r + RowLength && At(puzzle, k) == Some(x);
      assert row[k - RowLength * r] == x;
    }
  }

  // ---------------------------------------------------------------------------
  // Columns

  /** Column `columnIndex` of a matrix of at least nine rows, top to bottom; a short row
      yields undefined (None). */
  function ColumnOf(matrix: seq<seq<char>>, columnIndex: nat): seq<Option<char>>
    requires |matrix| >= RowLength
  {
    seq(RowLength, i requires 0 <= i < RowLength =>
      if columnIndex < |matrix[i]| then Some(matrix[i][columnIndex]) else None)
  }

  /** getSudokuMatrixColumn. In the source `matrix[i][columnIndex]` throws when row i is
      missing, so the method needs nine rows. */
  method GetSudokuMatrixColumn(matrix: seq<seq<char>>, columnIndex: nat) returns (column: seq<Option<char>>)
    requires |matrix| >= RowLength
    ensures column == ColumnOf(matrix, columnIndex)
  {
    column := [];
    for i := 0 to RowLength
      invariant column == ColumnOf(matrix, columnIndex)[..i]
    {
      var cellValue := if columnIndex < |matrix[i]| then Some(matrix[i][columnIndex]) else None;
      column := column + [cellValue];
    }
  }

  /** Column c of the matrix of a puzzle is the cells 9i + c of the string. */
  lemma MatrixColumn(puzzle: string, c: int)
    requires |puzzle| > 72 && 0 <= c < RowLength
    ensures |PuzzleMatrix(puzzle)| >= RowLength
    ensures forall i :: 0 <= i < RowLength ==> ColumnOf(PuzzleMatrix(puzzle), c)[i] == At(puzzle, RowLength * i + c)
  {
    DivMod9(|puzzle| + 8, (|puzzle| + 8) / 9, (|puzzle| + 8) % 9);
    var m := PuzzleMatrix(puzzle);
    forall i | 0 <= i < RowLength
      ensures ColumnOf(m, c)[i] == At(puzzle, RowLength * i + c)
    {
      var lo, hi := RowLength * i, Min(RowLength * i + RowLength, |puzzle|);
      assert m[i] == puzzle[lo .. hi] && |m[i]| == hi - lo;
      if lo + c < |puzzle| {
        assert m[i][c] == puzzle[lo + c];
      } else {
        assert |m[i]| <= c;
      }
    }
  }
}

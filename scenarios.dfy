/** The cases of the unit tests, on the puzzle the tests share. */
module Scenarios {
  import opened Grid
  import opened Placement
  import opened Validation
  import opened Search
  import opened Solver

  /** The puzzle of the unit tests: 38 clues, 43 blanks. */
  const Puzzle :=
    "1.5..2.84" +
    "..63.12.7" +
    ".2..5...." +
    ".9..1...." +
    "8.2.3674." +
    "3.7.2..9." +
    "47...8..1" +
    "..16....9" +
    "26914.37."
  /** Its solution, as the unit tests expect it. */
  const Expected :=
    "135762984" +
    "946381257" +
    "728459613" +
    "694517832" +
    "812936745" +
    "357824196" +
    "473298561" +
    "581673429" +
    "269145378"

  /** The puzzle with an 's' in place of a blank. */
  const WithLetter :=
    "1.5..2.84" +
    "..63.12.7" +
    ".2..5.s.." +
    ".9..1...." +
    "8.2.3674." +
    "3.7.2..9." +
    "47...8..1" +
    "..16....9" +
    "26914.37."
  /** The puzzle with an 's' in its last cell. */
  const EndsInLetter := Puzzle[..80] + "s"
  /** The puzzle without its last four characters. */
  const Truncated := Puzzle[..77]
  /** The puzzle without its last character. */
  const Short :=
    "1.5..2.84" +
    "..63.12.7" +
    ".2..5...." +
    ".9..1...." +
    "8.2.3674." +
    "3.7.2..9." +
    "47...8..1" +
    "..16....9" +
    "26914.37"

  lemma ValidateRejectsMalformed()
    ensures Validate(WithLetter) == Invalid("Invalid characters in puzzle")
    ensures Validate(Short) == Invalid("Expected puzzle to be 81 characters long")
  {
    assert !IsCellChar(WithLetter[24]);
  }

  /** Row A holds 1, 5, 2, 8 and 4; cell A1 is a clue. */
  lemma RowPlacementCases()
    ensures CheckRowPlacement(Puzzle, "A", "2", "7")
    ensures CheckRowPlacement(Puzzle, "A", "2", "6")
    ensures !CheckRowPlacement(Puzzle, "A", "1", "1")
  {
    forall k | 0 <= k < NumCells && RowOf(k) == 0
      ensures At(Puzzle, k) != Some('7') && At(Puzzle, k) != Some('6')
    {
      assert k == 0 || k == 1 || k == 2 || k == 3 || k == 4 || k == 5 || k == 6 || k == 7 || k == 8;
    }
  }

  /** Column 2 holds a 6 in row I. */
  lemma ColumnPlacementCase()
    ensures !CheckColPlacement(Puzzle, "A", "2", "6")
  {
    assert ColOf(73) == 1 && Puzzle[73] == '6';
  }

  /** The top-left region holds 1, 5, 6 and 2. */
  lemma RegionPlacementCases()
    ensures CheckRegionPlacement(Puzzle, "A", "2", "3")
    ensures !CheckRegionPlacement(Puzzle, "A", "2", "6")
  {
    assert BlockOf(11) == BlockOf(1) && Puzzle[11] == '6';
    forall k | 0 <= k < NumCells && BlockOf(k) == BlockOf(1)
      ensures At(Puzzle, k) != Some('3')
    {
      DivMod9(k, k / 9, k % 9);
      assert k / 9 < 3 && k % 9 < 3;
      assert k == 0 || k == 1 || k == 2 || k == 9 || k == 10 || k == 11 || k == 18 || k == 19 || k == 20;
    }
  }

  /** solve refuses a character outside `[1-9.]`. */
  method SolveWithLetter() returns (r: SolveResult)
    ensures r == Failure("Invalid characters in solve()")
  {
    assert !IsCellChar(EndsInLetter[80]);
    r := Solve(EndsInLetter);
  }

  /** solve refuses a string shorter than 81 characters. */
  method SolveShort() returns (r: SolveResult)
    ensures r == Failure("Invalid length in solve()")
  {
    r := Solve(Truncated);
  }

  // ---------------------------------------------------------------------------
  // The test puzzle has exactly one acceptable completion, the expected one

  predicate IsPeerOf(m: int, k: int) {
    0 <= m < NumCells && m != k && Peers(m, k)
  }

  /** In any acceptable completion the blank k holds a digit that differs from the eight
      given cells, when those are its peers. */
  lemma ForcedBy(s: string, k: int, a: int, b: int, c: int, d: int, e: int, f: int, g: int, h: int)
    requires Acceptable(Puzzle, s) && 0 <= k < NumCells
    ensures (Puzzle[k] == '.' && IsPeerOf(a, k) && IsPeerOf(b, k) && IsPeerOf(c, k) && IsPeerOf(d, k)
      && IsPeerOf(e, k) && IsPeerOf(f, k) && IsPeerOf(g, k) && IsPeerOf(h, k)) ==>
        && IsDigit(s[k]) && s[k] != s[a] && s[k] != s[b] && s[k] != s[c] && s[k] != s[d]
        && s[k] != s[e] && s[k] != s[f] && s[k] != s[g] && s[k] != s[h]
  {
  }

  lemma ForcedCells1(s: string)
    requires Acceptable(Puzzle, s)
    ensures (s[1], s[9], s[13]) == ('3', '9', '8')
  {
    ForcedBy(s, 1, 0, 2, 5, 7, 8, 11, 28, 55);
    assert s[1] == '3';
    ForcedBy(s, 9, 0, 1, 2, 11, 15, 17, 36, 54);
    assert s[9] == '9';
    ForcedBy(s, 13, 5, 9, 11, 12, 14, 17, 22, 76);
    assert s[13] == '8';
  }

  lemma ForcedCells2(s: string)
    requires Acceptable(Puzzle, s)
    requires (s[1], s[9], s[13]) == ('3', '9', '8')
    ensures (s[10], s[16], s[18]) == ('4', '5', '7')
  {
    ForcedBy(s, 10, 0, 1, 2, 9, 11, 13, 15, 17);
    assert s[10] == '4';
    ForcedBy(s, 16, 7, 8, 9, 11, 12, 14, 15, 17);
    assert s[16] == '5';
    ForcedBy(s, 18, 0, 1, 2, 9, 10, 11, 19, 36);
    assert s[18] == '7';
  }

  lemma ForcedCells3(s: string)
    requires Acceptable(Puzzle, s)
    requires (s[1], s[9], s[10], s[18]) == ('3', '9', '4', '7')
    ensures (s[20], s[29], s[44]) == ('8', '4', '5')
  {
    ForcedBy(s, 20, 0, 1, 2, 9, 10, 11, 18, 19);
    assert s[20] == '8';
    ForcedBy(s, 29, 2, 11, 20, 28, 31, 38, 45, 47);
    assert s[29] == '4';
    ForcedBy(s, 44, 8, 17, 36, 38, 40, 41, 52, 62);
    assert s[44] == '5';
  }

  lemma ForcedCells4(s: string)
    requires Acceptable(Puzzle, s)
    requires (s[1], s[10], s[44]) == ('3', '4', '5')
    ensures (s[37], s[39], s[3]) == ('1', '9', '7')
  {
    ForcedBy(s, 37, 1, 10, 19, 28, 36, 41, 42, 44);
    assert s[37] == '1';
    ForcedBy(s, 39, 12, 31, 36, 38, 41, 42, 43, 44);
    assert s[39] == '9';
    ForcedBy(s, 3, 0, 1, 2, 5, 7, 8, 39, 66);
    assert s[3] == '7';
  }

  lemma ForcedCells5(s: string)
    requires Acceptable(Puzzle, s)
    requires (s[1], s[3], s[13], s[39]) == ('3', '7', '8', '9')
    ensures (s[21], s[23], s[4]) == ('4', '9', '6')
  {
    ForcedBy(s, 21, 3, 5, 12, 13, 14, 22, 39, 66);
    assert s[21] == '4';
    ForcedBy(s, 23, 3, 5, 12, 13, 14, 21, 22, 41);
    assert s[23] == '9';
    ForcedBy(s, 4, 0, 1, 2, 3, 5, 7, 8, 23);
    assert s[4] == '6';
  }

  lemma ForcedCells6(s: string)
    requires Acceptable(Puzzle, s)
    requires (s[1], s[3], s[4], s[9], s[10], s[18], s[29], s[37]) == ('3', '7', '6', '9', '4', '7', '4', '1')
    ensures (s[6], s[46], s[27]) == ('9', '5', '6')
  {
    ForcedBy(s, 6, 0, 1, 2, 3, 4, 5, 7, 8);
    assert s[6] == '9';
    ForcedBy(s, 46, 1, 10, 19, 28, 36, 37, 47, 73);
    assert s[46] == '5';
    ForcedBy(s, 27, 0, 9, 18, 29, 36, 38, 45, 46);
    assert s[27] == '6';
  }

  lemma ForcedCells7(s: string)
    requires Acceptable(Puzzle, s)
    requires (s[3], s[6], s[21], s[23], s[27], s[29], s[44]) == ('7', '9', '4', '9', '6', '4', '5')
    ensures (s[33], s[30], s[32]) == ('8', '5', '7')
  {
    ForcedBy(s, 33, 6, 15, 27, 29, 31, 42, 44, 78);
    assert s[33] == '8';
    ForcedBy(s, 30, 3, 12, 21, 27, 28, 31, 33, 49);
    assert s[30] == '5';
    ForcedBy(s, 32, 5, 14, 23, 27, 29, 30, 33, 40);
    assert s[32] == '7';
  }

  lemma ForcedCells8(s: string)
    requires Acceptable(Puzzle, s)
    requires (s[3], s[21], s[23], s[30], s[32], s[33], s[39], s[44]) == ('7', '4', '9', '5', '7', '8', '9', '5')
    ensures (s[48], s[50], s[53]) == ('8', '4', '6')
  {
    ForcedBy(s, 48, 3, 12, 21, 30, 31, 39, 41, 49);
    assert s[48] == '8';
    ForcedBy(s, 50, 5, 14, 23, 30, 32, 40, 41, 48);
    assert s[50] == '4';
    ForcedBy(s, 53, 8, 17, 33, 44, 45, 49, 52, 62);
    assert s[53] == '6';
  }

  lemma ForcedCells9(s: string)
    requires Acceptable(Puzzle, s)
    requires (s[6], s[16], s[27], s[29], s[30], s[32], s[33], s[53]) == ('9', '5', '6', '4', '5', '7', '8', '6')
    ensures (s[26], s[35], s[34]) == ('3', '2', '3')
  {
    ForcedBy(s, 26, 6, 7, 8, 15, 16, 17, 53, 62);
    assert s[26] == '3';
    ForcedBy(s, 35, 8, 17, 26, 27, 28, 30, 31, 33);
    assert s[35] == '2';
    ForcedBy(s, 34, 7, 16, 27, 28, 29, 31, 32, 35);
    assert s[34] == '3';
  }

  lemma ForcedCells10(s: string)
    requires Acceptable(Puzzle, s)
    requires (s[6], s[16], s[26], s[33], s[34], s[44], s[53]) == ('9', '5', '3', '8', '3', '5', '6')
    ensures (s[51], s[24], s[25]) == ('1', '6', '1')
  {
    ForcedBy(s, 51, 6, 15, 33, 34, 42, 43, 44, 53);
    assert s[51] == '1';
    ForcedBy(s, 24, 6, 7, 8, 15, 16, 17, 26, 51);
    assert s[24] == '6';
    ForcedBy(s, 25, 6, 7, 8, 15, 16, 17, 24, 26);
    assert s[25] == '1';
  }

  lemma ForcedCells11(s: string)
    requires Acceptable(Puzzle, s)
    requires (s[3], s[4], s[13], s[20], s[21], s[29], s[30], s[39], s[48]) == ('7', '6', '8', '8', '4', '4', '5', '9', '8')
    ensures (s[56], s[57], s[58]) == ('3', '2', '9')
  {
    ForcedBy(s, 56, 2, 11, 20, 29, 38, 47, 62, 74);
    assert s[56] == '3';
    ForcedBy(s, 57, 3, 12, 21, 30, 39, 48, 62, 66);
    assert s[57] == '2';
    ForcedBy(s, 58, 4, 13, 22, 31, 40, 49, 54, 55);
    assert s[58] == '9';
  }

  lemma ForcedCells12(s: string)
    requires Acceptable(Puzzle, s)
    requires (s[6], s[9], s[16], s[18], s[24], s[25], s[27], s[33], s[34], s[51], s[56], s[57]) == ('9', '9', '5', '7', '6', '1', '6', '8', '3', '1', '3', '2')
    ensures (s[60], s[61], s[63]) == ('5', '6', '5')
  {
    ForcedBy(s, 60, 6, 15, 24, 33, 42, 51, 54, 56);
    assert s[60] == '5';
    ForcedBy(s, 61, 7, 16, 25, 34, 43, 52, 55, 57);
    assert s[61] == '6';
    ForcedBy(s, 63, 0, 9, 18, 27, 36, 45, 54, 72);
    assert s[63] == '5';
  }

  lemma ForcedCells13(s: string)
    requires Acceptable(Puzzle, s)
    requires (s[1], s[4], s[10], s[13], s[23], s[32], s[37], s[46], s[50], s[58], s[63]) == ('3', '6', '4', '8', '9', '7', '1', '5', '4', '9', '5')
    ensures (s[64], s[67], s[68]) == ('8', '7', '3')
  {
    ForcedBy(s, 64, 1, 10, 19, 28, 37, 46, 55, 66);
    assert s[64] == '8';
    ForcedBy(s, 67, 4, 13, 22, 31, 40, 49, 58, 76);
    assert s[67] == '7';
    ForcedBy(s, 68, 5, 14, 23, 32, 41, 50, 59, 63);
    assert s[68] == '3';
  }

  lemma ForcedCells14(s: string)
    requires Acceptable(Puzzle, s)
    requires (s[6], s[16], s[23], s[24], s[25], s[32], s[33], s[34], s[50], s[51], s[60], s[61], s[67], s[68]) == ('9', '5', '9', '6', '1', '7', '8', '3', '4', '1', '5', '6', '7', '3')
    ensures (s[69], s[70], s[77]) == ('4', '2', '5')
  {
    ForcedBy(s, 69, 6, 15, 24, 33, 42, 51, 60, 68);
    assert s[69] == '4';
    ForcedBy(s, 70, 7, 16, 25, 34, 43, 52, 61, 67);
    assert s[70] == '2';
    ForcedBy(s, 77, 5, 14, 23, 32, 41, 50, 59, 68);
    assert s[77] == '5';
  }

  lemma ForcedCells15(s: string)
    requires Acceptable(Puzzle, s)
    requires (s[26], s[35], s[44], s[53]) == ('3', '2', '5', '6')
    ensures (s[80]) == ('8')
  {
    ForcedBy(s, 80, 8, 17, 26, 35, 44, 53, 62, 71);
    assert s[80] == '8';
  }

  lemma ClueCells1(s: string)
    requires Completes(Puzzle, s)
    ensures (s[0], s[2], s[5], s[7], s[8], s[11], s[12], s[14], s[15], s[17]) ==
            ('1', '5', '2', '8', '4', '6', '3', '1', '2', '7')
  {
  }

  lemma ClueCells2(s: string)
    requires Completes(Puzzle, s)
    ensures (s[19], s[22], s[28], s[31], s[36], s[38], s[40], s[41], s[42], s[43]) ==
            ('2', '5', '9', '1', '8', '2', '3', '6', '7', '4')
  {
  }

  lemma ClueCells3(s: string)
    requires Completes(Puzzle, s)
    ensures (s[45], s[47], s[49], s[52], s[54], s[55], s[59], s[62], s[65], s[66]) ==
            ('3', '7', '2', '9', '4', '7', '8', '1', '1', '6')
  {
  }

  lemma ClueCells4(s: string)
    requires Completes(Puzzle, s)
    ensures (s[71], s[72], s[73], s[74], s[75], s[76], s[78], s[79]) ==
            ('9', '2', '6', '9', '1', '4', '3', '7')
  {
  }

  /** The test puzzle has exactly one acceptable completion, the expected solution: every
      blank is forced, in turn, by the eight other digits its peers already hold. */
  lemma OnlyCompletion(s: string)
    requires Acceptable(Puzzle, s)
    ensures s == Expected
  {
    ClueCells1(s);
    ClueCells2(s);
    ClueCells3(s);
    ClueCells4(s);
    ForcedCells1(s);
    ForcedCells2(s);
    ForcedCells3(s);
    ForcedCells4(s);
    ForcedCells5(s);
    ForcedCells6(s);
    ForcedCells7(s);
    ForcedCells8(s);
    ForcedCells9(s);
    ForcedCells10(s);
    ForcedCells11(s);
    ForcedCells12(s);
    ForcedCells13(s);
    ForcedCells14(s);
    ForcedCells15(s);
    AgreesCellwise(s);
  }
  /** A string that holds the expected digit in every cell is the expected solution. */
  lemma AgreesCellwise(s: string)
    requires |s| == NumCells
    requires (s[0], s[1], s[2], s[3], s[4], s[5], s[6], s[7], s[8]) ==
             ('1', '3', '5', '7', '6', '2', '9', '8', '4')
    requires (s[9], s[10], s[11], s[12], s[13], s[14], s[15], s[16], s[17]) ==
             ('9', '4', '6', '3', '8', '1', '2', '5', '7')
    requires (s[18], s[19], s[20], s[21], s[22], s[23], s[24], s[25], s[26]) ==
             ('7', '2', '8', '4', '5', '9', '6', '1', '3')
    requires (s[27], s[28], s[29], s[30], s[31], s[32], s[33], s[34], s[35]) ==
             ('6', '9', '4', '5', '1', '7', '8', '3', '2')
    requires (s[36], s[37], s[38], s[39], s[40], s[41], s[42], s[43], s[44]) ==
             ('8', '1', '2', '9', '3', '6', '7', '4', '5')
    requires (s[45], s[46], s[47], s[48], s[49], s[50], s[51], s[52], s[53]) ==
             ('3', '5', '7', '8', '2', '4', '1', '9', '6')
    requires (s[54], s[55], s[56], s[57], s[58], s[59], s[60], s[61], s[62]) ==
             ('4', '7', '3', '2', '9', '8', '5', '6', '1')
    requires (s[63], s[64], s[65], s[66], s[67], s[68], s[69], s[70], s[71]) ==
             ('5', '8', '1', '6', '7', '3', '4', '2', '9')
    requires (s[72], s[73], s[74], s[75], s[76], s[77], s[78], s[79], s[80]) ==
             ('2', '6', '9', '1', '4', '5', '3', '7', '8')
    ensures s == Expected
  {
    forall i | 0 <= i < NumCells
      ensures s[i] == Expected[i]
    {
      assert
        i == 0 || i == 1 || i == 2 || i == 3 || i == 4 || i == 5 || i == 6 || i == 7 || i == 8 ||
        i == 9 || i == 10 || i == 11 || i == 12 || i == 13 || i == 14 || i == 15 || i == 16 || i == 17 ||
        i == 18 || i == 19 || i == 20 || i == 21 || i == 22 || i == 23 || i == 24 || i == 25 || i == 26 ||
        i == 27 || i == 28 || i == 29 || i == 30 || i == 31 || i == 32 || i == 33 || i == 34 || i == 35 ||
        i == 36 || i == 37 || i == 38 || i == 39 || i == 40 || i == 41 || i == 42 || i == 43 || i == 44 ||
        i == 45 || i == 46 || i == 47 || i == 48 || i == 49 || i == 50 || i == 51 || i == 52 || i == 53 ||
        i == 54 || i == 55 || i == 56 || i == 57 || i == 58 || i == 59 || i == 60 || i == 61 || i == 62 ||
        i == 63 || i == 64 || i == 65 || i == 66 || i == 67 || i == 68 || i == 69 || i == 70 || i == 71 ||
        i == 72 || i == 73 || i == 74 || i == 75 || i == 76 || i == 77 || i == 78 || i == 79 || i == 80;
    }
  }


  // ---------------------------------------------------------------------------
  // Checking a concrete board row by row, column by column and region by region

  /** No filled cell of the unit repeats another. */
  ghost predicate DistinctFilled(t: seq<char>) {
    forall a, b :: 0 <= a < b < |t| && t[a] != '.' && t[b] != '.' ==> t[a] != t[b]
  }

  function RowCells(s: string, r: int): seq<char>
    requires |s| == NumCells && 0 <= r < 9
  {
    var k := 9 * r;
    [s[k], s[k + 1], s[k + 2], s[k + 3], s[k + 4], s[k + 5], s[k + 6], s[k + 7], s[k + 8]]
  }

  function ColumnCells(s: string, c: int): seq<char>
    requires |s| == NumCells && 0 <= c < 9
  {
    [s[c], s[c + 9], s[c + 18], s[c + 27], s[c + 36], s[c + 45], s[c + 54], s[c + 63], s[c + 72]]
  }

  /** The index of the top-left cell of region (br, bc), counting regions from the top left. */
  function BlockTop(br: int, bc: int): int {
    27 * br + 3 * bc
  }

  function RegionCells(s: string, br: int, bc: int): seq<char>
    requires |s| == NumCells && 0 <= br < 3 && 0 <= bc < 3
  {
    var k := 27 * br + 3 * bc;
    [s[k], s[k + 1], s[k + 2], s[k + 9], s[k + 10], s[k + 11], s[k + 18], s[k + 19], s[k + 20]]
  }

  ghost predicate UnitsDistinct(s: string)
    requires |s| == NumCells
  {
    && (forall r :: 0 <= r < 9 ==> DistinctFilled(RowCells(s, r)))
    && (forall c :: 0 <= c < 9 ==> DistinctFilled(ColumnCells(s, c)))
    && (forall br, bc :: 0 <= br < 3 && 0 <= bc < 3 ==> DistinctFilled(RegionCells(s, br, bc)))
  }

  /** How far the p-th cell of a region lies from its top-left cell. */
  function RegionOffset(p: int): int {
    if p < 3 then p else if p < 6 then p + 6 else p + 12
  }

  /** Where cell j sits in its region: region (br, bc), position p within it. */
  lemma RegionPosition(j: int) returns (br: int, bc: int, p: int)
    requires 0 <= j < NumCells
    ensures 0 <= br < 3 && 0 <= bc < 3 && 0 <= p < 9
    ensures j == BlockTop(br, bc) + RegionOffset(p)
    ensures BlockOf(j) == 3 * br + bc
  {
    var r, c := j / 9, j % 9;
    br, bc := r / 3, c / 3;
    p := 3 * (r % 3) + c % 3;
    DivMod3(p, r % 3, c % 3);
    DivMod27(j, br, 9 * (r % 3) + c);
  }

  lemma RowPair(s: string, j: int, k: int)
    requires |s| == NumCells && 0 <= j < NumCells && 0 <= k < NumCells && j != k && RowOf(j) == RowOf(k)
    requires s[j] != '.' && s[k] != '.' && DistinctFilled(RowCells(s, RowOf(j)))
    ensures s[j] != s[k]
  {
    DivMod9(j, j / 9, j % 9);
    DivMod9(k, k / 9, k % 9);
    var t := RowCells(s, j / 9);
    assert t[j % 9] == s[j] && t[k % 9] == s[k];
  }

  lemma ColumnPair(s: string, j: int, k: int)
    requires |s| == NumCells && 0 <= j < NumCells && 0 <= k < NumCells && j != k && ColOf(j) == ColOf(k)
    requires s[j] != '.' && s[k] != '.' && DistinctFilled(ColumnCells(s, ColOf(j)))
    ensures s[j] != s[k]
  {
    DivMod9(j, j / 9, j % 9);
    DivMod9(k, k / 9, k % 9);
    var t := ColumnCells(s, j % 9);
    assert t[j / 9] == s[j] && t[k / 9] == s[k];
  }

  lemma RegionCellAt(s: string, br: int, bc: int, p: int)
    requires |s| == NumCells && 0 <= br < 3 && 0 <= bc < 3 && 0 <= p < 9
    ensures RegionCells(s, br, bc)[p] == s[BlockTop(br, bc) + RegionOffset(p)]
  {
    assert p == 0 || p == 1 || p == 2 || p == 3 || p == 4 || p == 5 || p == 6 || p == 7 || p == 8;
  }

  lemma RegionPair(s: string, j: int, k: int)
    requires |s| == NumCells && 0 <= j < NumCells && 0 <= k < NumCells && j != k && BlockOf(j) == BlockOf(k)
    requires s[j] != '.' && s[k] != '.'
    requires forall br, bc :: 0 <= br < 3 && 0 <= bc < 3 ==> DistinctFilled(RegionCells(s, br, bc))
    ensures s[j] != s[k]
  {
    var br, bc, p := RegionPosition(j);
    var br', bc', q := RegionPosition(k);
    var block := 3 * br + bc;
    assert block == 3 * br' + bc';
    DivMod3(block, br, bc);
    DivMod3(block, br', bc');
    assert br == br' && bc == bc';
    RegionPairAt(s, br, bc, p, q);
  }

  /** Two cells at different positions p and q of region (br, bc). */
  lemma RegionPairAt(s: string, br: int, bc: int, p: int, q: int)
    requires |s| == NumCells && 0 <= br < 3 && 0 <= bc < 3 && 0 <= p < 9 && 0 <= q < 9 && p != q
    requires s[BlockTop(br, bc) + RegionOffset(p)] != '.' && s[BlockTop(br, bc) + RegionOffset(q)] != '.'
    requires DistinctFilled(RegionCells(s, br, bc))
    ensures s[BlockTop(br, bc) + RegionOffset(p)] != s[BlockTop(br, bc) + RegionOffset(q)]
  {
    var t := RegionCells(s, br, bc);
    RegionCellAt(s, br, bc, p);
    RegionCellAt(s, br, bc, q);
    if p < q {
      assert t[p] != t[q];
    } else {
      assert t[q] != t[p];
    }
  }

  /** A board whose rows, columns and regions each repeat no digit has no duplicate clue. */
  lemma UnitsDistinctNoDuplicates(s: string)
    requires |s| == NumCells && UnitsDistinct(s)
    ensures NoDuplicateClues(s)
  {
    forall j, k | 0 <= j < NumCells && 0 <= k < NumCells && j != k && Peers(j, k) && s[j] != '.' && s[k] != '.'
      ensures s[j] != s[k]
    {
      if RowOf(j) == RowOf(k) {
        RowPair(s, j, k);
      } else if ColOf(j) == ColOf(k) {
        ColumnPair(s, j, k);
      } else {
        RegionPair(s, j, k);
      }
    }
  }

  /** The cells of the expected solution, row by row. */
  lemma ExpectedRow0()
    ensures Expected[0] == '1' && Expected[1] == '3' && Expected[2] == '5' && Expected[3] == '7' && Expected[4] == '6' && Expected[5] == '2' && Expected[6] == '9' && Expected[7] == '8' && Expected[8] == '4'
  {
  }

  lemma ExpectedRow1()
    ensures Expected[9] == '9' && Expected[10] == '4' && Expected[11] == '6' && Expected[12] == '3' && Expected[13] == '8' && Expected[14] == '1' && Expected[15] == '2' && Expected[16] == '5' && Expected[17] == '7'
  {
  }

  lemma ExpectedRow2()
    ensures Expected[18] == '7' && Expected[19] == '2' && Expected[20] == '8' && Expected[21] == '4' && Expected[22] == '5' && Expected[23] == '9' && Expected[24] == '6' && Expected[25] == '1' && Expected[26] == '3'
  {
  }

  lemma ExpectedRow3()
    ensures Expected[27] == '6' && Expected[28] == '9' && Expected[29] == '4' && Expected[30] == '5' && Expected[31] == '1' && Expected[32] == '7' && Expected[33] == '8' && Expected[34] == '3' && Expected[35] == '2'
  {
  }

  lemma ExpectedRow4()
    ensures Expected[36] == '8' && Expected[37] == '1' && Expected[38] == '2' && Expected[39] == '9' && Expected[40] == '3' && Expected[41] == '6' && Expected[42] == '7' && Expected[43] == '4' && Expected[44] == '5'
  {
  }

  lemma ExpectedRow5()
    ensures Expected[45] == '3' && Expected[46] == '5' && Expected[47] == '7' && Expected[48] == '8' && Expected[49] == '2' && Expected[50] == '4' && Expected[51] == '1' && Expected[52] == '9' && Expected[53] == '6'
  {
  }

  lemma ExpectedRow6()
    ensures Expected[54] == '4' && Expected[55] == '7' && Expected[56] == '3' && Expected[57] == '2' && Expected[58] == '9' && Expected[59] == '8' && Expected[60] == '5' && Expected[61] == '6' && Expected[62] == '1'
  {
  }

  lemma ExpectedRow7()
    ensures Expected[63] == '5' && Expected[64] == '8' && Expected[65] == '1' && Expected[66] == '6' && Expected[67] == '7' && Expected[68] == '3' && Expected[69] == '4' && Expected[70] == '2' && Expected[71] == '9'
  {
  }

  lemma ExpectedRow8()
    ensures Expected[72] == '2' && Expected[73] == '6' && Expected[74] == '9' && Expected[75] == '1' && Expected[76] == '4' && Expected[77] == '5' && Expected[78] == '3' && Expected[79] == '7' && Expected[80] == '8'
  {
  }

  lemma DistinctNine(c0: char, c1: char, c2: char, c3: char, c4: char, c5: char, c6: char, c7: char, c8: char)
    requires c0 != c1 && c0 != c2 && c0 != c3 && c0 != c4 && c0 != c5 && c0 != c6 && c0 != c7 && c0 != c8
    requires c1 != c2 && c1 != c3 && c1 != c4 && c1 != c5 && c1 != c6 && c1 != c7 && c1 != c8
    requires c2 != c3 && c2 != c4 && c2 != c5 && c2 != c6 && c2 != c7 && c2 != c8
    requires c3 != c4 && c3 != c5 && c3 != c6 && c3 != c7 && c3 != c8
    requires c4 != c5 && c4 != c6 && c4 != c7 && c4 != c8
    requires c5 != c6 && c5 != c7 && c5 != c8
    requires c6 != c7 && c6 != c8
    requires c7 != c8
    ensures DistinctFilled([c0, c1, c2, c3, c4, c5, c6, c7, c8])
  {
  }

  lemma ExpectedRowsDistinct()
    ensures DistinctFilled(RowCells(Expected, 0))
    ensures DistinctFilled(RowCells(Expected, 1))
    ensures DistinctFilled(RowCells(Expected, 2))
    ensures DistinctFilled(RowCells(Expected, 3))
    ensures DistinctFilled(RowCells(Expected, 4))
    ensures DistinctFilled(RowCells(Expected, 5))
    ensures DistinctFilled(RowCells(Expected, 6))
    ensures DistinctFilled(RowCells(Expected, 7))
    ensures DistinctFilled(RowCells(Expected, 8))
  {
    ExpectedRow0();
    ExpectedRow1();
    ExpectedRow2();
    ExpectedRow3();
    ExpectedRow4();
    ExpectedRow5();
    ExpectedRow6();
    ExpectedRow7();
    ExpectedRow8();
    DistinctNine(Expected[0], Expected[1], Expected[2], Expected[3], Expected[4], Expected[5], Expected[6], Expected[7], Expected[8]);
    DistinctNine(Expected[9], Expected[10], Expected[11], Expected[12], Expected[13], Expected[14], Expected[15], Expected[16], Expected[17]);
    DistinctNine(Expected[18], Expected[19], Expected[20], Expected[21], Expected[22], Expected[23], Expected[24], Expected[25], Expected[26]);
    DistinctNine(Expected[27], Expected[28], Expected[29], Expected[30], Expected[31], Expected[32], Expected[33], Expected[34], Expected[35]);
    DistinctNine(Expected[36], Expected[37], Expected[38], Expected[39], Expected[40], Expected[41], Expected[42], Expected[43], Expected[44]);
    DistinctNine(Expected[45], Expected[46], Expected[47], Expected[48], Expected[49], Expected[50], Expected[51], Expected[52], Expected[53]);
    DistinctNine(Expected[54], Expected[55], Expected[56], Expected[57], Expected[58], Expected[59], Expected[60], Expected[61], Expected[62]);
    DistinctNine(Expected[63], Expected[64], Expected[65], Expected[66], Expected[67], Expected[68], Expected[69], Expected[70], Expected[71]);
    DistinctNine(Expected[72], Expected[73], Expected[74], Expected[75], Expected[76], Expected[77], Expected[78], Expected[79], Expected[80]);
  }

  lemma ExpectedColumnsDistinct()
    ensures DistinctFilled(ColumnCells(Expected, 0))
    ensures DistinctFilled(ColumnCells(Expected, 1))
    ensures DistinctFilled(ColumnCells(Expected, 2))
    ensures DistinctFilled(ColumnCells(Expected, 3))
    ensures DistinctFilled(ColumnCells(Expected, 4))
    ensures DistinctFilled(ColumnCells(Expected, 5))
    ensures DistinctFilled(ColumnCells(Expected, 6))
    ensures DistinctFilled(ColumnCells(Expected, 7))
    ensures DistinctFilled(ColumnCells(Expected, 8))
  {
    ExpectedRow0();
    ExpectedRow1();
    ExpectedRow2();
    ExpectedRow3();
    ExpectedRow4();
    ExpectedRow5();
    ExpectedRow6();
    ExpectedRow7();
    ExpectedRow8();
    DistinctNine(Expected[0], Expected[9], Expected[18], Expected[27], Expected[36], Expected[45], Expected[54], Expected[63], Expected[72]);
    DistinctNine(Expected[1], Expected[10], Expected[19], Expected[28], Expected[37], Expected[46], Expected[55], Expected[64], Expected[73]);
    DistinctNine(Expected[2], Expected[11], Expected[20], Expected[29], Expected[38], Expected[47], Expected[56], Expected[65], Expected[74]);
    DistinctNine(Expected[3], Expected[12], Expected[21], Expected[30], Expected[39], Expected[48], Expected[57], Expected[66], Expected[75]);
    DistinctNine(Expected[4], Expected[13], Expected[22], Expected[31], Expected[40], Expected[49], Expected[58], Expected[67], Expected[76]);
    DistinctNine(Expected[5], Expected[14], Expected[23], Expected[32], Expected[41], Expected[50], Expected[59], Expected[68], Expected[77]);
    DistinctNine(Expected[6], Expected[15], Expected[24], Expected[33], Expected[42], Expected[51], Expected[60], Expected[69], Expected[78]);
    DistinctNine(Expected[7], Expected[16], Expected[25], Expected[34], Expected[43], Expected[52], Expected[61], Expected[70], Expected[79]);
    DistinctNine(Expected[8], Expected[17], Expected[26], Expected[35], Expected[44], Expected[53], Expected[62], Expected[71], Expected[80]);
  }

  lemma ExpectedRegionsDistinct()
    ensures DistinctFilled(RegionCells(Expected, 0, 0))
    ensures DistinctFilled(RegionCells(Expected, 0, 1))
    ensures DistinctFilled(RegionCells(Expected, 0, 2))
    ensures DistinctFilled(RegionCells(Expected, 1, 0))
    ensures DistinctFilled(RegionCells(Expected, 1, 1))
    ensures DistinctFilled(RegionCells(Expected, 1, 2))
    ensures DistinctFilled(RegionCells(Expected, 2, 0))
    ensures DistinctFilled(RegionCells(Expected, 2, 1))
    ensures DistinctFilled(RegionCells(Expected, 2, 2))
  {
    ExpectedRow0();
    ExpectedRow1();
    ExpectedRow2();
    ExpectedRow3();
    ExpectedRow4();
    ExpectedRow5();
    ExpectedRow6();
    ExpectedRow7();
    ExpectedRow8();
    DistinctNine(Expected[0], Expected[1], Expected[2], Expected[9], Expected[10], Expected[11], Expected[18], Expected[19], Expected[20]);
    DistinctNine(Expected[3], Expected[4], Expected[5], Expected[12], Expected[13], Expected[14], Expected[21], Expected[22], Expected[23]);
    DistinctNine(Expected[6], Expected[7], Expected[8], Expected[15], Expected[16], Expected[17], Expected[24], Expected[25], Expected[26]);
    DistinctNine(Expected[27], Expected[28], Expected[29], Expected[36], Expected[37], Expected[38], Expected[45], Expected[46], Expected[47]);
    DistinctNine(Expected[30], Expected[31], Expected[32], Expected[39], Expected[40], Expected[41], Expected[48], Expected[49], Expected[50]);
    DistinctNine(Expected[33], Expected[34], Expected[35], Expected[42], Expected[43], Expected[44], Expected[51], Expected[52], Expected[53]);
    DistinctNine(Expected[54], Expected[55], Expected[56], Expected[63], Expected[64], Expected[65], Expected[72], Expected[73], Expected[74]);
    DistinctNine(Expected[57], Expected[58], Expected[59], Expected[66], Expected[67], Expected[68], Expected[75], Expected[76], Expected[77]);
    DistinctNine(Expected[60], Expected[61], Expected[62], Expected[69], Expected[70], Expected[71], Expected[78], Expected[79], Expected[80]);
  }

  /** The expected solution repeats no digit in a row, a column or a region. */
  lemma ExpectedNoDuplicates()
    ensures NoDuplicateClues(Expected)
  {
    ExpectedRowsDistinct();
    forall r | 0 <= r < 9
      ensures DistinctFilled(RowCells(Expected, r))
    {
      assert r == 0 || r == 1 || r == 2 || r == 3 || r == 4 || r == 5 || r == 6 || r == 7 || r == 8;
    }
    ExpectedColumnsDistinct();
    forall c | 0 <= c < 9
      ensures DistinctFilled(ColumnCells(Expected, c))
    {
      assert c == 0 || c == 1 || c == 2 || c == 3 || c == 4 || c == 5 || c == 6 || c == 7 || c == 8;
    }
    ExpectedRegionsDistinct();
    forall br, bc | 0 <= br < 3 && 0 <= bc < 3
      ensures DistinctFilled(RegionCells(Expected, br, bc))
    {
      assert br == 0 || br == 1 || br == 2;
      assert bc == 0 || bc == 1 || bc == 2;
    }
    UnitsDistinctNoDuplicates(Expected);
  }

  // ---------------------------------------------------------------------------
  // The expected solution is an acceptable completion of the test puzzle

  /** Cell character c of a puzzle is filled in by the digit d. */
  predicate CellFills(c: char, d: char) {
    IsCellChar(c) && IsDigit(d) && (c != '.' ==> d == c)
  }

  /** t fills in p cell by cell. */
  ghost predicate FillsIn(p: string, t: string) {
    |p| == |t| && forall i :: 0 <= i < |p| ==> CellFills(p[i], t[i])
  }

  lemma FillsInAppend(p: string, t: string, p': string, t': string)
    requires FillsIn(p, t) && FillsIn(p', t')
    ensures FillsIn(p + p', t + t')
  {
    forall i | 0 <= i < |p + p'|
      ensures CellFills((p + p')[i], (t + t')[i])
    {
      if i >= |p| {
        assert (p + p')[i] == p'[i - |p|] && (t + t')[i] == t'[i - |p|];
      }
    }
  }

  lemma FillsInNine(p: string, t: string)
    requires |p| == 9 && |t| == 9
    requires CellFills(p[0], t[0]) && CellFills(p[1], t[1]) && CellFills(p[2], t[2])
    requires CellFills(p[3], t[3]) && CellFills(p[4], t[4]) && CellFills(p[5], t[5])
    requires CellFills(p[6], t[6]) && CellFills(p[7], t[7]) && CellFills(p[8], t[8])
    ensures FillsIn(p, t)
  {
    forall i | 0 <= i < 9
      ensures CellFills(p[i], t[i])
    {
      assert i == 0 || i == 1 || i == 2 || i == 3 || i == 4 || i == 5 || i == 6 || i == 7 || i == 8;
    }
  }

  /** The expected solution fills in the test puzzle, which is a well-formed puzzle string. */
  lemma ExpectedFillsIn()
    ensures IsPuzzleString(Puzzle) && Completes(Puzzle, Expected)
  {
    FillsInNine("1.5..2.84", "135762984");
    FillsInNine("..63.12.7", "946381257");
    FillsInNine(".2..5....", "728459613");
    FillsInNine(".9..1....", "694517832");
    FillsInNine("8.2.3674.", "812936745");
    FillsInNine("3.7.2..9.", "357824196");
    FillsInNine("47...8..1", "473298561");
    FillsInNine("..16....9", "581673429");
    FillsInNine("26914.37.", "269145378");
    FillsInAppend("1.5..2.84", "135762984", "..63.12.7", "946381257");
    FillsInAppend("1.5..2.84" + "..63.12.7", "135762984" + "946381257", ".2..5....", "728459613");
    FillsInAppend("1.5..2.84" + "..63.12.7" + ".2..5....", "135762984" + "946381257" + "728459613", ".9..1....", "694517832");
    FillsInAppend("1.5..2.84" + "..63.12.7" + ".2..5...." + ".9..1....", "135762984" + "946381257" + "728459613" + "694517832", "8.2.3674.", "812936745");
    FillsInAppend("1.5..2.84" + "..63.12.7" + ".2..5...." + ".9..1...." + "8.2.3674.", "135762984" + "946381257" + "728459613" + "694517832" + "812936745", "3.7.2..9.", "357824196");
    FillsInAppend("1.5..2.84" + "..63.12.7" + ".2..5...." + ".9..1...." + "8.2.3674." + "3.7.2..9.", "135762984" + "946381257" + "728459613" + "694517832" + "812936745" + "357824196", "47...8..1", "473298561");
    FillsInAppend("1.5..2.84" + "..63.12.7" + ".2..5...." + ".9..1...." + "8.2.3674." + "3.7.2..9." + "47...8..1", "135762984" + "946381257" + "728459613" + "694517832" + "812936745" + "357824196" + "473298561", "..16....9", "581673429");
    FillsInAppend("1.5..2.84" + "..63.12.7" + ".2..5...." + ".9..1...." + "8.2.3674." + "3.7.2..9." + "47...8..1" + "..16....9", "135762984" + "946381257" + "728459613" + "694517832" + "812936745" + "357824196" + "473298561" + "581673429", "26914.37.", "269145378");
    assert FillsIn(Puzzle, Expected);
  }

  function DigitCount(c: char): nat {
    if IsDigit(c) then 1 else 0
  }

  /** A row of nine cells holds as many clues as it has digits. */
  lemma ClueCountNine(c0: char, c1: char, c2: char, c3: char, c4: char, c5: char, c6: char, c7: char, c8: char, n: int)
    requires n == DigitCount(c0) + DigitCount(c1) + DigitCount(c2) + DigitCount(c3) +
      DigitCount(c4) + DigitCount(c5) + DigitCount(c6) + DigitCount(c7) + DigitCount(c8)
    ensures ClueCount([c0, c1, c2, c3, c4, c5, c6, c7, c8]) == n
  {
    var p := [c0, c1, c2, c3, c4, c5, c6, c7, c8];
    assert ClueCount(p[8..]) == DigitCount(p[8]) by {
      assert p[8..][1..] == [];
    }
    assert ClueCount(p[7..]) == DigitCount(p[7]) + ClueCount(p[8..]) by {
      assert p[7..][1..] == p[8..];
    }
    assert ClueCount(p[6..]) == DigitCount(p[6]) + ClueCount(p[7..]) by {
      assert p[6..][1..] == p[7..];
    }
    assert ClueCount(p[5..]) == DigitCount(p[5]) + ClueCount(p[6..]) by {
      assert p[5..][1..] == p[6..];
    }
    assert ClueCount(p[4..]) == DigitCount(p[4]) + ClueCount(p[5..]) by {
      assert p[4..][1..] == p[5..];
    }
    assert ClueCount(p[3..]) == DigitCount(p[3]) + ClueCount(p[4..]) by {
      assert p[3..][1..] == p[4..];
    }
    assert ClueCount(p[2..]) == DigitCount(p[2]) + ClueCount(p[3..]) by {
      assert p[2..][1..] == p[3..];
    }
    assert ClueCount(p[1..]) == DigitCount(p[1]) + ClueCount(p[2..]) by {
      assert p[1..][1..] == p[2..];
    }
  }

  /** Counting the clues of nine rows put end to end. */
  lemma ClueCountRows(r0: string, r1: string, r2: string, r3: string, r4: string, r5: string, r6: string, r7: string, r8: string)
    ensures ClueCount(r0 + r1 + r2 + r3 + r4 + r5 + r6 + r7 + r8) ==
      ClueCount(r0) + ClueCount(r1) + ClueCount(r2) + ClueCount(r3) + ClueCount(r4) +
      ClueCount(r5) + ClueCount(r6) + ClueCount(r7) + ClueCount(r8)
  {
    ClueCountAppend(r0, r1);
    ClueCountAppend(r0 + r1, r2);
    ClueCountAppend(r0 + r1 + r2, r3);
    ClueCountAppend(r0 + r1 + r2 + r3, r4);
    ClueCountAppend(r0 + r1 + r2 + r3 + r4, r5);
    ClueCountAppend(r0 + r1 + r2 + r3 + r4 + r5, r6);
    ClueCountAppend(r0 + r1 + r2 + r3 + r4 + r5 + r6, r7);
    ClueCountAppend(r0 + r1 + r2 + r3 + r4 + r5 + r6 + r7, r8);
  }

  /** The test puzzle holds 38 clues. */
  lemma PuzzleClueCount()
    ensures ClueCount(Puzzle) == 38
  {
    ClueCountNine('1', '.', '5', '.', '.', '2', '.', '8', '4', 5);
    ClueCountNine('.', '.', '6', '3', '.', '1', '2', '.', '7', 5);
    ClueCountNine('.', '2', '.', '.', '5', '.', '.', '.', '.', 2);
    ClueCountNine('.', '9', '.', '.', '1', '.', '.', '.', '.', 2);
    ClueCountNine('8', '.', '2', '.', '3', '6', '7', '4', '.', 6);
    ClueCountNine('3', '.', '7', '.', '2', '.', '.', '9', '.', 4);
    ClueCountNine('4', '7', '.', '.', '.', '8', '.', '.', '1', 4);
    ClueCountNine('.', '.', '1', '6', '.', '.', '.', '.', '9', 3);
    ClueCountNine('2', '6', '9', '1', '4', '.', '3', '7', '.', 7);
    ClueCountRows("1.5..2.84", "..63.12.7", ".2..5....", ".9..1....", "8.2.3674.", "3.7.2..9.", "47...8..1", "..16....9", "26914.37.");
  }

  /** The expected solution is an acceptable completion of the test puzzle, and the test
      puzzle validates. */
  lemma ExpectedAcceptable()
    ensures Acceptable(Puzzle, Expected)
    ensures Validate(Puzzle) == Valid
  {
    ExpectedFillsIn();
    ExpectedNoDuplicates();
    SolvedCompletion(Puzzle, Expected);
    PuzzleClueCount();
  }

  /** solve on the test puzzle returns the expected solution. */
  method SolveTestPuzzle() returns (r: SolveResult)
    ensures r == Solution(Expected)
  {
    ExpectedAcceptable();
    r := Solve(Puzzle);
    if r.Solution? {
      OnlyCompletion(r.solution);
    }
  }
}

/**
 The constraint validator: `is_set_correct` on one row, column or box,
 `check_cell` on the three groups through one cell, and the whole-grid
 condition that `check_sudoku` decides. Each is tied to the plain Sudoku
 rule "no two cells that share a row, a column or a box hold the same
 non-zero value".
 */
module SudokuRules {
  import opened SudokuGrid

  /** `numbers[numbers != 0]`: the non-zero entries, in their order. */
  function NonZero(s: seq<int>): (t: seq<int>)
    ensures |t| <= |s|
    ensures forall x :: x in t <==> x in s && x != 0
  {
    if s == [] then []
    else if s[0] != 0 then [s[0]] + NonZero(s[1..])
    else NonZero(s[1..])
  }

  /** Dropping the zeros keeps each non-zero value as often as it occurs and removes every zero. */
  lemma {:induction false} NonZeroMultiset(s: seq<int>)
    ensures multiset(NonZero(s)) == multiset(s)[0 := 0]
  {
    if s != [] {
      NonZeroMultiset(s[1..]);
      assert s == [s[0]] + s[1..];
    }
  }

  /** `is_set_correct`: once the zeros are dropped, the list is as long as the set of its values. */
  predicate IsSetCorrect(numbers: seq<int>)
  {
    var digits := NonZero(numbers);
    |digits| == |set x | x in digits|
  }

  /** No value occurs twice in `s`. */
  ghost predicate Distinct(s: seq<int>)
  {
    forall i, j :: 0 <= i < j < |s| ==> s[i] != s[j]
  }

  /** No non-zero value occurs twice in `s`; zeros may repeat. */
  ghost predicate NoRepeatedDigit(s: seq<int>)
  {
    forall i, j :: 0 <= i < j < |s| && s[i] != 0 ==> s[i] != s[j]
  }

  /** The set of a sequence's values is never larger than the sequence. */
  lemma {:induction false} ElementsAtMost(s: seq<int>)
    ensures |set x | x in s| <= |s|
  {
    if s != [] {
      ElementsAtMost(s[1..]);
      assert (set x | x in s) == {s[0]} + (set x | x in s[1..]);
    }
  }

  /** `len(s) == len(set(s))` holds exactly when the values of `s` are pairwise different. */
  lemma {:induction false} ElementsCountIffDistinct(s: seq<int>)
    ensures |set x | x in s| == |s| <==> Distinct(s)
  {
    if s != [] {
      var tail := s[1..];
      ElementsCountIffDistinct(tail);
      ElementsAtMost(tail);
      assert (set x | x in s) == {s[0]} + (set x | x in tail);
      if s[0] in tail {
        assert (set x | x in s) == (set x | x in tail);
        var j :| 0 <= j < |tail| && tail[j] == s[0];
        assert s[0] == s[j + 1];
      } else {
        assert Distinct(s) <==> Distinct(tail) by {
          if Distinct(tail) {
            forall i, j | 0 <= i < j < |s| ensures s[i] != s[j] {
              if i > 0 {
                assert s[i] == tail[i - 1] && s[j] == tail[j - 1];
              } else {
                assert s[j] == tail[j - 1];
              }
            }
          }
          if Distinct(s) {
            forall i, j | 0 <= i < j < |tail| ensures tail[i] != tail[j] {
              assert tail[i] == s[i + 1] && tail[j] == s[j + 1];
            }
          }
        }
      }
    }
  }

  /** A sequence repeats no non-zero value when its head does not reappear and its tail repeats none. */
  lemma NoRepeatedDigitCons(s: seq<int>)
    requires s != []
    ensures NoRepeatedDigit(s) <==> (s[0] != 0 ==> s[0] !in s[1..]) && NoRepeatedDigit(s[1..])
  {
    var tail := s[1..];
    if (s[0] != 0 ==> s[0] !in tail) && NoRepeatedDigit(tail) {
      forall i, j | 0 <= i < j < |s| && s[i] != 0 ensures s[i] != s[j] {
        assert s[j] == tail[j - 1];
        if i > 0 {
          assert s[i] == tail[i - 1];
        }
      }
    }
    if NoRepeatedDigit(s) {
      forall i, j | 0 <= i < j < |tail| && tail[i] != 0 ensures tail[i] != tail[j] {
        assert tail[i] == s[i + 1] && tail[j] == s[j + 1];
      }
    }
  }

  /** `[x] + t` has distinct values exactly when `t` has and does not contain x. */
  lemma DistinctCons(x: int, t: seq<int>)
    ensures Distinct([x] + t) <==> x !in t && Distinct(t)
  {
    var u := [x] + t;
    if x !in t && Distinct(t) {
      forall i, j | 0 <= i < j < |u| ensures u[i] != u[j] {
        assert u[j] == t[j - 1];
        if i > 0 {
          assert u[i] == t[i - 1];
        }
      }
    }
    if Distinct(u) {
      forall i, j | 0 <= i < j < |t| ensures t[i] != t[j] {
        assert t[i] == u[i + 1] && t[j] == u[j + 1];
      }
      forall j | 0 <= j < |t| ensures t[j] != x {
        assert t[j] == u[j + 1] && x == u[0];
      }
    }
  }

  /** Dropping the zeros and asking for distinct values is the same as forbidding a repeated non-zero value. */
  lemma {:induction false} NonZeroDistinctIff(s: seq<int>)
    ensures Distinct(NonZero(s)) <==> NoRepeatedDigit(s)
  {
    if s != [] {
      var tail := s[1..];
      NonZeroDistinctIff(tail);
      NoRepeatedDigitCons(s);
      if s[0] != 0 {
        assert NonZero(s) == [s[0]] + NonZero(tail);
        DistinctCons(s[0], NonZero(tail));
      } else {
        assert NonZero(s) == NonZero(tail);
      }
    }
  }

  /** `is_set_correct` holds exactly when no non-zero value repeats; any number of zeros is fine. */
  lemma IsSetCorrectIff(s: seq<int>)
    ensures IsSetCorrect(s) <==> NoRepeatedDigit(s)
  {
    ElementsCountIffDistinct(NonZero(s));
    NonZeroDistinctIff(s);
  }

  /** Emptying one cell of a correct group keeps it correct. */
  lemma ClearKeepsSetCorrect(s: seq<int>, i: nat)
    requires i < |s| && IsSetCorrect(s)
    ensures IsSetCorrect(s[i := 0])
  {
    IsSetCorrectIff(s);
    IsSetCorrectIff(s[i := 0]);
  }

  /** A group with no filled cell is correct. */
  lemma EmptySetCorrect(s: seq<int>)
    requires forall k :: 0 <= k < |s| ==> s[k] == 0
    ensures IsSetCorrect(s)
  {
    IsSetCorrectIff(s);
  }

  /** A row of a 9×9 grid that repeats only zeros is correct. */
  lemma SetCorrectExample()
    ensures IsSetCorrect([5, 3, 0, 0, 7, 0, 0, 0, 0])
  {
    var digits := NonZero([5, 3, 0, 0, 7, 0, 0, 0, 0]);
    assert digits == [5, 3, 7] by {
      assert NonZero([0, 0, 0, 0]) == [];
      assert NonZero([0, 0, 7, 0, 0, 0, 0]) == [7];
    }
    assert |set x | x in digits| == 3 by {
      ElementsCountIffDistinct([5, 3, 7]);
    }
  }

  /** A row of a 9×9 grid that repeats a 5 is not. */
  lemma SetIncorrectExample()
    ensures !IsSetCorrect([5, 3, 0, 0, 7, 0, 5, 0, 0])
  {
    var bad := [5, 3, 0, 0, 7, 0, 5, 0, 0];
    IsSetCorrectIff(bad);
    assert bad[0] == bad[6];
  }

  /** `check_cell`: an empty cell is always fine; a filled one needs its row, column and box correct. */
  function CheckCell(B: nat, g: Board, row: nat, col: nat): bool
    requires 1 <= B && IsBoard(g, B * B) && row < B * B && col < B * B
  {
    if g[row][col] == 0 then true
    else
      IsSetCorrect(Row(g, row)) && IsSetCorrect(Col(g, col)) &&
      IsSetCorrect(Box(B, g, BoxIndex(B, row, col)))
  }

  /**
   `check_cell` in terms of the Sudoku rule: an empty cell always passes; a
   filled one passes exactly when none of its row, its column and its box
   repeats a non-zero value, wherever in those groups the repeat is.
   */
  lemma CheckCellIff(B: nat, g: Board, row: nat, col: nat)
    requires 1 <= B && IsBoard(g, B * B) && row < B * B && col < B * B
    ensures g[row][col] == 0 ==> CheckCell(B, g, row, col)
    ensures g[row][col] != 0 ==>
      (CheckCell(B, g, row, col) <==>
        NoRepeatedDigit(Row(g, row)) && NoRepeatedDigit(Col(g, col)) &&
        NoRepeatedDigit(Box(B, g, BoxIndex(B, row, col))))
  {
    IsSetCorrectIff(Row(g, row));
    IsSetCorrectIff(Col(g, col));
    IsSetCorrectIff(Box(B, g, BoxIndex(B, row, col)));
  }

  /** What `check_sudoku` decides: every row, every column and each of the B·B boxes is correct. */
  ghost predicate SudokuCorrect(B: nat, g: Board)
    requires 1 <= B && IsBoard(g, B * B)
  {
    forall i :: 0 <= i < B * B ==>
      IsSetCorrect(Row(g, i)) && IsSetCorrect(Col(g, i)) && IsSetCorrect(Box(B, g, i))
  }

  /** Rows and columns 0..i-1 are correct: what the first loop of `check_sudoku` has passed. */
  ghost predicate LinesCorrectBelow(g: Board, i: nat)
    requires IsBoard(g, |g|) && i <= |g|
  {
    forall k :: 0 <= k < i ==> IsSetCorrect(Row(g, k)) && IsSetCorrect(Col(g, k))
  }

  /** Boxes 0..i-1 are correct: what the second loop of `check_sudoku` has passed. */
  ghost predicate BoxesCorrectBelow(B: nat, g: Board, i: nat)
    requires 1 <= B && IsBoard(g, B * B) && i <= B * B
  {
    forall k :: 0 <= k < i ==> IsSetCorrect(Box(B, g, k))
  }

  /** One more correct row/column pair, or one more correct box, extends the checked prefix. */
  lemma CorrectBelowGrow(B: nat, g: Board, i: nat)
    requires 1 <= B && IsBoard(g, B * B) && i < B * B
    ensures LinesCorrectBelow(g, i) && IsSetCorrect(Row(g, i)) && IsSetCorrect(Col(g, i)) ==> LinesCorrectBelow(g, i + 1)
    ensures BoxesCorrectBelow(B, g, i) && IsSetCorrect(Box(B, g, i)) ==> BoxesCorrectBelow(B, g, i + 1)
  {
  }

  /** A grid is correct exactly when all its rows and columns and all its boxes are. */
  lemma SudokuCorrectByParts(B: nat, g: Board)
    requires 1 <= B && IsBoard(g, B * B)
    ensures SudokuCorrect(B, g) <==> LinesCorrectBelow(g, B * B) && BoxesCorrectBelow(B, g, B * B)
  {
  }

  /** Two different cells that share a row, a column or a box and hold the same non-zero value. */
  ghost predicate Conflict(B: nat, g: Board, r1: nat, c1: nat, r2: nat, c2: nat)
    requires 1 <= B && IsBoard(g, B * B)
    requires r1 < B * B && c1 < B * B && r2 < B * B && c2 < B * B
  {
    && (r1 != r2 || c1 != c2)
    && g[r1][c1] != 0 && g[r1][c1] == g[r2][c2]
    && (r1 == r2 || c1 == c2 || BoxIndex(B, r1, c1) == BoxIndex(B, r2, c2))
  }

  /** The Sudoku rule stated cell by cell: no conflict anywhere in the grid. */
  ghost predicate NoConflicts(B: nat, g: Board)
    requires 1 <= B && IsBoard(g, B * B)
  {
    forall r1: nat, c1: nat, r2: nat, c2: nat :: r1 < B * B && c1 < B * B && r2 < B * B && c2 < B * B ==>
      !Conflict(B, g, r1, c1, r2, c2)
  }

  /** A repeated non-zero value inside row r makes that row incorrect. */
  lemma RowRepeatIncorrect(g: Board, r: nat, c1: nat, c2: nat)
    requires IsBoard(g, |g|) && r < |g| && c1 < |g| && c2 < |g| && c1 != c2
    requires g[r][c1] != 0 && g[r][c1] == g[r][c2]
    ensures !IsSetCorrect(Row(g, r))
  {
    var s := Row(g, r);
    IsSetCorrectIff(s);
    if c1 < c2 {
      assert s[c1] != 0 && s[c1] == s[c2];
    } else {
      assert s[c2] != 0 && s[c2] == s[c1];
    }
  }

  /** A repeated non-zero value inside column c makes that column incorrect. */
  lemma ColRepeatIncorrect(g: Board, c: nat, r1: nat, r2: nat)
    requires IsBoard(g, |g|) && c < |g| && r1 < |g| && r2 < |g| && r1 != r2
    requires g[r1][c] != 0 && g[r1][c] == g[r2][c]
    ensures !IsSetCorrect(Col(g, c))
  {
    var s := Col(g, c);
    IsSetCorrectIff(s);
    if r1 < r2 {
      assert s[r1] != 0 && s[r1] == s[r2];
    } else {
      assert s[r2] != 0 && s[r2] == s[r1];
    }
  }

  /** Where the cell (r, c) sits inside its own box, as `flatten()` orders it. */
  function BoxPosition(B: nat, r: nat, c: nat): (k: nat)
    requires 1 <= B && r < B * B && c < B * B
    ensures k < B * B && BoxCell(B, BoxIndex(B, r, c), k) == (r, c)
  {
    CellInBoxAt(B, r, c);
    (r % B) * B + c % B
  }

  /** The box of a cell holds that cell's value at the cell's position. */
  lemma BoxHoldsCell(B: nat, g: Board, r: nat, c: nat)
    requires 1 <= B && IsBoard(g, B * B) && r < B * B && c < B * B
    ensures Box(B, g, BoxIndex(B, r, c))[BoxPosition(B, r, c)] == g[r][c]
  {
  }

  /** A repeated non-zero value inside one box makes that box incorrect. */
  lemma BoxRepeatIncorrect(B: nat, g: Board, r1: nat, c1: nat, r2: nat, c2: nat)
    requires 1 <= B && IsBoard(g, B * B)
    requires r1 < B * B && c1 < B * B && r2 < B * B && c2 < B * B && (r1 != r2 || c1 != c2)
    requires BoxIndex(B, r1, c1) == BoxIndex(B, r2, c2)
    requires g[r1][c1] != 0 && g[r1][c1] == g[r2][c2]
    ensures !IsSetCorrect(Box(B, g, BoxIndex(B, r1, c1)))
  {
    var s := Box(B, g, BoxIndex(B, r1, c1));
    var k1 := BoxPosition(B, r1, c1);
    var k2 := BoxPosition(B, r2, c2);
    BoxHoldsCell(B, g, r1, c1);
    BoxHoldsCell(B, g, r2, c2);
    IsSetCorrectIff(s);
    if k1 < k2 {
      assert s[k1] != 0 && s[k1] == s[k2];
    } else {
      assert s[k2] != 0 && s[k2] == s[k1];
    }
  }

  /** A conflict through (r1, c1) makes one of the three groups `check_cell` looks at incorrect. */
  lemma ConflictFailsCheckCell(B: nat, g: Board, r1: nat, c1: nat, r2: nat, c2: nat)
    requires 1 <= B && IsBoard(g, B * B)
    requires r1 < B * B && c1 < B * B && r2 < B * B && c2 < B * B
    requires Conflict(B, g, r1, c1, r2, c2)
    ensures !CheckCell(B, g, r1, c1)
  {
    if r1 == r2 {
      RowRepeatIncorrect(g, r1, c1, c2);
    } else if c1 == c2 {
      ColRepeatIncorrect(g, c1, r1, r2);
    } else {
      BoxRepeatIncorrect(B, g, r1, c1, r2, c2);
    }
  }

  /** Two positions of one box are two different cells. */
  lemma BoxCellInjective(B: nat, b: nat, k1: nat, k2: nat)
    requires 1 <= B && b < B * B && k1 < B * B && k2 < B * B && k1 != k2
    ensures BoxCell(B, b, k1) != BoxCell(B, b, k2)
  {
    assert k1 == (k1 / B) * B + k1 % B;
    assert k2 == (k2 / B) * B + k2 % B;
  }

  /** A repeated non-zero value in a row, column or box is a conflict between two cells. */
  lemma IncorrectGroupHasConflict(B: nat, g: Board, i: nat)
    requires 1 <= B && IsBoard(g, B * B) && i < B * B
    requires !(IsSetCorrect(Row(g, i)) && IsSetCorrect(Col(g, i)) && IsSetCorrect(Box(B, g, i)))
    ensures !NoConflicts(B, g)
  {
    if !IsSetCorrect(Row(g, i)) {
      var s := Row(g, i);
      IsSetCorrectIff(s);
      var j, k :| 0 <= j < k < |s| && s[j] != 0 && s[j] == s[k];
      assert Conflict(B, g, i, j, i, k);
    } else if !IsSetCorrect(Col(g, i)) {
      var s := Col(g, i);
      IsSetCorrectIff(s);
      var j, k :| 0 <= j < k < |s| && s[j] != 0 && s[j] == s[k];
      assert Conflict(B, g, j, i, k, i);
    } else {
      var s := Box(B, g, i);
      IsSetCorrectIff(s);
      var j, k :| 0 <= j < k < |s| && s[j] != 0 && s[j] == s[k];
      var p, q := BoxCell(B, i, j), BoxCell(B, i, k);
      BoxCellIndex(B, i, j);
      BoxCellIndex(B, i, k);
      BoxCellInjective(B, i, j, k);
      assert Conflict(B, g, p.0, p.1, q.0, q.1);
    }
  }

  /** The group-wise condition `check_sudoku` decides is exactly the cell-wise Sudoku rule. */
  lemma SudokuCorrectIffNoConflicts(B: nat, g: Board)
    requires 1 <= B && IsBoard(g, B * B)
    ensures SudokuCorrect(B, g) <==> NoConflicts(B, g)
  {
    if SudokuCorrect(B, g) {
      forall r1: nat, c1: nat, r2: nat, c2: nat | r1 < B * B && c1 < B * B && r2 < B * B && c2 < B * B
        ensures !Conflict(B, g, r1, c1, r2, c2)
      {
        if Conflict(B, g, r1, c1, r2, c2) {
          ConflictFailsCheckCell(B, g, r1, c1, r2, c2);
          assert false;
        }
      }
    }
    if !SudokuCorrect(B, g) {
      var i :| 0 <= i < B * B &&
        !(IsSetCorrect(Row(g, i)) && IsSetCorrect(Col(g, i)) && IsSetCorrect(Box(B, g, i)));
      IncorrectGroupHasConflict(B, g, i);
    }
  }

  /** Checking every cell decides the same as checking every group (the hint to `check_sudoku`). */
  lemma SudokuCorrectIffEveryCell(B: nat, g: Board)
    requires 1 <= B && IsBoard(g, B * B)
    ensures SudokuCorrect(B, g) <==>
      forall r, c :: 0 <= r < B * B && 0 <= c < B * B ==> CheckCell(B, g, r, c)
  {
    SudokuCorrectIffNoConflicts(B, g);
    if SudokuCorrect(B, g) {
      forall r, c | 0 <= r < B * B && 0 <= c < B * B ensures CheckCell(B, g, r, c) {
        assert IsSetCorrect(Row(g, r)) && IsSetCorrect(Col(g, c));
        assert IsSetCorrect(Box(B, g, BoxIndex(B, r, c)));
      }
    } else {
      var r1: nat, c1: nat, r2: nat, c2: nat :| r1 < B * B && c1 < B * B && r2 < B * B && c2 < B * B &&
        Conflict(B, g, r1, c1, r2, c2);
      ConflictFailsCheckCell(B, g, r1, c1, r2, c2);
    }
  }

  /** Placing a non-zero value that passes `check_cell` in a correct grid leaves the grid correct. */
  lemma PlaceKeepsCorrect(B: nat, g: Board, row: nat, col: nat, v: int)
    requires 1 <= B && IsBoard(g, B * B) && row < B * B && col < B * B
    requires v != 0 && SudokuCorrect(B, g)
    requires CheckCell(B, Place(g, row, col, v), row, col)
    ensures SudokuCorrect(B, Place(g, row, col, v))
  {
    var h := Place(g, row, col, v);
    SudokuCorrectIffNoConflicts(B, g);
    forall r1: nat, c1: nat, r2: nat, c2: nat | r1 < B * B && c1 < B * B && r2 < B * B && c2 < B * B
      ensures !Conflict(B, h, r1, c1, r2, c2)
    {
      if r1 == row && c1 == col {
        if Conflict(B, h, r1, c1, r2, c2) {
          ConflictFailsCheckCell(B, h, r1, c1, r2, c2);
        }
      } else if r2 == row && c2 == col {
        if Conflict(B, h, r1, c1, r2, c2) {
          assert Conflict(B, h, r2, c2, r1, c1);
          ConflictFailsCheckCell(B, h, r2, c2, r1, c1);
        }
      } else {
        assert h[r1][c1] == g[r1][c1] && h[r2][c2] == g[r2][c2];
        assert !Conflict(B, g, r1, c1, r2, c2);
      }
    }
    SudokuCorrectIffNoConflicts(B, h);
  }
}

/**
 The `Sudoku` object: one mutable N×N grid (N = B·B) that the search fills in
 place. `step`, `next_step` and `clean_up` are methods that write the grid
 array directly; each is proved to return, and to leave behind, exactly what
 the search `Run` describes, so the lemmas about `Run` apply to them.
 */
module SudokuSolver {
  import opened SudokuGrid
  import opened SudokuRules
  import opened SudokuSearch

  class Sudoku {
    var grid: array2<int>
    var size: nat
    /** The box size, `int(np.sqrt(size))`, kept with `size == boxSize * boxSize`. */
    var boxSize: nat

    /** The grid is size×size with size = B·B, and every cell is empty (0) or holds 1..size. */
    ghost predicate Valid()
      reads this, grid
    {
      && 1 <= boxSize && size == boxSize * boxSize
      && grid.Length0 == size && grid.Length1 == size
      && forall r, c :: 0 <= r < size && 0 <= c < size ==> 0 <= grid[r, c] <= size
    }

    /** The current contents of the grid, read out of the array. */
    function Cells(): (g: Board)
      reads this, grid
      requires grid.Length0 == size && grid.Length1 == size
      ensures IsBoard(g, size)
      ensures forall r, c :: 0 <= r < size && 0 <= c < size ==> g[r][c] == grid[r, c]
    {
      var a := grid;
      seq(a.Length0, r requires 0 <= r < a.Length0 reads a =>
        seq(a.Length1, c requires 0 <= r < a.Length0 && 0 <= c < a.Length1 reads a => a[r, c]))
    }

    /** `__init__`: an all-empty grid of side boxSize·boxSize (9×9 by default). */
    constructor (boxSize: nat := 3)
      requires 1 <= boxSize
      ensures Valid() && fresh(grid)
      ensures this.boxSize == boxSize && size == boxSize * boxSize
      ensures forall r, c :: 0 <= r < size && 0 <= c < size ==> grid[r, c] == 0
    {
      this.boxSize := boxSize;
      size := boxSize * boxSize;
      grid := new int[boxSize * boxSize, boxSize * boxSize]((r, c) => 0);
    }

    /** `set_grid`: the object takes the given array itself (no copy), and its side as the size. */
    method SetGrid(g: array2<int>, boxSize: nat)
      requires 1 <= boxSize && g.Length0 == boxSize * boxSize && g.Length1 == boxSize * boxSize
      requires forall r, c :: 0 <= r < g.Length0 && 0 <= c < g.Length1 ==> 0 <= g[r, c] <= g.Length0
      modifies this
      ensures Valid() && grid == g
      ensures size == g.Length0 && this.boxSize == boxSize
    {
      grid := g;
      size := g.Length0;
      this.boxSize := boxSize;
    }

    /** `check_sudoku`: every row and column, then every box, with an early exit on the first bad one. */
    method CheckSudoku() returns (ok: bool)
      requires Valid()
      ensures ok == SudokuCorrect(boxSize, Cells())
    {
      ok := CheckGroups(boxSize, Cells());
    }

    /** The two loops of `check_sudoku` over the grid read out of the array. */
    static method CheckGroups(boxSize: nat, g: Board) returns (ok: bool)
      requires 1 <= boxSize && IsBoard(g, boxSize * boxSize)
      ensures ok == SudokuCorrect(boxSize, g)
    {
      var size := |g|;
      SudokuCorrectByParts(boxSize, g);
      for i := 0 to size
        invariant LinesCorrectBelow(g, i)
      {
        if !IsSetCorrect(Row(g, i)) || !IsSetCorrect(Col(g, i)) {
          return false;
        }
        CorrectBelowGrow(boxSize, g, i);
      }
      var boxCount := boxSize;
      for i := 0 to boxCount * boxCount
        invariant BoxesCorrectBelow(boxSize, g, i)
      {
        if !IsSetCorrect(Box(boxSize, g, i)) {
          return false;
        }
        CorrectBelowGrow(boxSize, g, i);
      }
      return true;
    }

    /**
     `step`: at (row, col), try 1..size in an empty cell, accept a candidate
     when `backtracking` is set or `check_cell` passes, and recurse through
     `next_step(row, col + 1)`; `clean_up` empties the cell after each failure.
     */
    method Step(row: nat, col: nat, backtracking: bool) returns (ok: bool)
      requires Valid() && row <= size && col <= size
      modifies grid
      ensures Valid()
      ensures (ok, Cells()) == Run(boxSize, old(Cells()), AtStep(row, col), Accept(boxSize, backtracking))
      decreases size - row, if col == size then size + 1 else size - col, 1
    {
      if row == size {
        return true;
      }
      if col == size {
        ok := NextStep(row, 0, backtracking);
        return;
      }
      if grid[row, col] != 0 {
        ok := NextStep(row, col + 1, backtracking);
        return;
      }
      for num := 1 to size + 1
        invariant Valid() && grid[row, col] == 0
        invariant Run(boxSize, Cells(), Trying(row, col, num), Accept(boxSize, backtracking)) ==
                  Run(boxSize, old(Cells()), AtStep(row, col), Accept(boxSize, backtracking))
      {
        ok := TryNumber(row, col, num, backtracking);
        if ok {
          return;
        }
      }
      return false;
    }

    /** `next_step`: go on at the next column, or at the start of the next row after the last two columns. */
    method NextStep(row: nat, col: nat, backtracking: bool) returns (ok: bool)
      requires Valid() && row < size && col <= size
      modifies grid
      ensures Valid()
      ensures (ok, Cells()) == Run(boxSize, old(Cells()), AtNext(row, col), Accept(boxSize, backtracking))
      decreases size - row, size - col, 0
    {
      if col < size - 1 {
        ok := Step(row, col + 1, backtracking);
      } else {
        ok := Step(row + 1, 0, backtracking);
      }
    }

    /**
     One pass of the `for num` loop of `step`: write `num`, accept it when
     `backtracking` is set or `check_cell` passes, go on with `next_step`,
     and on failure empty the cell again with `clean_up`.
     */
    method TryNumber(row: nat, col: nat, num: nat, backtracking: bool) returns (ok: bool)
      requires Valid() && row < size && col < size && 1 <= num <= size && grid[row, col] == 0
      modifies grid
      ensures Valid()
      ensures ok ==> (ok, Cells()) == Run(boxSize, old(Cells()), Trying(row, col, num), Accept(boxSize, backtracking))
      ensures !ok ==> Cells() == old(Cells())
      ensures !ok ==> Run(boxSize, old(Cells()), Trying(row, col, num), Accept(boxSize, backtracking)) ==
                      Run(boxSize, old(Cells()), Trying(row, col, num + 1), Accept(boxSize, backtracking))
      decreases size - row, size - col, 0
    {
      ghost var before := Cells();
      ghost var placed := Place(before, row, col, num);
      ghost var keep := Accept(boxSize, backtracking)(placed, row, col);
      TryingUnfold(boxSize, before, row, col, num, Accept(boxSize, backtracking));
      Write(row, col, num);
      if backtracking || CheckCell(boxSize, Cells(), row, col) {
        assert keep;
        ok := NextStep(row, col + 1, backtracking);
        if ok {
          return;
        }
        assert Cells() == placed;
      } else {
        assert !keep;
      }
      ok := CleanUp(row, col);
      PlaceUndo(before, size, row, col, num);
      assert Cells() == before;
    }

    /** `self.grid[row, col] = v`: the one cell changes, every other cell stays. */
    method Write(row: nat, col: nat, v: int)
      requires Valid() && row < size && col < size && 0 <= v <= size
      modifies grid
      ensures Valid()
      ensures Cells() == Place(old(Cells()), row, col, v)
    {
      ghost var before := Cells();
      grid[row, col] := v;
      BoardExt(Cells(), Place(before, row, col, v), size);
    }

    /** `clean_up`: empty the cell again; the answer is always "no solution here". */
    method CleanUp(row: nat, col: nat) returns (found: bool)
      requires Valid() && row < size && col < size
      modifies grid
      ensures Valid() && !found
      ensures Cells() == Place(old(Cells()), row, col, 0)
    {
      Write(row, col, 0);
      return false;
    }

    /** `solve`: run `step` from (0, 0). */
    method Solve(backtracking: bool) returns (ok: bool)
      requires Valid()
      modifies grid
      ensures Valid()
      ensures (ok, Cells()) == Run(boxSize, old(Cells()), AtStep(0, 0), Accept(boxSize, backtracking))
      ensures !ok ==> Cells() == old(Cells())
      ensures backtracking ==> ok
      ensures forall r, c :: 0 <= r < size && 0 <= c < size && (c % 2 == 1 || old(grid[r, c]) != 0) ==>
        grid[r, c] == old(grid[r, c])
      ensures backtracking ==> forall r, c :: 0 <= r < size && 0 <= c < size ==>
        grid[r, c] == if c % 2 == 0 && old(grid[r, c]) == 0 then 1 else old(grid[r, c])
      ensures ok ==> forall r, c :: 0 <= r < size && 0 <= c < size && c % 2 == 0 && old(grid[r, c]) == 0 ==>
        1 <= grid[r, c] <= size
      ensures !backtracking && SudokuCorrect(boxSize, old(Cells())) ==> SudokuCorrect(boxSize, Cells())
    {
      ok := Step(0, 0, backtracking);
      SolveOutcome(boxSize, old(Cells()), backtracking);
    }
  }
}

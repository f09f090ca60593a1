/**
 The recursive search of `step`, `next_step` and `clean_up`, as a function on
 grid values. A `Frame` says where the search stands: at a call
 `step(row, col)`, at iteration `num` of the `for num` loop inside
 `step(row, col)`, or at a call `next_step(row, col)`. `Run` returns what that
 call returns together with the grid it leaves behind. The test that decides
 whether a written candidate is kept is a parameter: the solver's own test,
 `backtracking or check_cell`, is `Accept`, and most lemmas hold for any
 test. The methods of
 `Sudoku` are proved to do exactly this, and the lemmas below state what the
 search as written guarantees: a failed search restores the grid, only
 visited empty cells are ever written (never an odd column when started
 at (0, 0)), backtracking mode always succeeds by writing 1s, and the
 pruning mode keeps a correct grid correct.
 */
module SudokuSearch {
  import opened SudokuGrid
  import opened SudokuRules

  datatype Frame =
    | AtStep(row: nat, col: nat)           // the call step(row, col)
    | Trying(row: nat, col: nat, num: nat) // iteration `num` of the for-loop in step(row, col)
    | AtNext(row: nat, col: nat)           // the call next_step(row, col)

  /** The frames the search can reach on an n×n grid. */
  ghost predicate FrameOk(n: nat, f: Frame)
  {
    match f
    case AtStep(row, col) => row <= n && col <= n
    case Trying(row, col, num) => row < n && col < n && 1 <= num <= n + 1
    case AtNext(row, col) => row < n && col <= n
  }

  /** Second component of the termination measure: a column that only grows back at `step(row, size)`. */
  function ColRank(n: nat, f: Frame): nat
    requires FrameOk(n, f)
  {
    match f
    case AtStep(_, col) => if col == n then n + 1 else n - col
    case Trying(_, col, _) => n - col
    case AtNext(_, col) => n - col
  }

  /** Third component: `step` comes before its loop, which comes before `next_step`. */
  function Tag(f: Frame): nat
  {
    match f
    case AtStep(_, _) => 2
    case Trying(_, _, _) => 1
    case AtNext(_, _) => 0
  }

  /** Last component: the candidates the loop has still to try. */
  function NumRank(n: nat, f: Frame): nat
    requires FrameOk(n, f)
  {
    match f
    case Trying(_, _, num) => n + 1 - num
    case _ => 0
  }

  /** Whether the search keeps the candidate it has just written into cell (row, col) of a grid. */
  type Acceptance = (Board, nat, nat) -> bool

  /**
   The test of `step`: `backtracking or check_cell(row, col)`. With the
   `backtracking` flag set every candidate is kept without a check.
   */
  ghost function Accept(B: nat, backtracking: bool): Acceptance
  {
    (h: Board, row: nat, col: nat) =>
      backtracking || (1 <= B && IsBoard(h, B * B) && row < B * B && col < B * B && CheckCell(B, h, row, col))
  }

  /**
   The search as written, on a (B·B)×(B·B) grid, keeping a candidate when
   `accept` says so; the solver's own test is `Accept(B, backtracking)`.
   */
  ghost function Run(B: nat, g: Board, f: Frame, accept: Acceptance): (res: (bool, Board))
    requires 1 <= B && IsBoard(g, B * B) && FrameOk(B * B, f)
    ensures IsBoard(res.1, B * B)
    decreases B * B - f.row, ColRank(B * B, f), Tag(f), NumRank(B * B, f), 1
  {
    var n := B * B;
    match f
    case AtStep(row, col) =>
      if row == n then (true, g)
      else if col == n then Run(B, g, AtNext(row, 0), accept)
      else if g[row][col] != 0 then Run(B, g, AtNext(row, col + 1), accept)
      else Run(B, g, Trying(row, col, 1), accept)
    case Trying(row, col, num) =>
      Attempt(B, g, row, col, num, accept)
    case AtNext(row, col) =>
      if col < n - 1 then Run(B, g, AtStep(row, col + 1), accept)
      else Run(B, g, AtStep(row + 1, 0), accept)
  }

  /**
   Iteration `num` of the `for num` loop in step(row, col): write `num`,
   keep it when `accept` says so and go on with `next_step`; when that
   fails, empty the cell again and go on with `num + 1`. After the last
   candidate the loop gives up.
   */
  ghost function Attempt(B: nat, g: Board, row: nat, col: nat, num: nat, accept: Acceptance): (res: (bool, Board))
    requires 1 <= B && IsBoard(g, B * B) && row < B * B && col < B * B && 1 <= num <= B * B + 1
    ensures IsBoard(res.1, B * B)
    decreases B * B - row, B * B - col, 1, B * B + 1 - num, 0
  {
    if num > B * B then (false, g)
    else
      var placed := Place(g, row, col, num);
      var next := if accept(placed, row, col) then Run(B, placed, AtNext(row, col + 1), accept)
                  else (false, placed);
      if next.0 then next
      else Run(B, Place(next.1, row, col, 0), Trying(row, col, num + 1), accept)
  }

  /**
   The cells from (row, col) on that the search reaches: the rest of row
   `row` in steps of two columns, then the even columns of every later row.
   */
  ghost predicate Ahead(n: nat, row: int, col: int, r: int, c: int)
  {
    0 <= c < n && r < n &&
    ((r == row && col <= c && (c - col) % 2 == 0) || (row < r && c % 2 == 0))
  }

  /** The cells the search started at `f` may write. */
  ghost predicate Visits(n: nat, f: Frame, r: int, c: int)
  {
    match f
    case AtStep(row, col) => Ahead(n, row, if col == n then 1 else col, r, c)
    case Trying(row, col, _) => Ahead(n, row, col, r, c)
    case AtNext(row, col) => Ahead(n, row, col + 1, r, c)
  }

  /** Cells that are not visited, or were filled, keep their value. */
  ghost predicate Untouched(n: nat, f: Frame, g: Board, h: Board)
    requires IsBoard(g, n) && IsBoard(h, n)
  {
    forall r, c :: 0 <= r < n && 0 <= c < n && (!Visits(n, f, r, c) || g[r][c] != 0) ==>
      h[r][c] == g[r][c]
  }

  /** Every cell that changed holds a value in 1..n. */
  ghost predicate WritesDigits(n: nat, g: Board, h: Board)
    requires IsBoard(g, n) && IsBoard(h, n)
  {
    forall r, c :: 0 <= r < n && 0 <= c < n && h[r][c] != g[r][c] ==> 1 <= h[r][c] <= n
  }

  /** Every visited cell that was empty now holds a value in 1..n. */
  ghost predicate FillsVisited(n: nat, f: Frame, g: Board, h: Board)
    requires IsBoard(g, n) && IsBoard(h, n)
  {
    forall r, c :: 0 <= r < n && 0 <= c < n && Visits(n, f, r, c) && g[r][c] == 0 ==>
      1 <= h[r][c] <= n
  }

  /** On the cells empty in `g`, frames `f` and `f'` visit the same cells. */
  ghost predicate SameEmptyVisits(n: nat, f: Frame, f': Frame, g: Board)
    requires IsBoard(g, n)
  {
    forall r, c :: 0 <= r < n && 0 <= c < n && g[r][c] == 0 ==>
      (Visits(n, f, r, c) <==> Visits(n, f', r, c))
  }

  /** `step(row, col)` hands over to `next_step` on a filled cell, or at `col == size`, without changing what is visited. */
  lemma StepToNextVisits(n: nat, row: nat, col: nat, g: Board)
    requires IsBoard(g, n) && row < n && col <= n
    requires col < n ==> g[row][col] != 0
    ensures SameEmptyVisits(n, AtStep(row, col), AtNext(row, if col == n then 0 else col + 1), g)
  {
    forall r, c | 0 <= r < n && 0 <= c < n && g[r][c] == 0
      ensures Visits(n, AtStep(row, col), r, c) <==> Visits(n, AtNext(row, if col == n then 0 else col + 1), r, c)
    {
      if col < n && r == row {
        assert c != col;
        AheadSkip(n, row, col, r, c);
      }
    }
  }

  /** Apart from (row, col) itself, the search from (row, col) reaches the cells it reaches from (row, col + 2). */
  lemma AheadSkip(n: nat, row: int, col: int, r: int, c: int)
    requires r != row || c != col
    ensures Ahead(n, row, col, r, c) <==> Ahead(n, row, col + 2, r, c)
  {
    assert (c - col) % 2 == 0 <==> (c - (col + 2)) % 2 == 0;
  }

  /** `next_step(row, col)` hands over to `step` at the next column, or at the start of the next row. */
  lemma NextToStepVisits(n: nat, row: nat, col: nat, g: Board)
    requires IsBoard(g, n) && row < n && col <= n
    ensures SameEmptyVisits(n, AtNext(row, col), if col < n - 1 then AtStep(row, col + 1) else AtStep(row + 1, 0), g)
  {
  }

  /** Frames that visit the same empty cells satisfy the same frame conditions. */
  lemma FrameTransfer(n: nat, f: Frame, f': Frame, g: Board, h: Board, done: bool)
    requires IsBoard(g, n) && IsBoard(h, n) && SameEmptyVisits(n, f, f', g)
    requires Untouched(n, f', g, h)
    requires done ==> FillsVisited(n, f', g, h)
    ensures Untouched(n, f, g, h)
    ensures done ==> FillsVisited(n, f, g, h)
  {
  }

  /** Every visited empty cell holds 1, every other cell is as in `g`. */
  ghost predicate FilledWithOnes(n: nat, f: Frame, g: Board, h: Board)
    requires IsBoard(g, n) && IsBoard(h, n)
  {
    forall r, c :: 0 <= r < n && 0 <= c < n ==>
      h[r][c] == if Visits(n, f, r, c) && g[r][c] == 0 then 1 else g[r][c]
  }

  /** Frames that visit the same empty cells fill the same cells with 1s. */
  lemma OnesTransfer(n: nat, f: Frame, f': Frame, g: Board, h: Board)
    requires IsBoard(g, n) && IsBoard(h, n) && SameEmptyVisits(n, f, f', g)
    requires FilledWithOnes(n, f', g, h)
    ensures FilledWithOnes(n, f, g, h)
  {
  }

  /** A search that fails leaves the grid exactly as it found it: every trial was cleaned up. */
  lemma {:induction false} RunRestores(B: nat, g: Board, f: Frame, accept: Acceptance)
    requires 1 <= B && IsBoard(g, B * B) && FrameOk(B * B, f)
    requires f.Trying? ==> g[f.row][f.col] == 0
    ensures !Run(B, g, f, accept).0 ==> Run(B, g, f, accept).1 == g
    decreases B * B - f.row, ColRank(B * B, f), Tag(f), NumRank(B * B, f), 2
  {
    var n := B * B;
    match f
    case AtStep(row, col) =>
      if row == n {
      } else if col == n {
        RunRestores(B, g, AtNext(row, 0), accept);
      } else if g[row][col] != 0 {
        RunRestores(B, g, AtNext(row, col + 1), accept);
      } else {
        RunRestores(B, g, Trying(row, col, 1), accept);
      }
    case Trying(row, col, num) =>
      TryingRestores(B, g, row, col, num, accept);
    case AtNext(row, col) =>
      if col < n - 1 {
        RunRestores(B, g, AtStep(row, col + 1), accept);
      } else {
        RunRestores(B, g, AtStep(row + 1, 0), accept);
      }
  }

  /** `RunRestores` for one iteration of the `for num` loop. */
  lemma {:induction false} TryingRestores(B: nat, g: Board, row: nat, col: nat, num: nat, accept: Acceptance)
    requires 1 <= B && IsBoard(g, B * B) && row < B * B && col < B * B && 1 <= num <= B * B + 1
    requires g[row][col] == 0
    ensures !Run(B, g, Trying(row, col, num), accept).0 ==> Run(B, g, Trying(row, col, num), accept).1 == g
    decreases B * B - row, B * B - col, 1, B * B + 1 - num, 1
  {
    if num <= B * B {
      TryingUnfold(B, g, row, col, num, accept);
      TryingRestores(B, g, row, col, num + 1, accept);
    }
  }


  /**
   The search writes only visited cells that were empty, never overwrites a
   filled cell, writes only values in 1..n, and on success has filled every
   visited empty cell.
   */
  lemma {:induction false} RunFrame(B: nat, g: Board, f: Frame, accept: Acceptance)
    requires 1 <= B && IsBoard(g, B * B) && FrameOk(B * B, f)
    requires f.Trying? ==> g[f.row][f.col] == 0
    ensures Untouched(B * B, f, g, Run(B, g, f, accept).1)
    ensures WritesDigits(B * B, g, Run(B, g, f, accept).1)
    ensures Run(B, g, f, accept).0 ==> FillsVisited(B * B, f, g, Run(B, g, f, accept).1)
    decreases B * B - f.row, ColRank(B * B, f), Tag(f), NumRank(B * B, f), 1
  {
    var n := B * B;
    var res := Run(B, g, f, accept);
    match f
    case AtStep(row, col) =>
      if row == n {
      } else if col == n || g[row][col] != 0 {
        var f' := AtNext(row, if col == n then 0 else col + 1);
        assert res == Run(B, g, f', accept);
        RunFrame(B, g, f', accept);
        StepToNextVisits(n, row, col, g);
        FrameTransfer(n, f, f', g, res.1, res.0);
      } else {
        RunFrame(B, g, Trying(row, col, 1), accept);
      }
    case Trying(row, col, num) =>
      TryingFrame(B, g, row, col, num, accept);
    case AtNext(row, col) =>
      var f' := if col < n - 1 then AtStep(row, col + 1) else AtStep(row + 1, 0);
      assert res == Run(B, g, f', accept);
      RunFrame(B, g, f', accept);
      NextToStepVisits(n, row, col, g);
      FrameTransfer(n, f, f', g, res.1, res.0);
  }

  /**
   One iteration of the `for num` loop on an empty cell: either the candidate
   is accepted and `next_step` succeeds, or the loop goes on to `num + 1` from
   the very grid it started with, because `clean_up` undid the trial.
   */
  lemma TryingUnfold(B: nat, g: Board, row: nat, col: nat, num: nat, accept: Acceptance)
    requires 1 <= B && IsBoard(g, B * B) && row < B * B && col < B * B && 1 <= num <= B * B
    requires g[row][col] == 0
    ensures var placed := Place(g, row, col, num);
            var next := Run(B, placed, AtNext(row, col + 1), accept);
            accept(placed, row, col) && next.0 ==>
              Run(B, g, Trying(row, col, num), accept) == next
    ensures var placed := Place(g, row, col, num);
            var next := Run(B, placed, AtNext(row, col + 1), accept);
            accept(placed, row, col) && !next.0 ==>
              next.1 == placed && Run(B, g, Trying(row, col, num), accept) == Run(B, g, Trying(row, col, num + 1), accept)
    ensures !accept(Place(g, row, col, num), row, col) ==>
              Run(B, g, Trying(row, col, num), accept) == Run(B, g, Trying(row, col, num + 1), accept)
    decreases B * B - row, B * B - col, 1, B * B + 1 - num, 0
  {
    var placed := Place(g, row, col, num);
    PlaceUndo(g, B * B, row, col, num);
    RunRestores(B, placed, AtNext(row, col + 1), accept);
  }

  /** `RunFrame` for one iteration of the `for num` loop. */
  lemma {:induction false} TryingFrame(B: nat, g: Board, row: nat, col: nat, num: nat, accept: Acceptance)
    requires 1 <= B && IsBoard(g, B * B) && row < B * B && col < B * B && 1 <= num <= B * B + 1
    requires g[row][col] == 0
    ensures Untouched(B * B, Trying(row, col, num), g, Run(B, g, Trying(row, col, num), accept).1)
    ensures WritesDigits(B * B, g, Run(B, g, Trying(row, col, num), accept).1)
    ensures Run(B, g, Trying(row, col, num), accept).0 ==>
      FillsVisited(B * B, Trying(row, col, num), g, Run(B, g, Trying(row, col, num), accept).1)
    decreases B * B - row, B * B - col, 1, B * B + 1 - num, 0
  {
    var n := B * B;
    var f := Trying(row, col, num);
    var res := Run(B, g, f, accept);
    if num <= n {
      TryingUnfold(B, g, row, col, num, accept);
      var placed := Place(g, row, col, num);
      var next := Run(B, placed, AtNext(row, col + 1), accept);
      if accept(placed, row, col) && next.0 {
        RunFrame(B, placed, AtNext(row, col + 1), accept);
        TryingSucceeded(B, g, row, col, num, next.1);
      } else {
        var f' := Trying(row, col, num + 1);
        RunFrame(B, g, f', accept);
        FrameTransfer(n, f, f', g, res.1, res.0);
      }
    }
  }

  /** The successful iteration of the loop: the frame facts of `next_step` carry over to `step`. */
  lemma TryingSucceeded(B: nat, g: Board, row: nat, col: nat, num: nat, after: Board)
    requires 1 <= B && IsBoard(g, B * B) && row < B * B && col < B * B && 1 <= num <= B * B
    requires g[row][col] == 0 && IsBoard(after, B * B)
    requires Untouched(B * B, AtNext(row, col + 1), Place(g, row, col, num), after)
    requires WritesDigits(B * B, Place(g, row, col, num), after)
    requires FillsVisited(B * B, AtNext(row, col + 1), Place(g, row, col, num), after)
    ensures Untouched(B * B, Trying(row, col, num), g, after)
    ensures WritesDigits(B * B, g, after)
    ensures FillsVisited(B * B, Trying(row, col, num), g, after)
  {
    var n := B * B;
    var f, f' := Trying(row, col, num), AtNext(row, col + 1);
    var placed := Place(g, row, col, num);
    forall r, c | 0 <= r < n && 0 <= c < n
      ensures (!Visits(n, f, r, c) || g[r][c] != 0) ==> after[r][c] == g[r][c]
      ensures after[r][c] != g[r][c] ==> 1 <= after[r][c] <= n
      ensures Visits(n, f, r, c) && g[r][c] == 0 ==> 1 <= after[r][c] <= n
    {
      if r == row && c == col {
        assert !Visits(n, f', r, c);
      } else {
        assert placed[r][c] == g[r][c];
        AheadSkip(n, row, col, r, c);
      }
    }
  }

  /**
   With a test that keeps every candidate, as `backtracking` does, the
   search always succeeds, writing 1 into every visited empty cell.
   */
  lemma {:induction false} RunBacktrackingFillsOnes(B: nat, g: Board, f: Frame, accept: Acceptance)
    requires 1 <= B && IsBoard(g, B * B) && FrameOk(B * B, f)
    requires forall h, r, c :: accept(h, r, c)
    requires f.Trying? ==> f.num == 1 && g[f.row][f.col] == 0
    ensures Run(B, g, f, accept).0
    ensures FilledWithOnes(B * B, f, g, Run(B, g, f, accept).1)
    decreases B * B - f.row, ColRank(B * B, f), Tag(f), NumRank(B * B, f), 1
  {
    var n := B * B;
    var res := Run(B, g, f, accept);
    match f
    case AtStep(row, col) =>
      if row == n {
      } else if col == n || g[row][col] != 0 {
        var f' := AtNext(row, if col == n then 0 else col + 1);
        RunBacktrackingFillsOnes(B, g, f', accept);
        StepToNextVisits(n, row, col, g);
        OnesTransfer(n, f, f', g, res.1);
      } else {
        RunBacktrackingFillsOnes(B, g, Trying(row, col, 1), accept);
      }
    case Trying(row, col, num) =>
      TryingFillsOne(B, g, row, col, accept);
    case AtNext(row, col) =>
      var f' := if col < n - 1 then AtStep(row, col + 1) else AtStep(row + 1, 0);
      RunBacktrackingFillsOnes(B, g, f', accept);
      NextToStepVisits(n, row, col, g);
      OnesTransfer(n, f, f', g, res.1);
  }

  /** When every candidate is kept, the first one, 1, is taken at once and `next_step` succeeds. */
  lemma {:induction false} TryingFillsOne(B: nat, g: Board, row: nat, col: nat, accept: Acceptance)
    requires 1 <= B && IsBoard(g, B * B) && row < B * B && col < B * B
    requires forall h, r, c :: accept(h, r, c)
    requires g[row][col] == 0
    ensures Run(B, g, Trying(row, col, 1), accept).0
    ensures FilledWithOnes(B * B, Trying(row, col, 1), g, Run(B, g, Trying(row, col, 1), accept).1)
    decreases B * B - row, B * B - col, 1, B * B, 0
  {
    var placed := Place(g, row, col, 1);
    RunBacktrackingFillsOnes(B, placed, AtNext(row, col + 1), accept);
    OnesAfterFirstTrial(B * B, g, row, col, Run(B, placed, AtNext(row, col + 1), accept).1);
  }

  /** Writing 1 at (row, col) and then filling the rest from `next_step` fills every cell the loop visits. */
  lemma OnesAfterFirstTrial(n: nat, g: Board, row: nat, col: nat, after: Board)
    requires IsBoard(g, n) && IsBoard(after, n) && row < n && col < n && g[row][col] == 0
    requires FilledWithOnes(n, AtNext(row, col + 1), Place(g, row, col, 1), after)
    ensures FilledWithOnes(n, Trying(row, col, 1), g, after)
  {
    var f, f' := Trying(row, col, 1), AtNext(row, col + 1);
    var placed := Place(g, row, col, 1);
    forall r, c | 0 <= r < n && 0 <= c < n
      ensures after[r][c] == if Visits(n, f, r, c) && g[r][c] == 0 then 1 else g[r][c]
    {
      if r == row && c == col {
        assert !Visits(n, f', r, c);
      } else {
        assert placed[r][c] == g[r][c];
        AheadSkip(n, row, col, r, c);
      }
    }
  }

  /**
   Whatever holds of the starting grid and survives every placement the
   search accepts holds of the grid the search leaves behind, whichever way
   the search ends: accepted placements are the only writes that are not
   undone again.
   */
  lemma {:induction false} RunKeeps(B: nat, g: Board, f: Frame, accept: Acceptance, inv: Board -> bool)
    requires 1 <= B && IsBoard(g, B * B) && FrameOk(B * B, f)
    requires f.Trying? ==> g[f.row][f.col] == 0
    requires inv(g)
    requires forall h: Board, r: nat, c: nat, v: int ::
      IsBoard(h, B * B) && r < B * B && c < B * B && h[r][c] == 0 && 1 <= v && inv(h) && accept(Place(h, r, c, v), r, c) ==>
        inv(Place(h, r, c, v))
    ensures inv(Run(B, g, f, accept).1)
    decreases B * B - f.row, ColRank(B * B, f), Tag(f), NumRank(B * B, f), 2
  {
    var n := B * B;
    match f
    case AtStep(row, col) =>
      if row == n {
      } else if col == n {
        RunKeeps(B, g, AtNext(row, 0), accept, inv);
      } else if g[row][col] != 0 {
        RunKeeps(B, g, AtNext(row, col + 1), accept, inv);
      } else {
        RunKeeps(B, g, Trying(row, col, 1), accept, inv);
      }
    case Trying(row, col, num) =>
      TryingKeeps(B, g, row, col, num, accept, inv);
    case AtNext(row, col) =>
      if col < n - 1 {
        RunKeeps(B, g, AtStep(row, col + 1), accept, inv);
      } else {
        RunKeeps(B, g, AtStep(row + 1, 0), accept, inv);
      }
  }

  /** `RunKeeps` for one iteration of the `for num` loop. */
  lemma {:induction false} TryingKeeps(B: nat, g: Board, row: nat, col: nat, num: nat, accept: Acceptance, inv: Board -> bool)
    requires 1 <= B && IsBoard(g, B * B) && row < B * B && col < B * B && 1 <= num <= B * B + 1
    requires g[row][col] == 0
    requires inv(g)
    requires forall h: Board, r: nat, c: nat, v: int ::
      IsBoard(h, B * B) && r < B * B && c < B * B && h[r][c] == 0 && 1 <= v && inv(h) && accept(Place(h, r, c, v), r, c) ==>
        inv(Place(h, r, c, v))
    ensures inv(Run(B, g, Trying(row, col, num), accept).1)
    decreases B * B - row, B * B - col, 1, B * B + 1 - num, 1
  {
    if num <= B * B {
      var placed := Place(g, row, col, num);
      var next := Run(B, placed, AtNext(row, col + 1), accept);
      TryingUnfold(B, g, row, col, num, accept);
      if accept(placed, row, col) {
        RunKeeps(B, placed, AtNext(row, col + 1), accept, inv);
      }
      if !(accept(placed, row, col) && next.0) {
        TryingKeeps(B, g, row, col, num + 1, accept, inv);
      }
    }
  }

  /** A placement that passes `check_cell` keeps a grid that satisfies `check_sudoku` correct. */
  lemma AcceptedPlacementsKeepCorrect(B: nat)
    requires 1 <= B
    ensures forall h: Board, r: nat, c: nat, v: int ::
      IsBoard(h, B * B) && r < B * B && c < B * B && h[r][c] == 0 && 1 <= v && Correct(B)(h) && Accept(B, false)(Place(h, r, c, v), r, c) ==>
        Correct(B)(Place(h, r, c, v))
  {
    forall h: Board, r: nat, c: nat, v: int |
      IsBoard(h, B * B) && r < B * B && c < B * B && h[r][c] == 0 && 1 <= v && Correct(B)(h) && Accept(B, false)(Place(h, r, c, v), r, c)
      ensures Correct(B)(Place(h, r, c, v))
    {
      PlaceKeepsCorrect(B, h, r, c, v);
    }
  }

  /** `check_sudoku` as a property of grids. */
  ghost function Correct(B: nat): Board -> bool
  {
    (h: Board) => 1 <= B && IsBoard(h, B * B) && SudokuCorrect(B, h)
  }

  /**
   Without `backtracking` every placement must pass `check_cell`, so a grid
   that satisfies `check_sudoku` still satisfies it after the search,
   whichever way the search ends.
   */
  lemma RunKeepsCorrect(B: nat, g: Board, f: Frame)
    requires 1 <= B && IsBoard(g, B * B) && FrameOk(B * B, f)
    requires f.Trying? ==> g[f.row][f.col] == 0
    requires SudokuCorrect(B, g)
    ensures SudokuCorrect(B, Run(B, g, f, Accept(B, false)).1)
  {
    AcceptedPlacementsKeepCorrect(B);
    RunKeeps(B, g, f, Accept(B, false), Correct(B));
  }

  /** From (0, 0) the search visits exactly the cells in even columns. */
  lemma VisitsFromStart(n: nat, r: nat, c: nat)
    requires 1 <= n && r < n && c < n
    ensures Visits(n, AtStep(0, 0), r, c) <==> c % 2 == 0
  {
  }

  /**
   What `solve` (the search from (0, 0)) does to a grid: `step` hands
   `col + 1` to `next_step`, which adds one more, so odd columns are never
   written; filled cells are never overwritten; a failure restores the grid;
   with `backtracking` every empty even-column cell becomes 1 and the result
   is success; without it, a grid that `check_sudoku` accepts stays accepted.
   */
  lemma SolveOutcome(B: nat, g: Board, backtracking: bool)
    requires 1 <= B && IsBoard(g, B * B)
    ensures var res := Run(B, g, AtStep(0, 0), Accept(B, backtracking));
      && (forall r, c :: 0 <= r < B * B && 0 <= c < B * B && (c % 2 == 1 || g[r][c] != 0) ==>
            res.1[r][c] == g[r][c])
      && (forall r, c :: 0 <= r < B * B && 0 <= c < B * B && res.1[r][c] != g[r][c] ==>
            1 <= res.1[r][c] <= B * B)
      && (res.0 ==> forall r, c :: 0 <= r < B * B && 0 <= c < B * B && c % 2 == 0 && g[r][c] == 0 ==>
            1 <= res.1[r][c] <= B * B)
      && (!res.0 ==> res.1 == g)
      && (backtracking ==> res.0 && forall r, c :: 0 <= r < B * B && 0 <= c < B * B ==>
            res.1[r][c] == if c % 2 == 0 && g[r][c] == 0 then 1 else g[r][c])
      && (!backtracking && SudokuCorrect(B, g) ==> SudokuCorrect(B, res.1))
  {
    var n := B * B;
    var f := AtStep(0, 0);
    forall r, c | 0 <= r < n && 0 <= c < n {
      VisitsFromStart(n, r, c);
    }
    RunFrame(B, g, f, Accept(B, backtracking));
    RunRestores(B, g, f, Accept(B, backtracking));
    if backtracking {
      RunBacktrackingFillsOnes(B, g, f, Accept(B, backtracking));
    } else if SudokuCorrect(B, g) {
      RunKeepsCorrect(B, g, f);
    }
  }
}

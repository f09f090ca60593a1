/**
 The Sudoku grid as a value: an N×N matrix of integers (0 = empty cell),
 with N = B·B for a box size B >= 1. Rows, columns and boxes are read out of
 the grid as sequences at the point of use, and the box arithmetic
 (which box a cell lies in, where a box starts) is proved correct here.
 */
module SudokuGrid {

  /** A grid value, row by row. */
  type Board = seq<seq<int>>

  /** `g` is an n×n matrix. */
  ghost predicate IsBoard(g: Board, n: nat)
  {
    |g| == n && forall r :: 0 <= r < n ==> |g[r]| == n
  }

  /** The grid after `grid[row, col] = v`: that one cell changes, nothing else does. */
  function Place(g: Board, row: nat, col: nat, v: int): (h: Board)
    requires row < |g| && col < |g[row]|
    ensures |h| == |g| && forall r :: 0 <= r < |g| ==> |h[r]| == |g[r]|
    ensures h[row][col] == v
    ensures forall r, c :: 0 <= r < |g| && 0 <= c < |g[r]| && (r != row || c != col) ==> h[r][c] == g[r][c]
  {
    g[row := g[row][col := v]]
  }

  /** Two n×n grids that agree on every cell are the same grid. */
  lemma BoardExt(g: Board, h: Board, n: nat)
    requires IsBoard(g, n) && IsBoard(h, n)
    requires forall r, c :: 0 <= r < n && 0 <= c < n ==> g[r][c] == h[r][c]
    ensures g == h
  {
    forall r | 0 <= r < n
      ensures g[r] == h[r]
    {
      assert forall c :: 0 <= c < n ==> g[r][c] == h[r][c];
    }
  }

  /** Writing a value and then writing back what the cell held restores the grid. */
  lemma PlaceUndo(g: Board, n: nat, row: nat, col: nat, v: int)
    requires IsBoard(g, n) && row < n && col < n
    ensures Place(Place(g, row, col, v), row, col, g[row][col]) == g
  {
    BoardExt(Place(Place(g, row, col, v), row, col, g[row][col]), g, n);
  }

  /** `get_row`: the cells of row `i`, left to right. */
  function Row(g: Board, i: nat): (r: seq<int>)
    requires IsBoard(g, |g|) && i < |g|
    ensures |r| == |g| && forall c :: 0 <= c < |g| ==> r[c] == g[i][c]
  {
    g[i]
  }

  /** `get_col`: the cells of column `j`, top to bottom. */
  function Col(g: Board, j: nat): (r: seq<int>)
    requires IsBoard(g, |g|) && j < |g|
    ensures |r| == |g| && forall k :: 0 <= k < |g| ==> r[k] == g[k][j]
  {
    seq(|g|, k requires 0 <= k < |g| => g[k][j])
  }

  /** Multiplying by a natural number is monotone. */
  lemma MulMono(a: int, b: int, B: nat)
    requires a <= b
    ensures a * B <= b * B
  {
  }

  /** The only multiple of B strictly between -B and B is 0. */
  lemma SmallMultipleIsZero(B: nat, d: int)
    requires 1 <= B && 0 - B < d * B < B
    ensures d == 0
  {
    if d >= 1 {
      MulMono(1, d, B);
    } else if d <= -1 {
      MulMono(d, -1, B);
    }
  }

  /** Both base-B digits of an index of a (B·B)-sided grid are below B. */
  lemma QuotientBelow(B: nat, x: nat)
    requires 1 <= B && x < B * B
    ensures 0 <= x / B < B && 0 <= x % B < B
  {
  }

  /** Euclidean division is unique: `q·B + s` with `0 <= s < B` has quotient q and remainder s. */
  lemma DivModOf(B: nat, q: nat, s: nat)
    requires 1 <= B && s < B
    ensures (q * B + s) / B == q && (q * B + s) % B == s
  {
    var x := q * B + s;
    var q', s' := x / B, x % B;
    assert x == q' * B + s';
    assert (q' - q) * B == s - s';
    SmallMultipleIsZero(B, q' - q);
  }

  /** Two digits below B in base B make a number below B·B. */
  lemma TwoDigitsBelow(B: nat, q: nat, s: nat)
    requires s < B && q < B
    ensures q * B + s < B * B
  {
    MulMono(q, B - 1, B);
  }

  /** `get_box_index`: box number of the cell (row, col); boxes are numbered row-major. */
  function BoxIndex(B: nat, row: nat, col: nat): (b: nat)
    requires 1 <= B && row < B * B && col < B * B
    ensures b < B * B
    ensures b / B == row / B && b % B == col / B
  {
    QuotientBelow(B, row);
    QuotientBelow(B, col);
    DivModOf(B, row / B, col / B);
    TwoDigitsBelow(B, row / B, col / B);
    (row / B) * B + col / B
  }

  /** The top-left cell of box `b`, as computed in `get_box`. */
  function BoxOrigin(B: nat, b: nat): (o: (nat, nat))
    requires 1 <= B && b < B * B
    ensures o.0 % B == 0 && o.1 % B == 0
    ensures o.0 + B <= B * B && o.1 + B <= B * B
  {
    QuotientBelow(B, b);
    DivModOf(B, b / B, 0);
    DivModOf(B, b % B, 0);
    MulMono(b / B + 1, B, B);
    MulMono(b % B + 1, B, B);
    ((b / B) * B, (b % B) * B)
  }

  /** Every cell lies inside the box `BoxIndex` gives it. */
  lemma CellInOwnBox(B: nat, r: nat, c: nat)
    requires 1 <= B && r < B * B && c < B * B
    ensures var o := BoxOrigin(B, BoxIndex(B, r, c));
            o.0 <= r < o.0 + B && o.1 <= c < o.1 + B
  {
    var b := BoxIndex(B, r, c);
    assert r == (r / B) * B + r % B;
    assert c == (c / B) * B + c % B;
  }

  /** The cell at position `k` (row-major) inside box `b`. */
  function BoxCell(B: nat, b: nat, k: nat): (cell: (nat, nat))
    requires 1 <= B && b < B * B && k < B * B
    ensures cell.0 < B * B && cell.1 < B * B
  {
    QuotientBelow(B, k);
    var o := BoxOrigin(B, b);
    (o.0 + k / B, o.1 + k % B)
  }

  /** `get_box(b).flatten()`: the B·B cells of box `b`, row-major inside the box. */
  function Box(B: nat, g: Board, b: nat): (s: seq<int>)
    requires 1 <= B && IsBoard(g, B * B) && b < B * B
    ensures |s| == B * B
    ensures forall k :: 0 <= k < B * B ==> s[k] == g[BoxCell(B, b, k).0][BoxCell(B, b, k).1]
  {
    seq(B * B, k requires 0 <= k < B * B => g[BoxCell(B, b, k).0][BoxCell(B, b, k).1])
  }

  /** Position k of box b is a cell whose box index is b: the boxes tile the grid. */
  lemma BoxCellIndex(B: nat, b: nat, k: nat)
    requires 1 <= B && b < B * B && k < B * B
    ensures BoxIndex(B, BoxCell(B, b, k).0, BoxCell(B, b, k).1) == b
  {
    QuotientBelow(B, k);
    QuotientBelow(B, b);
    DivModOf(B, b / B, k / B);
    DivModOf(B, b % B, k % B);
    assert b == (b / B) * B + b % B;
  }

  /** The cell (r, c) sits at position `(r % B)·B + c % B` of its own box. */
  lemma CellInBoxAt(B: nat, r: nat, c: nat)
    requires 1 <= B && r < B * B && c < B * B
    ensures (r % B) * B + c % B < B * B
    ensures BoxCell(B, BoxIndex(B, r, c), (r % B) * B + c % B) == (r, c)
  {
    QuotientBelow(B, r);
    QuotientBelow(B, c);
    CellInBoxWith(B, BoxIndex(B, r, c), r, c);
  }

  /** `CellInBoxAt` for any box number whose base-B digits are those of r and c. */
  lemma CellInBoxWith(B: nat, b: nat, r: nat, c: nat)
    requires 1 <= B && b < B * B && r % B < B && c % B < B
    requires b / B == r / B && b % B == c / B
    ensures (r % B) * B + c % B < B * B
    ensures BoxCell(B, b, (r % B) * B + c % B) == (r, c)
  {
    TwoDigitsBelow(B, r % B, c % B);
    DivModOf(B, r % B, c % B);
    assert r == (r / B) * B + r % B;
    assert c == (c / B) * B + c % B;
  }
}

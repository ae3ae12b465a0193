/**
 * The dense boolean grid of the Game of Life engine: `rows` rows of `cols`
 * cells, `g[r][c]` true when cell (r, c) is alive.
 */
module Grids {

  /** A cell coordinate. Coordinates are unbounded integers so that callers
      can hand in negative or too-large positions, which the engine rejects. */
  datatype Cell = Cell(row: int, col: int)

  type Grid = seq<seq<bool>>

  /** The grid has exactly `rows` rows, each of exactly `cols` cells. */
  predicate WellFormed(g: Grid, rows: nat, cols: nat)
  {
    |g| == rows && forall r :: 0 <= r < rows ==> |g[r]| == cols
  }

  /** The engine's bounds check: `0 <= row < rows` and `0 <= col < cols`. */
  predicate InBounds(rows: nat, cols: nat, row: int, col: int)
  {
    0 <= row < rows && 0 <= col < cols
  }

  predicate CellInBounds(rows: nat, cols: nat, x: Cell)
  {
    InBounds(rows, cols, x.row, x.col)
  }

  /** Every cell of `cells` passes the bounds check. */
  predicate AllInBounds(rows: nat, cols: nat, cells: seq<Cell>)
  {
    forall i :: 0 <= i < |cells| ==> CellInBounds(rows, cols, cells[i])
  }

  /** The all-dead grid of the given dimensions. */
  function Blank(rows: nat, cols: nat): (g: Grid)
    ensures WellFormed(g, rows, cols)
    ensures forall r, c :: InBounds(rows, cols, r, c) ==> !g[r][c]
  {
    seq(rows, _ => seq(cols, _ => false))
  }

  /** The grid with cell (row, col) made alive and every other cell untouched. */
  function Mark(g: Grid, rows: nat, cols: nat, row: int, col: int): (h: Grid)
    requires WellFormed(g, rows, cols)
    requires InBounds(rows, cols, row, col)
    ensures WellFormed(h, rows, cols)
    ensures h[row][col]
    ensures forall r, c :: InBounds(rows, cols, r, c) && (r != row || c != col) ==> h[r][c] == g[r][c]
  {
    g[row := g[row][col := true]]
  }

  /** Two grids of the same dimensions that agree on every cell are equal. */
  lemma GridsEqual(g: Grid, h: Grid, rows: nat, cols: nat)
    requires WellFormed(g, rows, cols) && WellFormed(h, rows, cols)
    requires forall r, c :: InBounds(rows, cols, r, c) ==> g[r][c] == h[r][c]
    ensures g == h
  {
    forall r | 0 <= r < rows
      ensures g[r] == h[r]
    {
      assert forall c :: 0 <= c < cols ==> g[r][c] == h[r][c];
    }
  }
}

/**
 * `getRandomState(density)`: one uniform draw in [0, 1) per cell, taken in
 * row-major order, and the cell is listed when its draw is below `density`.
 * The random source is a parameter here: `draws[k]` is the k-th value the
 * engine would obtain, so cell (r, c) receives `draws[r * cols + c]`.
 */
module RandomState {
  import opened Grids
  import opened Enumeration

  /** Position of cell (r, c)'s draw in the row-major sequence of draws. */
  function DrawIndex(rows: nat, cols: nat, r: int, c: int): (k: nat)
    requires InBounds(rows, cols, r, c)
    ensures k < rows * cols
  {
    assert r * cols + c < (r + 1) * cols <= rows * cols by {
      assert (r + 1) * cols == r * cols + cols;
      MulLeftMonotone(r + 1, rows, cols);
    }
    r * cols + c
  }

  lemma MulLeftMonotone(a: nat, b: nat, n: nat)
    requires a <= b
    ensures a * n <= b * n
  {
  }

  /** The grid of draws below `density`. */
  function DrawGrid(rows: nat, cols: nat, draws: seq<real>, density: real): (g: Grid)
    requires |draws| == rows * cols
    ensures WellFormed(g, rows, cols)
    ensures forall r, c :: InBounds(rows, cols, r, c) ==> (g[r][c] <==> draws[DrawIndex(rows, cols, r, c)] < density)
  {
    seq(rows, r requires 0 <= r < rows =>
      seq(cols, c requires 0 <= c < cols => draws[DrawIndex(rows, cols, r, c)] < density))
  }

  /** The listed cells: exactly those whose draw is below `density`, in
      strictly increasing row-major order. */
  function GetRandomState(rows: nat, cols: nat, draws: seq<real>, density: real): (cells: seq<Cell>)
    requires |draws| == rows * cols
    ensures StrictlyRowMajor(cells)
    ensures forall x :: x in cells <==>
      CellInBounds(rows, cols, x) && draws[DrawIndex(rows, cols, x.row, x.col)] < density
  {
    AliveCells(DrawGrid(rows, cols, draws, density), rows, cols)
  }

  /** Every draw lies in [0, 1), as `Math.random` promises. */
  ghost predicate UnitDraws(draws: seq<real>)
  {
    forall k :: 0 <= k < |draws| ==> 0.0 <= draws[k] < 1.0
  }

  /** Density 0 lists no cell at all. */
  lemma DensityZeroIsEmpty(rows: nat, cols: nat, draws: seq<real>)
    requires |draws| == rows * cols
    requires UnitDraws(draws)
    ensures GetRandomState(rows, cols, draws, 0.0) == []
  {
    var cells := GetRandomState(rows, cols, draws, 0.0);
    forall x | CellInBounds(rows, cols, x)
      ensures draws[DrawIndex(rows, cols, x.row, x.col)] >= 0.0
    {
    }
    RowMajorUnique(cells, []);
  }

  /** Density 1 lists every cell of the grid, in row-major order. */
  lemma DensityOneIsEverything(rows: nat, cols: nat, draws: seq<real>)
    requires |draws| == rows * cols
    requires UnitDraws(draws)
    ensures forall r, c :: InBounds(rows, cols, r, c) ==> Cell(r, c) in GetRandomState(rows, cols, draws, 1.0)
  {
    forall r, c | InBounds(rows, cols, r, c)
      ensures Cell(r, c) in GetRandomState(rows, cols, draws, 1.0)
    {
      assert draws[DrawIndex(rows, cols, r, c)] < 1.0;
    }
  }
}

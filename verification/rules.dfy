/**
 * The generation step: the B3/S23 rule (`shouldCellLive`) applied to every
 * cell of a snapshot of the current grid (`processGeneration`).
 */
module Rules {
  import opened Grids
  import opened Enumeration
  import opened Loading
  import opened Neighbours

  /** Conway's rule B3/S23 on an exhaustive neighbour count: born with exactly
      three neighbours, survives with two or three. */
  predicate LifeRule(alive: bool, n: nat)
  {
    n == 3 || (alive && n == 2)
  }

  /** `shouldCellLive(row, col)`, deciding on the capped neighbour count; its
      answer is the rule's answer on the exhaustive count. */
  function ShouldCellLive(g: Grid, rows: nat, cols: nat, row: int, col: int): (live: bool)
    requires WellFormed(g, rows, cols)
    requires InBounds(rows, cols, row, col)
    ensures live <==> LifeRule(g[row][col], NeighbourCount(g, rows, cols, row, col))
  {
    var n := CappedNeighbourCount(g, rows, cols, row, col);
    if n == 3 then true
    else if g[row][col] then
      if n < 2 || n > 3 then false else true
    else false
  }

  /** The next generation, built from a snapshot: every cell is decided by
      `ShouldCellLive` on the OLD grid, never on cells already updated. */
  function Step(g: Grid, rows: nat, cols: nat): (h: Grid)
    requires WellFormed(g, rows, cols)
    ensures WellFormed(h, rows, cols)
  {
    seq(rows, r requires 0 <= r < rows =>
      seq(cols, c requires 0 <= c < cols => ShouldCellLive(g, rows, cols, r, c)))
  }

  /** Every cell of the next generation is the B3/S23 rule applied to that
      cell's state and exhaustive neighbour count in the previous generation. */
  lemma StepAppliesRule(g: Grid, rows: nat, cols: nat)
    requires WellFormed(g, rows, cols)
    ensures forall r, c :: InBounds(rows, cols, r, c) ==>
      (Step(g, rows, cols)[r][c] <==> LifeRule(g[r][c], NeighbourCount(g, rows, cols, r, c)))
  {
  }

  /** The grid write of `processGeneration`: the cells that should live are
      collected from the old grid in row-major order and then loaded with
      `setState`. The load never fails and reproduces the snapshot exactly. */
  lemma NextGenerationLoadsStep(g: Grid, rows: nat, cols: nat)
    requires WellFormed(g, rows, cols)
    ensures SetState(rows, cols, AliveCells(Step(g, rows, cols), rows, cols)) == Applied(Step(g, rows, cols))
  {
    var h := Step(g, rows, cols);
    var cells := AliveCells(h, rows, cols);
    assert AllInBounds(rows, cols, cells) by {
      forall i | 0 <= i < |cells|
        ensures CellInBounds(rows, cols, cells[i])
      {
        assert cells[i] in cells;
      }
    }
    var o := SetState(rows, cols, cells);
    GridsEqual(o.grid, h, rows, cols);
  }

  /** `Step` applied `n` times: the grid after `n` calls of `processGeneration`. */
  function Iterate(g: Grid, rows: nat, cols: nat, n: nat): (h: Grid)
    requires WellFormed(g, rows, cols)
    ensures WellFormed(h, rows, cols)
    decreases n
  {
    if n == 0 then g else Iterate(Step(g, rows, cols), rows, cols, n - 1)
  }
}

/**
 * The `GameOfLife` engine object: a `cntRows` x `cntCols` grid and a
 * generation counter, with the operations of the source class. Each operation
 * delegates to the pure definitions of the other modules.
 */
module Engine {
  import opened Wrappers
  import opened Grids
  import opened Enumeration
  import opened Loading
  import opened Rules

  class GameOfLife {
    var grid: Grid
    var cntGenerations: nat
    const cntRows: nat
    const cntCols: nat

    /** The grid always has the engine's dimensions. */
    ghost predicate Valid()
      reads this
    {
      WellFormed(grid, cntRows, cntCols)
    }

    /** A new engine: every cell dead, generation 0. */
    constructor(rows: nat, cols: nat)
      ensures Valid()
      ensures cntRows == rows && cntCols == cols
      ensures cntGenerations == 0
      ensures forall r, c :: InBounds(rows, cols, r, c) ==> !grid[r][c]
    {
      cntRows := rows;
      cntCols := cols;
      grid := [];
      cntGenerations := 0;
      new;
      ResetGame();
    }

    predicate IsValidCell(row: int, col: int)
      reads this
    {
      InBounds(cntRows, cntCols, row, col)
    }

    /** `resetGame`: generation 0 and every cell dead; dimensions are constants. */
    method ResetGame()
      modifies this
      ensures Valid()
      ensures cntGenerations == 0
      ensures forall r, c :: InBounds(cntRows, cntCols, r, c) ==> !grid[r][c]
    {
      cntGenerations := 0;
      ResetState();
    }

    /** `resetState`: every cell dead, the counter untouched. */
    method ResetState()
      modifies this
      ensures Valid()
      ensures grid == Blank(cntRows, cntCols)
      ensures cntGenerations == old(cntGenerations)
    {
      grid := Blank(cntRows, cntCols);
    }

    function GetCntGenerations(): nat
      reads this
    {
      cntGenerations
    }

    /** `isCellAlive`; the source does no bounds check, so the caller must.
        A cell reads as alive exactly when `getAliveCells` lists it. */
    function IsCellAlive(row: int, col: int): (alive: bool)
      reads this
      requires Valid()
      requires IsValidCell(row, col)
      ensures alive <==> Cell(row, col) in AliveCells(grid, cntRows, cntCols)
    {
      grid[row][col]
    }

    /** `setState`: the grid becomes what `Loading.SetState` describes, including
        the partial grid left when it stops at an out-of-bounds cell, whose
        coordinates are returned in place of the thrown error. */
    method SetState(cells: seq<Cell>) returns (error: Option<Cell>)
      modifies this
      requires Valid()
      ensures Valid()
      ensures grid == Loading.SetState(cntRows, cntCols, cells).grid
      ensures error == None <==> AllInBounds(cntRows, cntCols, cells)
      ensures error.Some? ==> error.value == Loading.SetState(cntRows, cntCols, cells).bad
      ensures cntGenerations == old(cntGenerations)
    {
      var o := Loading.SetState(cntRows, cntCols, cells);
      grid := o.grid;
      error := if o.Applied? then None else Some(o.bad);
    }

    /** `getAliveCells`. */
    method GetAliveCells() returns (cells: seq<Cell>)
      requires Valid()
      ensures cells == AliveCells(grid, cntRows, cntCols)
    {
      cells := CollectAlive(grid, cntRows, cntCols);
    }

    /** `processGeneration`: the cells that should live are collected from the
        old grid, loaded with `setState` (which cannot fail here), and the
        counter goes up by exactly one. */
    method ProcessGeneration()
      modifies this
      requires Valid()
      ensures Valid()
      ensures grid == Step(old(grid), cntRows, cntCols)
      ensures cntGenerations == old(cntGenerations) + 1
    {
      var newlyAlive := CollectAlive(Step(grid, cntRows, cntCols), cntRows, cntCols);
      NextGenerationLoadsStep(grid, cntRows, cntCols);
      var error := SetState(newlyAlive);
      cntGenerations := cntGenerations + 1;
    }
  }

  /** The unit test "should be properly set": loading (1,1), (1,2), (2,1) on a
      500 x 500 engine lists them back in that order at generation 0; three
      generations later the counter reads 3. */
  method GameStateUnitTest() returns (listed: seq<Cell>, generations: nat)
    ensures listed == [Cell(1, 1), Cell(1, 2), Cell(2, 1)]
    ensures generations == 3
  {
    var game := new GameOfLife(500, 500);
    var cells := [Cell(1, 1), Cell(1, 2), Cell(2, 1)];
    var error := game.SetState(cells);
    SortedInputRoundTrip(500, 500, cells);
    listed := game.GetAliveCells();
    assert game.GetCntGenerations() == 0;
    game.ProcessGeneration();
    game.ProcessGeneration();
    game.ProcessGeneration();
    generations := game.GetCntGenerations();
  }
}

/**
 * Bulk load (`setState`): clear the grid, then mark the listed cells alive one
 * by one, stopping with an error at the first cell that fails the bounds check.
 * The clearing and the marks made before the bad cell are NOT rolled back.
 */
module Loading {
  import opened Grids
  import opened Enumeration

  /** What `setState` leaves behind. `Applied` when every cell was in bounds;
      `OutOfBounds` when the cell at position `index` of the input was not, in
      which case `grid` is the partially written grid the engine keeps. */
  datatype Outcome = Applied(grid: Grid) | OutOfBounds(grid: Grid, bad: Cell, index: nat)

  /** Marks `cells[from..]` in order onto `g`, stopping at the first cell out of bounds. */
  function Apply(g: Grid, rows: nat, cols: nat, cells: seq<Cell>, from: nat): (o: Outcome)
    requires WellFormed(g, rows, cols)
    requires from <= |cells|
    ensures WellFormed(o.grid, rows, cols)
    ensures o.Applied? <==> AllInBounds(rows, cols, cells[from..])
    ensures o.OutOfBounds? ==> from <= o.index < |cells| && o.bad == cells[o.index]
    ensures o.OutOfBounds? ==> !CellInBounds(rows, cols, o.bad) && AllInBounds(rows, cols, cells[from..(o.index)])
    ensures o.Applied? ==>
      forall r, c :: InBounds(rows, cols, r, c) ==> (o.grid[r][c] <==> g[r][c] || Cell(r, c) in cells[from..])
    ensures o.OutOfBounds? ==>
      forall r, c :: InBounds(rows, cols, r, c) ==> (o.grid[r][c] <==> g[r][c] || Cell(r, c) in cells[from..(o.index)])
    decreases |cells| - from
  {
    if from == |cells| then Applied(g)
    else
      var x := cells[from];
      if !CellInBounds(rows, cols, x) then OutOfBounds(g, x, from)
      else
        var o := Apply(Mark(g, rows, cols, x.row, x.col), rows, cols, cells, from + 1);
        assert cells[from..] == [x] + cells[from + 1..];
        assert o.OutOfBounds? ==> cells[from..o.index] == [x] + cells[from + 1..o.index];
        o
  }

  /** `setState(cells)` on a `rows` x `cols` engine. On success a cell is alive
      exactly when it occurs in `cells`; on failure at the first out-of-bounds
      cell, exactly the cells listed before it are alive. */
  function SetState(rows: nat, cols: nat, cells: seq<Cell>): (o: Outcome)
    ensures WellFormed(o.grid, rows, cols)
    ensures o.Applied? <==> AllInBounds(rows, cols, cells)
    ensures o.OutOfBounds? ==> o.index < |cells| && o.bad == cells[o.index]
    ensures o.OutOfBounds? ==> !CellInBounds(rows, cols, o.bad) && AllInBounds(rows, cols, cells[..(o.index)])
    ensures o.Applied? ==>
      forall r, c :: InBounds(rows, cols, r, c) ==> (o.grid[r][c] <==> Cell(r, c) in cells)
    ensures o.OutOfBounds? ==>
      forall r, c :: InBounds(rows, cols, r, c) ==> (o.grid[r][c] <==> Cell(r, c) in cells[..(o.index)])
  {
    assert cells[0..] == cells;
    var o := Apply(Blank(rows, cols), rows, cols, cells, 0);
    assert o.OutOfBounds? ==> cells[0..o.index] == cells[..o.index];
    o
  }

  /** With every cell in bounds, only the SET of listed cells matters: order and
      repetitions of the input have no effect on the resulting grid. */
  lemma SetStateIgnoresOrderAndDuplicates(rows: nat, cols: nat, xs: seq<Cell>, ys: seq<Cell>)
    requires AllInBounds(rows, cols, xs) && AllInBounds(rows, cols, ys)
    requires forall x :: x in xs <==> x in ys
    ensures SetState(rows, cols, xs) == SetState(rows, cols, ys)
  {
    var a, b := SetState(rows, cols, xs), SetState(rows, cols, ys);
    GridsEqual(a.grid, b.grid, rows, cols);
  }

  /** Repeating a cell already in the input changes nothing, whether or not the
      input holds an out-of-bounds cell. */
  lemma SetStateDuplicateNoEffect(rows: nat, cols: nat, xs: seq<Cell>, i: nat)
    requires i < |xs|
    ensures SetState(rows, cols, xs + [xs[i]]) == SetState(rows, cols, xs)
  {
    var ys := xs + [xs[i]];
    var a, b := SetState(rows, cols, ys), SetState(rows, cols, xs);
    if AllInBounds(rows, cols, xs) {
      assert AllInBounds(rows, cols, ys);
      SetStateIgnoresOrderAndDuplicates(rows, cols, ys, xs);
    } else {
      var k :| 0 <= k < |xs| && !CellInBounds(rows, cols, xs[k]);
      assert ys[k] == xs[k];
      forall k | 0 <= k < b.index
        ensures CellInBounds(rows, cols, xs[k])
      {
        assert xs[..b.index][k] == xs[k];
      }
      forall k | 0 <= k < a.index
        ensures CellInBounds(rows, cols, ys[k])
      {
        assert ys[..a.index][k] == ys[k];
      }
      assert ys[b.index] == xs[b.index];
      assert a.index == b.index;
      assert ys[..a.index] == xs[..b.index];
      GridsEqual(a.grid, b.grid, rows, cols);
    }
  }

  /** Loading then enumerating: for in-bounds input, `getAliveCells` after
      `setState(xs)` yields the row-major, duplicate-free listing of `xs`. */
  lemma SetStateThenAliveCells(rows: nat, cols: nat, xs: seq<Cell>, sorted: seq<Cell>)
    requires AllInBounds(rows, cols, xs)
    requires StrictlyRowMajor(sorted)
    requires forall x :: x in sorted <==> x in xs
    ensures SetState(rows, cols, xs).Applied?
    ensures AliveCells(SetState(rows, cols, xs).grid, rows, cols) == sorted
  {
    var g := SetState(rows, cols, xs).grid;
    forall x
      ensures x in AliveCells(g, rows, cols) <==> x in sorted
    {
      if x in xs {
        var i :| 0 <= i < |xs| && xs[i] == x;
        assert CellInBounds(rows, cols, xs[i]);
      }
    }
    RowMajorUnique(AliveCells(g, rows, cols), sorted);
  }

  /** The unit test's round trip: a duplicate-free row-major input comes back
      unchanged from `getAliveCells`. */
  lemma SortedInputRoundTrip(rows: nat, cols: nat, xs: seq<Cell>)
    requires AllInBounds(rows, cols, xs)
    requires StrictlyRowMajor(xs)
    ensures SetState(rows, cols, xs).Applied?
    ensures AliveCells(SetState(rows, cols, xs).grid, rows, cols) == xs
  {
    SetStateThenAliveCells(rows, cols, xs, xs);
  }

  /** The failure is not atomic: loading (1,1), (5,0), (2,2) on a 5 x 5 grid
      reports (5,0) at position 1, yet leaves (1,1) alive and (2,2) dead. */
  lemma SetStateNotAtomic()
    ensures var o := SetState(5, 5, [Cell(1, 1), Cell(5, 0), Cell(2, 2)]);
      && o == OutOfBounds(o.grid, Cell(5, 0), 1)
      && o.grid[1][1]
      && !o.grid[2][2]
  {
    var cells := [Cell(1, 1), Cell(5, 0), Cell(2, 2)];
    var o := SetState(5, 5, cells);
    assert !CellInBounds(5, 5, cells[1]);
    assert o.OutOfBounds?;
    assert CellInBounds(5, 5, cells[0]);
    assert cells[..1] == [Cell(1, 1)];
  }
}

/**
 * Row-major enumeration of alive cells (`getAliveCells`): ascending row,
 * then ascending column within a row.
 */
module Enumeration {
  import opened Grids

  /** `a` comes strictly before `b` in row-major order. */
  predicate RowMajorLess(a: Cell, b: Cell)
  {
    a.row < b.row || (a.row == b.row && a.col < b.col)
  }

  /** Strictly increasing in row-major order; in particular free of duplicates. */
  predicate StrictlyRowMajor(s: seq<Cell>)
  {
    forall i, j :: 0 <= i < j < |s| ==> RowMajorLess(s[i], s[j])
  }

  /** Joining two row-major runs, the first wholly before the second, stays row-major. */
  lemma ConcatRowMajor(a: seq<Cell>, b: seq<Cell>)
    requires StrictlyRowMajor(a) && StrictlyRowMajor(b)
    requires forall x, y :: x in a && y in b ==> RowMajorLess(x, y)
    ensures StrictlyRowMajor(a + b)
  {
    forall i, j | 0 <= i < j < |a + b|
      ensures RowMajorLess((a + b)[i], (a + b)[j])
    {
      if j < |a| {
      } else if i < |a| {
        assert (a + b)[i] in a && (a + b)[j] in b;
      } else {
        assert (a + b)[i] == b[i - |a|] && (a + b)[j] == b[j - |a|];
      }
    }
  }

  /** The alive cells among the first `n` columns of row `r`, left to right. */
  function RowCells(line: seq<bool>, r: int, n: nat): (s: seq<Cell>)
    requires n <= |line|
    ensures StrictlyRowMajor(s)
    ensures forall x :: x in s <==> x.row == r && 0 <= x.col < n && line[x.col]
  {
    if n == 0 then []
    else
      var before := RowCells(line, r, n - 1);
      var last := if line[n - 1] then [Cell(r, n - 1)] else [];
      ConcatRowMajor(before, last);
      before + last
  }

  /** The alive cells among the first `m` rows, in row-major order. */
  function GridCells(g: Grid, rows: nat, cols: nat, m: nat): (s: seq<Cell>)
    requires WellFormed(g, rows, cols)
    requires m <= rows
    ensures StrictlyRowMajor(s)
    ensures forall x :: x in s <==> 0 <= x.row < m && 0 <= x.col < cols && g[x.row][x.col]
  {
    if m == 0 then []
    else
      var before := GridCells(g, rows, cols, m - 1);
      var line := RowCells(g[m - 1], m - 1, cols);
      ConcatRowMajor(before, line);
      before + line
  }

  /** Every alive cell of the grid exactly once, in strictly increasing row-major order. */
  function AliveCells(g: Grid, rows: nat, cols: nat): (s: seq<Cell>)
    requires WellFormed(g, rows, cols)
    ensures StrictlyRowMajor(s)
    ensures forall x :: x in s <==> CellInBounds(rows, cols, x) && g[x.row][x.col]
  {
    GridCells(g, rows, cols, rows)
  }

  /** The nested row/column loop of `getAliveCells` builds exactly `AliveCells`. */
  method CollectAlive(g: Grid, rows: nat, cols: nat) returns (cells: seq<Cell>)
    requires WellFormed(g, rows, cols)
    ensures cells == AliveCells(g, rows, cols)
  {
    cells := [];
    var row := 0;
    while row < rows
      invariant row <= rows
      invariant cells == GridCells(g, rows, cols, row)
    {
      var line := CollectRow(g[row], row);
      cells := cells + line;
      row := row + 1;
    }
  }

  /** The inner column loop: the alive cells of one row, left to right. */
  method CollectRow(line: seq<bool>, row: int) returns (cells: seq<Cell>)
    ensures cells == RowCells(line, row, |line|)
  {
    cells := [];
    var col := 0;
    while col < |line|
      invariant col <= |line|
      invariant cells == RowCells(line, row, col)
    {
      assert RowCells(line, row, col + 1) == RowCells(line, row, col) + if line[col] then [Cell(row, col)] else [];
      if line[col] {
        cells := cells + [Cell(row, col)];
      }
      col := col + 1;
    }
  }

  /** A set of cells has only one strictly row-major enumeration: two such
      sequences with the same elements are equal. */
  lemma {:induction false} RowMajorUnique(a: seq<Cell>, b: seq<Cell>)
    requires StrictlyRowMajor(a) && StrictlyRowMajor(b)
    requires forall x :: x in a <==> x in b
    ensures a == b
  {
    assert |a| > 0 ==> a[0] in b;
    assert |b| > 0 ==> b[0] in a;
    if |a| > 0 && |b| > 0 {
      assert a[0] == b[0] by {
        var i :| 0 <= i < |a| && a[i] == b[0];
        var j :| 0 <= j < |b| && b[j] == a[0];
        assert i == 0 || RowMajorLess(a[0], a[i]);
        assert j == 0 || RowMajorLess(b[0], b[j]);
      }
      forall x
        ensures x in a[1..] <==> x in b[1..]
      {
        if x in a[1..] {
          var i :| 1 <= i < |a| && a[i] == x;
          assert RowMajorLess(a[0], a[i]);
          assert x in b;
        }
        if x in b[1..] {
          var j :| 1 <= j < |b| && b[j] == x;
          assert RowMajorLess(b[0], b[j]);
          assert x in a;
        }
      }
      RowMajorUnique(a[1..], b[1..]);
      assert a == [a[0]] + a[1..];
      assert b == [b[0]] + b[1..];
    }
  }
}

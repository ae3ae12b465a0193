/**
 * Neighbour counting. `NeighbourCount` is the reference: the number of alive
 * cells among the eight surrounding positions that lie inside the grid (hard
 * edges, no wraparound). `CappedNeighbourCount` follows `getCntAliveNeighbors`:
 * it walks a fixed table of eight offsets and stops as soon as it has seen
 * four alive neighbours.
 */
module Neighbours {
  import opened Grids

  /** The offsets `getCntAliveNeighbors` visits, in its order. */
  const Directions: seq<(int, int)> :=
    [(-1, -1), (-1, 0), (-1, 1),
     (0, -1),           (0, 1),
     (1, -1),  (1, 0),  (1, 1)]

  function Min(a: nat, b: nat): nat
  {
    if a <= b then a else b
  }

  /** 1 when (row, col) lies inside the grid and is alive, else 0:
      positions off the grid never count. */
  function Occupied(g: Grid, rows: nat, cols: nat, row: int, col: int): nat
    requires WellFormed(g, rows, cols)
  {
    if InBounds(rows, cols, row, col) && g[row][col] then 1 else 0
  }

  /** The number of alive cells among the eight positions surrounding (row, col). */
  function NeighbourCount(g: Grid, rows: nat, cols: nat, row: int, col: int): nat
    requires WellFormed(g, rows, cols)
  {
    Occupied(g, rows, cols, row - 1, col - 1) + Occupied(g, rows, cols, row - 1, col) + Occupied(g, rows, cols, row - 1, col + 1)
    + Occupied(g, rows, cols, row, col - 1) + Occupied(g, rows, cols, row, col + 1)
    + Occupied(g, rows, cols, row + 1, col - 1) + Occupied(g, rows, cols, row + 1, col) + Occupied(g, rows, cols, row + 1, col + 1)
  }

  /** Alive positions among the offsets `Directions[i..]` around (row, col). */
  function CountFrom(g: Grid, rows: nat, cols: nat, row: int, col: int, i: nat): nat
    requires WellFormed(g, rows, cols)
    requires i <= |Directions|
    decreases |Directions| - i
  {
    if i == |Directions| then 0
    else Occupied(g, rows, cols, row + Directions[i].0, col + Directions[i].1) + CountFrom(g, rows, cols, row, col, i + 1)
  }

  /** Walking the whole offset table visits exactly the eight surrounding positions. */
  lemma CountFromAll(g: Grid, rows: nat, cols: nat, row: int, col: int)
    requires WellFormed(g, rows, cols)
    ensures CountFrom(g, rows, cols, row, col, 0) == NeighbourCount(g, rows, cols, row, col)
  {
    assert CountFrom(g, rows, cols, row, col, 8) == 0;
  }

  /** The loop of `getCntAliveNeighbors` from offset `i` on, having already
      counted `seen` alive neighbours: it increments for each alive in-grid
      neighbour and breaks once the count exceeds 3. The result is the
      exhaustive count, capped at 4. */
  function CappedCountFrom(g: Grid, rows: nat, cols: nat, row: int, col: int, i: nat, seen: nat): (n: nat)
    requires WellFormed(g, rows, cols)
    requires i <= |Directions|
    requires seen <= 3
    ensures n == Min(seen + CountFrom(g, rows, cols, row, col, i), 4)
    decreases |Directions| - i
  {
    if i == |Directions| then seen
    else
      var (dr, dc) := Directions[i];
      if InBounds(rows, cols, row + dr, col + dc) && g[row + dr][col + dc] then
        if seen + 1 > 3 then seen + 1
        else CappedCountFrom(g, rows, cols, row, col, i + 1, seen + 1)
      else CappedCountFrom(g, rows, cols, row, col, i + 1, seen)
  }

  /** `getCntAliveNeighbors(row, col)`: min(n, 4) for the exhaustive count n,
      hence always within [0, 4]. */
  function CappedNeighbourCount(g: Grid, rows: nat, cols: nat, row: int, col: int): (n: nat)
    requires WellFormed(g, rows, cols)
    ensures n == Min(NeighbourCount(g, rows, cols, row, col), 4)
    ensures n <= 4
  {
    CountFromAll(g, rows, cols, row, col);
    CappedCountFrom(g, rows, cols, row, col, 0, 0)
  }

  /** No wraparound: a corner cell has only three positions inside the grid,
      so even on a fully alive grid of at least 2 x 2 it sees three neighbours,
      not the eight a wrapping grid would give. */
  lemma CornerSeesThree(g: Grid, rows: nat, cols: nat)
    requires WellFormed(g, rows, cols)
    requires rows >= 2 && cols >= 2
    requires forall r, c :: InBounds(rows, cols, r, c) ==> g[r][c]
    ensures NeighbourCount(g, rows, cols, 0, 0) == 3
    ensures NeighbourCount(g, rows, cols, rows - 1, cols - 1) == 3
  {
    assert g[0][1] && g[1][0] && g[1][1];
    assert g[rows - 2][cols - 1] && g[rows - 1][cols - 2] && g[rows - 2][cols - 2];
  }
}

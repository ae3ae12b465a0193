/**
 * Known patterns under the step: the blinker oscillator, the 2 x 2 block
 * still life, and a lone cell dying.
 */
module Patterns {
  import opened Grids
  import opened Enumeration
  import opened Loading
  import opened Neighbours
  import opened Rules

  /** The alive cells of `g` are exactly the members of `s`. */
  ghost predicate AliveExactly(g: Grid, rows: nat, cols: nat, s: set<Cell>)
    requires WellFormed(g, rows, cols)
  {
    forall r, c {:trigger g[r][c]} :: InBounds(rows, cols, r, c) ==> (g[r][c] <==> Cell(r, c) in s)
  }

  /** A horizontal blinker phase centred on (r, c). */
  function Horizontal(r: int, c: int): set<Cell>
  {
    {Cell(r, c - 1), Cell(r, c), Cell(r, c + 1)}
  }

  /** A vertical blinker phase centred on (r, c). */
  function Vertical(r: int, c: int): set<Cell>
  {
    {Cell(r - 1, c), Cell(r, c), Cell(r + 1, c)}
  }

  /** When the alive cells are exactly an in-grid set `s`, a position counts
      as an alive neighbour exactly when it belongs to `s`. */
  lemma OccupiedBySet(g: Grid, rows: nat, cols: nat, s: set<Cell>)
    requires WellFormed(g, rows, cols)
    requires AliveExactly(g, rows, cols, s)
    requires forall x :: x in s ==> CellInBounds(rows, cols, x)
    ensures forall r, c :: Occupied(g, rows, cols, r, c) == if Cell(r, c) in s then 1 else 0
  {
  }

  /** The eight-neighbour count of a position (r, c) as seen from a set `s`. */
  function CountIn(s: set<Cell>, r: int, c: int): nat
  {
    (if Cell(r - 1, c - 1) in s then 1 else 0) + (if Cell(r - 1, c) in s then 1 else 0) + (if Cell(r - 1, c + 1) in s then 1 else 0)
    + (if Cell(r, c - 1) in s then 1 else 0) + (if Cell(r, c + 1) in s then 1 else 0)
    + (if Cell(r + 1, c - 1) in s then 1 else 0) + (if Cell(r + 1, c) in s then 1 else 0) + (if Cell(r + 1, c + 1) in s then 1 else 0)
  }

  /** The next alive set under the rule, computed on the set alone. */
  ghost predicate StepsTo(s: set<Cell>, t: set<Cell>, rows: nat, cols: nat)
  {
    forall r, c {:trigger CountIn(s, r, c)} ::
      InBounds(rows, cols, r, c) ==> (LifeRule(Cell(r, c) in s, CountIn(s, r, c)) <==> Cell(r, c) in t)
  }

  /** When the alive cells are exactly an in-grid set `s` and the rule maps `s`
      to `t` cell by cell, the step's alive cells are exactly `t`. */
  lemma StepBySet(g: Grid, rows: nat, cols: nat, s: set<Cell>, t: set<Cell>)
    requires WellFormed(g, rows, cols)
    requires AliveExactly(g, rows, cols, s)
    requires forall x :: x in s ==> CellInBounds(rows, cols, x)
    requires StepsTo(s, t, rows, cols)
    ensures AliveExactly(Step(g, rows, cols), rows, cols, t)
  {
    OccupiedBySet(g, rows, cols, s);
    StepAppliesRule(g, rows, cols);
    forall r, c | InBounds(rows, cols, r, c)
      ensures Step(g, rows, cols)[r][c] <==> Cell(r, c) in t
    {
      assert NeighbourCount(g, rows, cols, r, c) == CountIn(s, r, c);
    }
  }

  lemma HorizontalStepsToVertical(r0: int, c0: int, rows: nat, cols: nat)
    ensures StepsTo(Horizontal(r0, c0), Vertical(r0, c0), rows, cols)
  {
    forall r, c | InBounds(rows, cols, r, c)
      ensures LifeRule(Cell(r, c) in Horizontal(r0, c0), CountIn(Horizontal(r0, c0), r, c)) <==> Cell(r, c) in Vertical(r0, c0)
    {
      // outside the window around the pattern, (r, c) is dead and has no alive neighbour
      var dr, dc := r - r0, c - c0;
      if !(-1 <= dr <= 1 && -2 <= dc <= 2) {
        assert Cell(r, c) !in Horizontal(r0, c0) && CountIn(Horizontal(r0, c0), r, c) == 0;
      }
    }
  }

  lemma VerticalStepsToHorizontal(r0: int, c0: int, rows: nat, cols: nat)
    ensures StepsTo(Vertical(r0, c0), Horizontal(r0, c0), rows, cols)
  {
    forall r, c | InBounds(rows, cols, r, c)
      ensures LifeRule(Cell(r, c) in Vertical(r0, c0), CountIn(Vertical(r0, c0), r, c)) <==> Cell(r, c) in Horizontal(r0, c0)
    {
      // outside the window around the pattern, (r, c) is dead and has no alive neighbour
      var dr, dc := r - r0, c - c0;
      if !(-2 <= dr <= 2 && -1 <= dc <= 1) {
        assert Cell(r, c) !in Vertical(r0, c0) && CountIn(Vertical(r0, c0), r, c) == 0;
      }
    }
  }

  /** A horizontal blinker at least one cell away from the edges turns vertical. */
  lemma BlinkerTurnsVertical(g: Grid, rows: nat, cols: nat, r0: int, c0: int)
    requires WellFormed(g, rows, cols)
    requires 1 <= r0 < rows - 1 && 1 <= c0 < cols - 1
    requires AliveExactly(g, rows, cols, Horizontal(r0, c0))
    ensures AliveExactly(Step(g, rows, cols), rows, cols, Vertical(r0, c0))
  {
    HorizontalStepsToVertical(r0, c0, rows, cols);
    StepBySet(g, rows, cols, Horizontal(r0, c0), Vertical(r0, c0));
  }

  /** A vertical blinker at least one cell away from the edges turns horizontal. */
  lemma BlinkerTurnsHorizontal(g: Grid, rows: nat, cols: nat, r0: int, c0: int)
    requires WellFormed(g, rows, cols)
    requires 1 <= r0 < rows - 1 && 1 <= c0 < cols - 1
    requires AliveExactly(g, rows, cols, Vertical(r0, c0))
    ensures AliveExactly(Step(g, rows, cols), rows, cols, Horizontal(r0, c0))
  {
    VerticalStepsToHorizontal(r0, c0, rows, cols);
    StepBySet(g, rows, cols, Vertical(r0, c0), Horizontal(r0, c0));
  }

  /** Two in-grid sets that the rule maps onto each other alternate forever:
      `s` after every even number of generations, `t` after every odd one. */
  lemma {:induction false} Alternates(g: Grid, rows: nat, cols: nat, s: set<Cell>, t: set<Cell>, n: nat)
    requires WellFormed(g, rows, cols)
    requires forall x :: x in s ==> CellInBounds(rows, cols, x)
    requires forall x :: x in t ==> CellInBounds(rows, cols, x)
    requires StepsTo(s, t, rows, cols) && StepsTo(t, s, rows, cols)
    requires AliveExactly(g, rows, cols, s)
    ensures n % 2 == 0 ==> AliveExactly(Iterate(g, rows, cols, n), rows, cols, s)
    ensures n % 2 == 1 ==> AliveExactly(Iterate(g, rows, cols, n), rows, cols, t)
    decreases n
  {
    if n > 0 {
      var h := Step(g, rows, cols);
      StepBySet(g, rows, cols, s, t);
      Alternates(h, rows, cols, t, s, n - 1);
      assert Iterate(g, rows, cols, n) == Iterate(h, rows, cols, n - 1);
      assert (n - 1) % 2 == 0 <==> n % 2 == 1;
    }
  }

  /** The blinker has period 2: after `n` generations it is horizontal when
      `n` is even and vertical when `n` is odd. */
  lemma BlinkerPeriodTwo(g: Grid, rows: nat, cols: nat, r0: int, c0: int, n: nat)
    requires WellFormed(g, rows, cols)
    requires 1 <= r0 < rows - 1 && 1 <= c0 < cols - 1
    requires AliveExactly(g, rows, cols, Horizontal(r0, c0))
    ensures n % 2 == 0 ==> AliveExactly(Iterate(g, rows, cols, n), rows, cols, Horizontal(r0, c0))
    ensures n % 2 == 1 ==> AliveExactly(Iterate(g, rows, cols, n), rows, cols, Vertical(r0, c0))
  {
    HorizontalStepsToVertical(r0, c0, rows, cols);
    VerticalStepsToHorizontal(r0, c0, rows, cols);
    Alternates(g, rows, cols, Horizontal(r0, c0), Vertical(r0, c0), n);
  }

  /** A grid whose alive cells are exactly `s` enumerates as the row-major listing of `s`. */
  lemma AliveCellsOfExactly(g: Grid, rows: nat, cols: nat, s: set<Cell>, listing: seq<Cell>)
    requires WellFormed(g, rows, cols)
    requires AliveExactly(g, rows, cols, s)
    requires forall x :: x in s ==> CellInBounds(rows, cols, x)
    requires StrictlyRowMajor(listing)
    requires forall x :: x in listing <==> x in s
    ensures AliveCells(g, rows, cols) == listing
  {
    RowMajorUnique(AliveCells(g, rows, cols), listing);
  }

  /** Loading an in-bounds listing of `s` leaves exactly `s` alive. */
  lemma LoadedExactly(rows: nat, cols: nat, xs: seq<Cell>, s: set<Cell>)
    requires AllInBounds(rows, cols, xs)
    requires forall x :: x in xs <==> x in s
    ensures SetState(rows, cols, xs).Applied?
    ensures AliveExactly(SetState(rows, cols, xs).grid, rows, cols, s)
  {
  }

  /** The row-major listing of a horizontal blinker phase. */
  lemma HorizontalListing(r0: int, c0: int)
    ensures StrictlyRowMajor([Cell(r0, c0 - 1), Cell(r0, c0), Cell(r0, c0 + 1)])
    ensures forall x :: x in [Cell(r0, c0 - 1), Cell(r0, c0), Cell(r0, c0 + 1)] <==> x in Horizontal(r0, c0)
  {
  }

  /** The row-major listing of a vertical blinker phase. */
  lemma VerticalListing(r0: int, c0: int)
    ensures StrictlyRowMajor([Cell(r0 - 1, c0), Cell(r0, c0), Cell(r0 + 1, c0)])
    ensures forall x :: x in [Cell(r0 - 1, c0), Cell(r0, c0), Cell(r0 + 1, c0)] <==> x in Vertical(r0, c0)
  {
  }

  /** The oscillator unit test on a 500 x 500 engine: after loading
      (17,31), (17,32), (17,33), every odd generation lists (16,32), (17,32),
      (18,32) and every even generation lists the initial three cells again. */
  lemma BlinkerUnitTest(n: nat)
    ensures SetState(500, 500, [Cell(17, 31), Cell(17, 32), Cell(17, 33)]).Applied?
    ensures AliveCells(Iterate(SetState(500, 500, [Cell(17, 31), Cell(17, 32), Cell(17, 33)]).grid, 500, 500, n), 500, 500)
      == if n % 2 == 0 then [Cell(17, 31), Cell(17, 32), Cell(17, 33)] else [Cell(16, 32), Cell(17, 32), Cell(18, 32)]
  {
    var initial := [Cell(17, 31), Cell(17, 32), Cell(17, 33)];
    var flipped := [Cell(16, 32), Cell(17, 32), Cell(18, 32)];
    HorizontalListing(17, 32);
    VerticalListing(17, 32);
    assert AllInBounds(500, 500, initial);
    LoadedExactly(500, 500, initial, Horizontal(17, 32));
    var g := SetState(500, 500, initial).grid;
    BlinkerPeriodTwo(g, 500, 500, 17, 32, n);
    var h := Iterate(g, 500, 500, n);
    if n % 2 == 0 {
      AliveCellsOfExactly(h, 500, 500, Horizontal(17, 32), initial);
    } else {
      AliveCellsOfExactly(h, 500, 500, Vertical(17, 32), flipped);
    }
  }

  /** A 2 x 2 block with top-left corner (r, c). */
  function Block(r: int, c: int): set<Cell>
  {
    {Cell(r, c), Cell(r, c + 1), Cell(r + 1, c), Cell(r + 1, c + 1)}
  }

  lemma BlockStepsToBlock(r0: int, c0: int, rows: nat, cols: nat)
    ensures StepsTo(Block(r0, c0), Block(r0, c0), rows, cols)
  {
    forall r, c | InBounds(rows, cols, r, c)
      ensures LifeRule(Cell(r, c) in Block(r0, c0), CountIn(Block(r0, c0), r, c)) <==> Cell(r, c) in Block(r0, c0)
    {
      // outside the window around the pattern, (r, c) is dead and has no alive neighbour
      var dr, dc := r - r0, c - c0;
      if !(-1 <= dr <= 2 && -1 <= dc <= 2) {
        assert Cell(r, c) !in Block(r0, c0) && CountIn(Block(r0, c0), r, c) == 0;
      }
    }
  }

  /** The block is a still life anywhere inside the grid, even against an
      edge: it is unchanged after any number of generations. */
  lemma BlockIsStill(g: Grid, rows: nat, cols: nat, r0: int, c0: int, n: nat)
    requires WellFormed(g, rows, cols)
    requires 0 <= r0 < rows - 1 && 0 <= c0 < cols - 1
    requires AliveExactly(g, rows, cols, Block(r0, c0))
    ensures AliveExactly(Iterate(g, rows, cols, n), rows, cols, Block(r0, c0))
  {
    BlockStepsToBlock(r0, c0, rows, cols);
    Alternates(g, rows, cols, Block(r0, c0), Block(r0, c0), n);
  }

  /** A lone cell, in a corner or anywhere else, dies and leaves an empty grid. */
  lemma LoneCellDies(g: Grid, rows: nat, cols: nat, r0: int, c0: int)
    requires WellFormed(g, rows, cols)
    requires InBounds(rows, cols, r0, c0)
    requires AliveExactly(g, rows, cols, {Cell(r0, c0)})
    ensures AliveExactly(Step(g, rows, cols), rows, cols, {})
  {
    StepBySet(g, rows, cols, {Cell(r0, c0)}, {});
  }
}

# Game of Life engine — a Dafny model

This project models the simulation engine of a small Game of Life library: the
`GameOfLife` class. The engine holds a fixed `cntRows × cntCols` boolean grid
and a generation counter. It offers:

- reset (`resetGame`, `resetState`);
- a bounds check (`isValidCell`);
- a bulk load (`setState`), which clears the grid and then marks the listed cells;
- a row-major listing of the alive cells (`getAliveCells`);
- a random starting state (`getRandomState`);
- the Conway step (`processGeneration`), built from `shouldCellLive` and the
  capped neighbour counter `getCntAliveNeighbors`.

The grid has hard edges: positions off the grid never count as neighbours.

Layout, one module per concept:

- `grids.dfy` (`Grids`): cells, the grid `seq<seq<bool>>`, the well-formedness
  invariant, bounds, the blank grid and single-cell marking.
- `enumeration.dfy` (`Enumeration`): row-major order, `AliveCells`, and the
  nested loop that builds it. A set of cells has only one strictly row-major
  listing.
- `loading.dfy` (`Loading`): `setState` as a function that returns an
  `Outcome`. It is either `Applied(grid)`, or `OutOfBounds(grid, bad, index)`
  carrying the partly written grid that the engine keeps.
- `neighbours.dfy` (`Neighbours`): the exhaustive eight-neighbour count, which
  serves as the reference definition. Also the capped count, which walks the
  offset table the same way the source's loop does.
- `rules.dfy` (`Rules`): the B3/S23 rule, `shouldCellLive`, the snapshot step,
  how `processGeneration` writes the next grid, and iteration.
- `patterns.dfy` (`Patterns`): the blinker oscillator, including the unit test
  on a 500 × 500 engine, the 2 × 2 block still life, and a lone cell dying.
- `random_state.dfy` (`RandomState`): `getRandomState` with its random draws
  passed in as a parameter.
- `engine.dfy` (`Engine`): the `GameOfLife` class itself. It has fields
  `grid`, `cntGenerations`, `cntRows` and `cntCols`, the invariant
  `Valid()`, and methods that delegate to the pure definitions above.
- `wrappers.dfy` (`Wrappers`): `Option`.

Two behaviours of the code shape the model:

- `setState` is not atomic (src/GameOfLife.ts:126-134). It clears the grid,
  marks the cells in order, and throws at the first out-of-bounds cell, so
  the marks made before that cell stay. `Loading.SetState` and
  `Loading.SetStateNotAtomic` state this.
- `isCellAlive` does no bounds check (src/GameOfLife.ts:121-123), so
  `Engine.GameOfLife.IsCellAlive` requires `IsValidCell`.

## Model

| member | source | states |
|---|---|---|
| Grids.Blank | src/GameOfLife.ts:46-48 | The cleared grid has exactly `rows` rows of `cols` cells, and every cell is dead. |
| Grids.Mark | src/GameOfLife.ts:133 | Marking (row, col) makes that cell alive, keeps the dimensions, and leaves every other cell as it was. |
| Enumeration.AliveCells | src/GameOfLife.ts:156-167 | The listing holds a cell exactly when the cell is in bounds and alive. It is strictly increasing in row-major order, so it has no duplicates. |
| Enumeration.CollectAlive | src/GameOfLife.ts:156-167 | The nested row/column loop of `getAliveCells` produces exactly `AliveCells`. |
| Enumeration.CollectRow | src/GameOfLife.ts:159-163 | The inner column loop produces the alive cells of one row, from left to right. |
| Enumeration.RowMajorUnique | src/GameOfLife.ts:156-167 | Two strictly row-major sequences with the same elements are equal, so the listing order is fully determined. |
| Loading.Apply | src/GameOfLife.ts:128-134 | Marking `cells[from..]` in order succeeds iff every one of those cells is in bounds. Otherwise it stops at the first bad index, and all cells before that index are in bounds. A cell ends up alive iff it was alive already or appears among the cells marked before the stop. |
| Loading.SetState | src/GameOfLife.ts:125-135 | If every input cell is in bounds, afterwards a cell is alive iff it occurs in the input. Otherwise the load reports the first bad cell and its position, and exactly the cells listed before it are alive: nothing is rolled back. |
| Loading.SetStateIgnoresOrderAndDuplicates | src/GameOfLife.ts:125-135 | For in-bounds input, only the set of listed cells matters. Order and repetitions do not change the result. |
| Loading.SetStateDuplicateNoEffect | src/GameOfLife.ts:128-134 | Appending a cell that is already in the input changes nothing, on success and on failure alike. |
| Loading.SetStateThenAliveCells | src/GameOfLife.ts:125-167 | For in-bounds input, `setState` followed by `getAliveCells` yields the duplicate-free, row-major listing of the input, whatever order the input was in. |
| Loading.SortedInputRoundTrip | tests/unit/game.test.ts:16-21 | A duplicate-free input already in row-major order comes back unchanged. |
| Loading.SetStateNotAtomic | src/GameOfLife.ts:126-134 | On a 5 × 5 grid, loading (1,1), (5,0), (2,2) fails at (5,0), position 1. Afterwards (1,1) is alive and (2,2) is dead. |
| Neighbours.CappedCountFrom | src/GameOfLife.ts:104-118 | The offset loop with its early break returns the exhaustive count of the remaining offsets plus the alive cells already seen, capped at 4. |
| Neighbours.CountFromAll | src/GameOfLife.ts:98-102 | Walking the whole offset table visits exactly the eight surrounding positions. |
| Neighbours.CappedNeighbourCount | src/GameOfLife.ts:88-119 | `getCntAliveNeighbors` returns min(n, 4), where n is the number of alive in-grid cells among the eight neighbours. So the result lies in [0, 4]. |
| Neighbours.CornerSeesThree | src/GameOfLife.ts:109 | No wraparound. On a fully alive grid of at least 2 × 2, each opposite corner counts 3 neighbours, not 8. |
| Rules.ShouldCellLive | src/GameOfLife.ts:71-86 | The decision made on the capped count equals the B3/S23 rule on the exhaustive count: alive iff the count is 3, or the cell is alive and the count is 2. |
| Rules.Step | src/GameOfLife.ts:54-63 | The next generation is built from a snapshot of the old grid and keeps its dimensions. `Rules.StepAppliesRule` gives the content of each cell. |
| Rules.StepAppliesRule | src/GameOfLife.ts:54-63 | Every cell of the next grid is the rule applied to the previous grid: its own state and its exhaustive neighbour count. |
| Rules.NextGenerationLoadsStep | src/GameOfLife.ts:54-65 | `processGeneration` collects the surviving and born cells and loads them with `setState`. That load never fails and produces exactly the snapshot step. |
| Patterns.StepBySet | src/GameOfLife.ts:54-86 | If the alive cells are exactly an in-grid set `s`, and the rule maps `s` to `t` cell by cell, then after the step the alive cells are exactly `t`. |
| Patterns.Alternates | src/GameOfLife.ts:54-69 | Two in-grid sets that the rule maps onto each other alternate: the first after an even number of generations, the second after an odd number. |
| Patterns.BlinkerTurnsVertical | tests/unit/game.test.ts:40-70 | A horizontal blinker with at least one cell of margin from the edges becomes vertical after one generation. |
| Patterns.BlinkerTurnsHorizontal | tests/unit/game.test.ts:71-82 | A vertical blinker with margin becomes horizontal again. |
| Patterns.BlinkerPeriodTwo | tests/unit/game.test.ts:77-82 | After n generations the blinker is horizontal when n is even and vertical when n is odd. |
| Patterns.BlinkerUnitTest | tests/unit/game.test.ts:39-83 | On a 500 × 500 engine loaded with (17,31), (17,32), (17,33), `getAliveCells` after n generations lists (16,32), (17,32), (18,32) for odd n and the initial cells for even n. |
| Patterns.BlockIsStill | src/GameOfLife.ts:71-86 | A 2 × 2 block anywhere in the grid, even against an edge, is unchanged after any number of generations. |
| Patterns.LoneCellDies | src/GameOfLife.ts:71-86 | A single alive cell, in a corner or anywhere else, dies and leaves the grid empty. |
| RandomState.DrawGrid | src/GameOfLife.ts:144-151 | Cell (r, c) is chosen iff its own draw, number r·cols + c in row-major order, is below the density. |
| RandomState.GetRandomState | src/GameOfLife.ts:142-154 | The result lists exactly the cells whose draw is below the density, in strictly increasing row-major order. |
| RandomState.DensityZeroIsEmpty | src/GameOfLife.ts:146 | With draws in [0, 1), density 0 selects no cell. |
| RandomState.DensityOneIsEverything | src/GameOfLife.ts:146 | With draws in [0, 1), density 1 selects every cell of the grid. |
| Engine.GameOfLife.GetAliveCells | src/GameOfLife.ts:156-167 | On a valid engine, the returned listing is `AliveCells` of the current grid: exactly the alive cells, in strictly row-major order. |
| Engine.GameOfLife.IsCellAlive | src/GameOfLife.ts:121-123 | For an in-bounds cell, the answer is true iff `getAliveCells` lists that cell. |
| Engine.GameStateUnitTest | tests/unit/game.test.ts:15-37 | Loading (1,1), (1,2), (2,1) on a 500 × 500 engine lists them back in that order. After three generations the counter reads 3. |

The remaining engine members are listed here for completeness. Their
contracts use `old` or a `modifies` clause, they are constructors, or they
carry no `ensures` of their own:

- `Engine.GameOfLife` constructor (src/GameOfLife.ts:25-30): the new engine
  has the given dimensions, generation 0, and every cell dead.
- `Engine.GameOfLife.IsValidCell` (src/GameOfLife.ts:32-34): true iff
  0 ≤ row < cntRows and 0 ≤ col < cntCols.
- `Engine.GameOfLife.ResetGame` (src/GameOfLife.ts:36-40): sets the counter to
  0, kills every cell, and keeps the dimensions, which are constants.
- `Engine.GameOfLife.ResetState` (src/GameOfLife.ts:46-48): installs the blank
  grid and leaves the counter unchanged.
- `Engine.GameOfLife.GetCntGenerations` (src/GameOfLife.ts:50-52): reads the
  generation counter.
- `Engine.GameOfLife.SetState` (src/GameOfLife.ts:125-135): the new grid is
  `Loading.SetState`'s grid, the bad cell is returned in place of the thrown
  error, and the counter is unchanged.
- `Engine.GameOfLife.ProcessGeneration` (src/GameOfLife.ts:54-69): the new grid
  is `Rules.Step` of the old grid, and the counter increases by exactly 1.
- `Rules.Iterate` (src/GameOfLife.ts:54-69, applied repeatedly): the grid after
  `n` calls of `processGeneration`. It keeps the dimensions, and
  `Patterns.Alternates` is proved about it.

## Left out

- The change-notification channel (`eventemitter3`, `getEventEmitter`, and the
  `emit` calls in `resetGame` and `processGeneration`). Subscriber dispatch
  belongs to a foreign library. Note the order in the source: `resetGame`
  emits 0 before it clears the grid, while `processGeneration` emits after it
  has committed the new grid.
- The canvas view (`src/GameOfLifeCanvasView.ts`): DOM events, drawing,
  pixel-to-cell mapping, and drag painting that writes the grid directly.
  GameOfLifeCanvasView.ts is not part of this model.
- Non-integer or NaN coordinates, and negative or fractional dimensions. These
  are JavaScript runtime artefacts. Here coordinates are `int` and dimensions
  are `nat`.
- Reads through `isCellAlive` outside the grid. In the source such a read
  yields `undefined` or a `TypeError`. Here it is ruled out by a precondition.
- Floating point. `Math.random()` draws and the density are modelled as
  mathematical reals, and the draws are a parameter, not a random source.
- The generation counter as a JavaScript `number`. It is an unbounded `nat`
  here, so precision loss above 2^53 is not modelled.

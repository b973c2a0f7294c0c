# Conway's Game of Life: the simulation engine, in Dafny

This project models the simulation state of the `GameOfLife` component of a
browser Game of Life (rule B3/S23, that is birth with 3 live neighbours and
survival with 2 or 3). The board is bounded by hard edges and does not wrap
around. The component's operations are modelled:

- `play` computes one generation: it copies the board, counts each cell's
  neighbours on the old board, and writes the verdict of the rule into the copy.
- `selectCell` flips a cell.
- `clearBoard` resets the board.
- `startStop` starts or stops the game.
- `randomizeSeed` seeds a cleared board.
- `selectSpeed` and `selectGrid` apply the two menus.
- The constructor sets the initial fields, and the mount hook then seeds the
  board (`Mount`).

Layout:

- `Rules.dfy` (module `LifeRules`) holds the pure specification on
  `seq<seq<bool>>` boards:
  - the clipped neighbour count `NeighbourCount`, together with an independent
    set-based definition `LiveNeighbours` and the proof that the two agree;
  - the cell rule `NextCell` and the whole-board step `Next`;
  - the dead board `Empty`, the flip `Toggle` and the seeding `Seed`.
- `Settings.dfy` (module `Settings`) holds the constants and the two menu
  mappings.
- `Engine.dfy` (module `Engine`) holds the imperative part:
  - the board as an `array2<bool>` in the class `GameOfLife`, whose fields are
    those of the component (`rows`, `cols`, `speed`, `generation`, `running`);
  - the step as nested loops (`NextGeneration` over the rows, `NextRow` over
    the cells of a row, `CountNeighbours` for the if-chain of the count), each
    proved against the functions of `LifeRules`;
  - the class invariant `Valid`, which says the board has `rows` x `cols`
    cells. This matters because the step loops over `rows` and `cols`, not
    over the board's own length.
- `Patterns.dfy` (module `LifePatterns`) holds known configurations and what
  one generation does to them.

The JavaScript board holds `0`, `1`, `true` and `false`, and only their
truthiness is ever used, so the model uses `bool`. The component's periodic
timer handle (`intervalId`) is modelled as the flag `ticking`:

- `setInterval` in `playGame` sets it;
- `clearInterval` in `startStop` and `clearBoard` clears it.

The timer firing `play` is therefore a call of `Play` that the environment
may make while `ticking` holds.

Two behaviours of the code are modelled as written, even where a reader of
the menus might expect otherwise:

- `startStop` on a stopped game only installs the timer. `running` becomes
  true at the first `play`.
- Grid option `"3"` (labelled "70x50") gives 50 rows and 70 columns. The
  labels list the columns first.

`selectSpeed` calls `playGame`, so choosing a speed starts the timer even on a
stopped game. The model keeps this.

## Model

| member | source | states |
|---|---|---|
| LifeRules.NeighbourCount | script.js:168-196 | the count of live neighbours of (i, j) lies in 0..8 |
| LifeRules.NeighbourCountIsSize | script.js:166-196 | the count equals the number of live cells at on-board positions (i+di, j+dj), di, dj in {-1, 0, 1}, not both 0 — no wrap-around |
| LifeRules.CountAmongIsSize | script.js:168-196 | adding one for each live cell of a list of distinct positions gives the size of the set of those live positions |
| LifeRules.CountAroundIsNeighbourCount | script.js:169-196 | the eight guarded increments sum to the count over the eight surrounding positions |
| LifeRules.NextCell | script.js:199-204 | a live cell with fewer than 2 or more than 3 neighbours dies, with 2 or 3 it lives; a dead cell is born exactly when it has 3; in all, alive afterwards iff n = 3 or (alive and n = 2) |
| LifeRules.Next | script.js:162-206 | one generation keeps the board `rows` x `cols` |
| LifeRules.NextByCells | script.js:166-204 | a board is the next generation iff it has the dimensions and every cell is the rule applied to the old cell and its old count |
| LifeRules.NextIsLocal | script.js:161-162 | the new value of a cell depends only on the old cell and its eight old neighbours: two old boards that agree there give the same new cell |
| LifeRules.Empty | script.js:94-96 | the cleared board is `rows` x `cols` and every cell is dead |
| LifeRules.Toggle | script.js:79-80 | flipping (i, j) inverts that cell and leaves every other cell and the dimensions unchanged |
| LifeRules.ToggleTwice | script.js:77-81 | flipping the same cell twice restores the board |
| LifeRules.Seed | script.js:104-109 | a seeded cell is alive iff it was alive before or its draw is 1; the dimensions are kept |
| LifeRules.SeedEmpty | script.js:103-109 | seeding a cleared board makes a cell alive exactly when its draw is 1 |
| Settings.SpeedFor | script.js:115-131 | "1" gives 800 ms, "2" gives 500 ms, any other string (the placeholder "0" and "3" included) gives 100 ms; every string maps to one of the three |
| Settings.GridFor | script.js:135-151 | "1" gives 10 x 20, "3" gives 50 x 70, any other string (including "2") gives 30 x 50; both dimensions are positive |
| Engine.CloneBoard | script.js:301-303 | the copy is a new array with the same dimensions and the same cells |
| Engine.DeadBoard | script.js:94-96 | a new `rows` x `cols` array with every cell dead |
| Engine.CountNeighbours | script.js:168-196 | the if-chain of the step, with its edge guards, computes `NeighbourCount` of the old board |
| Engine.NextRow | script.js:167-205 | after the inner loop every cell of row i of the copy holds the rule's verdict for the old board; the other rows of the copy are untouched |
| Engine.NextGeneration | script.js:161-206 | a fresh array that after both loops is exactly `Next` of the old board: a simultaneous update, as reads go to the old board and writes to the copy |
| Engine.SeedBoard | script.js:104-109 | the seeding loops leave the copy equal to `Seed` of the board and the draws |
| Engine.GameOfLife.constructor | script.js:221 | state after the constructor, before the mount hook runs: a dead 30 x 50 board, speed 100 ms, generation 0, not running, no timer |
| Engine.Mount | script.js:221 | the observable start-up, constructor then the mount hook's `randomizeSeed`: a 30 x 50 board alive exactly where the draws are 1, speed 100 ms, generation 0, not running, timer installed |
| Engine.GameOfLife.Play | script.js:160-212 | the board becomes a fresh array holding `Next` of the old board, keeping `rows` x `cols`; generation goes up by exactly 1; running becomes true; speed and timer unchanged |
| Engine.GameOfLife.SelectCell | script.js:77-81 | the board becomes `Toggle` of the old board at (i, j); no other field changes |
| Engine.GameOfLife.StartStop | script.js:84-88 | a running game stops (not running, timer cleared); a stopped one gets its timer installed; board, dimensions, speed and generation unchanged |
| Engine.GameOfLife.ClearBoard | script.js:91-98 | whatever the state before: a dead `rows` x `cols` board, generation 0, not running, no timer, dimensions and speed kept |
| Engine.ClearTwice | script.js:91-98 | clearing is idempotent: a second clear leaves the cells of the first (`once`) and every field as the first left them |
| Engine.GameOfLife.RandomizeSeed | script.js:102-112 | a cell of the new board is alive iff its draw is 1; generation 0, not running, timer installed, dimensions and speed kept |
| Engine.GameOfLife.SelectSpeed | script.js:115-131 | speed becomes `SpeedFor(level)` and the timer is (re)installed; board, dimensions, generation and running unchanged |
| Engine.GameOfLife.SelectGrid | script.js:135-153 | (rows, cols) becomes `GridFor(level)`; the board is a dead board of those dimensions, generation 0, not running, no timer |
| Engine.GameOfLife.PlayGame | script.js:156-159 | the timer is installed; nothing else changes |
| LifePatterns.EmptyStaysEmpty | script.js:199-204 | a board with no live cell stays empty |
| LifePatterns.IsolatedCellDies | script.js:166-204 | a lone live cell anywhere, a corner or an edge included, dies and the board becomes empty |
| LifePatterns.BlockIsStillLife | script.js:166-204 | the 2 x 2 block is unchanged by a generation |
| LifePatterns.RowTurns | script.js:166-204 | the horizontal blinker becomes the vertical one |
| LifePatterns.ColumnTurns | script.js:166-204 | the vertical blinker becomes the horizontal one |
| LifePatterns.BlinkerOscillates | script.js:166-204 | the blinker returns after two generations and differs after one (period 2) |
| LifePatterns.CornerBirth | script.js:166-204 | in a corner L of three cells the inner dead cell has 3 neighbours and is born, the corner cell counts only its 3 on-board neighbours (2 alive) and survives; the L becomes a block |

## Left out

- Rendering and event glue (`Controls`, `Cell`, `GameBoard`, `render`, the information modal, `displayInfo`, `closeInfo`, `Footer`) are user interface, not engine state.
- Timer scheduling: `setInterval` and `clearInterval` are reduced to the `ticking` flag. When the timer fires, and how often, is up to the environment.
- `Math.random`: `randomizeSeed`'s draws are a parameter (`draws`). Each draw stands for the value of `Math.floor(Math.random() * 4)`.
- Asynchrony: the `async`/`await` ordering in `randomizeSeed` and `selectGrid` and React's `setState` batching are not modelled. Each operation runs to completion and its state updates take effect at once, in program order.
- The mount hook `componentDidMount` is called by React, not by the component; `Mount` fixes the order React uses (constructor, then the hook) and nothing else of the component lifecycle is modelled.
- `cloneArray` goes through a JSON round trip. It is modelled as an element-wise copy into a fresh array.
- Engine.GameOfLife.SelectCell: takes the row and column as numbers and requires them on the board. Splitting the `"i_j"` element id is not modelled, and the code has no bounds check.
- Cell values: `0`/`1` and `false`/`true` are both modelled as `bool`, because the code only tests their truthiness.

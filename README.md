# Game of Life engine

A model of the simulation engine of `game-of-life/game-of-life.py`: the
`Grid` class without its plotting and console code. The grid is a list of
rows of cells; each cell carries its own column `x`, row `y` and a state
(`Empty` = 0, `Occupied` = 1). The model covers seeding (`_init`), the
neighbour count (`count_neighbors`), the next generation (`tick`), the
liveness test (`is_alive`) and the body of the `run` loop, which replaces
the grid with the next generation and adds one to the generation counter
`iters`.

Three modules:

- `Life` (life.dfy): the pure definitions. `PyGet` is Python's list
  subscript (a negative index counts from the end; anything outside
  `[-len, len)` raises IndexError), `StateAt` and `Probe` are the lookup
  `self.grid[ny][nx].state` inside its `try`/`except IndexError`, `Count`
  is the value `count_neighbors` returns, `NextState` is the rule table of
  the file header, `NextCell` and `NextGrid` are what `tick` builds, and
  `IsAlive` is `sum(sum(states, [])) > 0`. The lemmas state the
  properties of these.
- `Engine` (engine.dfy): the class `Grid` with the fields `height`,
  `width`, `grid` and `iters`. Its loops (`Init`, `CountNeighbors`, `Tick`)
  follow the source's loops and are proved equal to the functions of
  `Life`; `Step` is one pass of the `run` loop and `Generations` the loop
  itself.
- `Patterns` (patterns.dfy): concrete grids whose next generations are
  proved (a block, a blinker, a lone cell) and the corner cases of the
  edge behaviour.

## Edge behaviour

On the usual hard-edged board a neighbour outside the grid counts as
dead. The code instead subscripts the Python list with
`cell.y + dy` and `cell.x + dx` and catches only IndexError. Row index -1
and column index -1 are legal in Python and read the last row and the
last cell of a row, so a cell in row 0 or column 0 sees neighbours across
the opposite edge. Row index `height` and column index `width` raise
IndexError and contribute nothing. The wrap-around is therefore one-way:
the top and left edges wrap, the bottom and right edges do not. The
lemma `CountAwayFromTopLeftIsHardEdge` shows that the code agrees with
hard edges for every cell outside row 0 and column 0.
`OneByOneCountsItself` and `WrapIsOneWay` show where it does not: on a
1x1 grid a live cell counts itself three times and survives.

The code checks no dimension: `Grid(0, 0)` gives an empty grid, and the
model accepts any height and width.

## Model

| member | source | states |
|---|---|---|
| Life.Value | game-of-life/game-of-life.py:19-28 | the two states `Empty` and `Occupied` of the `Enum` class stand for 0 and 1: the value is at most 1 and is 1 exactly for `Occupied` (a `Cell` is the record of x, y and state) |
| Engine.Grid.constructor | game-of-life/game-of-life.py:33-37 | a new grid keeps the given height and width, 50 by 50 when they are not given, has no rows and a counter at 0 |
| Life.Seeded | game-of-life/game-of-life.py:39-52 | the rows `_init` builds have height rows of width cells (none for a negative bound), every cell at row i, column j has y == i and x == j, and its state is the seed's choice for (i, j) |
| Engine.Grid.Init | game-of-life/game-of-life.py:39-52 | the seeded rows are appended after the rows already present, so the grid is well-formed only when it started empty |
| Life.PyGet | game-of-life/game-of-life.py:85-89 | a list subscript raises IndexError exactly when the index lies outside [-len, len), and otherwise reads the element at the index, counted from the end when negative |
| Life.StateAt | game-of-life/game-of-life.py:85-89 | `self.grid[ny][nx].state` succeeds exactly when the row index is legal for the grid and the column index is legal for the row it selects, and then yields the state of that cell |
| Life.Probe | game-of-life/game-of-life.py:85-89 | the `try` block adds 1 exactly when the lookup succeeds on an `Occupied` cell, and 0 otherwise, an IndexError included |
| Life.CountUnrolled | game-of-life/game-of-life.py:79-91 | the count is the sum of the eight probes at the offsets (-1,-1) … (1,1), each relative to the cell's own coordinates |
| Life.CountPrefixBounds | game-of-life/game-of-life.py:81-89 | after k offsets have been visited the counter lies in [0, k] |
| Life.CountBounds | game-of-life/game-of-life.py:79-91 | the neighbour count is an integer in [0, 8] |
| Life.CountPrefixIsLiveDirections | game-of-life/game-of-life.py:81-89 | after k offsets the counter equals the number of those offsets whose lookup succeeds on an occupied cell |
| Life.CountIsLiveDirections | game-of-life/game-of-life.py:79-91 | the neighbour count equals the number of the eight offsets whose Python lookup succeeds and finds an occupied cell |
| Life.PastBottomOrRightContributesNothing | game-of-life/game-of-life.py:85-89 | a row index at or past the height, or a column index at or past the length of the row a legal row index selects (index -1 included), raises IndexError and adds 0 |
| Life.MinusOneWrapsAround | game-of-life/game-of-life.py:83-87 | row index -1 reads the last row and column index -1 the last cell of a row, so such a neighbour can add 1 |
| Life.NonNegativeLookupIsHardEdge | game-of-life/game-of-life.py:85-89 | with non-negative indices a lookup finds an occupied cell exactly when the position lies inside the grid and is occupied |
| Life.CountAwayFromTopLeftIsHardEdge | game-of-life/game-of-life.py:79-91 | for a cell outside row 0 and column 0 the count is exactly the number of occupied neighbours inside the grid, as on a hard-edged grid |
| Engine.Grid.CountNeighbors | game-of-life/game-of-life.py:76-91 | the loop over the offsets returns Count at the cell's own coordinates, a number in [0, 8] |
| Life.NextState | game-of-life/game-of-life.py:5-9 | a live cell stays live iff it has 2 or 3 neighbours; a dead cell becomes live iff it has exactly 3 |
| Life.NextCell | game-of-life/game-of-life.py:99-116 | the branches of `tick` give the cell the state of the rule table for the count at its own coordinates, keep the old cell exactly when that state equals the old one, and otherwise make Cell(j, i, ...) |
| Life.NextGrid | game-of-life/game-of-life.py:93-119 | the next generation has as many rows as the current one |
| Life.TickKeepsRowLengths | game-of-life/game-of-life.py:94-119 | on any grid, rectangular or not, each row of the next generation has as many cells as the matching row of the current one |
| Life.TickKeepsShape | game-of-life/game-of-life.py:93-119 | a rectangular grid of h rows of w cells ticks to one of the same dimensions |
| Life.TickKeepsCoords | game-of-life/game-of-life.py:100-114 | if every cell at grid[i][j] has y == i and x == j, so does every cell of the next generation |
| Life.TickRule | game-of-life/game-of-life.py:99-114 | on a coordinate-consistent grid the cell at (i, j) of the next generation follows the rule table applied to the count at (i, j) in the current generation |
| Engine.Grid.Tick | game-of-life/game-of-life.py:93-119 | the nested loops return NextGrid of the current grid; the method changes nothing, so every count is taken against the old generation |
| Life.EmptyStaysEmpty | game-of-life/game-of-life.py:112-114 | an all-Empty grid ticks to an all-Empty grid |
| Life.States | game-of-life/game-of-life.py:72 | the list of state rows has the grid's shape, and each entry is 0 or 1, 1 exactly where the cell is Occupied |
| Life.Concat | game-of-life/game-of-life.py:74 | `sum(grid, [])` contains a value exactly when some row contains it |
| Life.Sum | game-of-life/game-of-life.py:74 | the sum of a list of 0s and 1s is non-negative, and positive exactly when a 1 occurs in it |
| Life.FlatSumPositive | game-of-life/game-of-life.py:71-74 | the flattened states sum to more than 0 exactly when some cell is Occupied |
| Life.IsAlive | game-of-life/game-of-life.py:71-74 | `is_alive` holds exactly when some cell is Occupied, and fails exactly when every cell is Empty |
| Engine.Grid.IsAliveNow | game-of-life/game-of-life.py:71-74 | `is_alive` returns true exactly when some cell of the grid is Occupied |
| Engine.Grid.Step | game-of-life/game-of-life.py:128-131 | one pass replaces the grid by NextGrid of the old grid, adds exactly 1 to `iters` and leaves height and width unchanged |
| Engine.Grid.Generations | game-of-life/game-of-life.py:128-131 | after the loop `iters` has grown by the number of passes n, the grid is generation n of the starting grid, every generation before n had an occupied cell, and unless the fuel ran out the grid is all Empty |
| Engine.Grid.Run | game-of-life/game-of-life.py:122-131 | `run` seeds and then loops: the grid is generation n of the seeded grid where n is the growth of `iters`, and, started on an empty grid, it stays well-formed |
| Life.EvolveAdd | game-of-life/game-of-life.py:128-131 | the generations of the `run` loop compose: m + n ticks equal n ticks of the grid after m ticks |
| Life.ExtinctForever | game-of-life/game-of-life.py:128-131 | once `is_alive` is false it stays false for every later generation |
| Life.EvolveKeepsWellFormed | game-of-life/game-of-life.py:126-131 | every generation of a well-formed grid is rectangular with the same dimensions and coordinate-consistent |
| Patterns.TickYields | game-of-life/game-of-life.py:99-116 | when a well-formed target agrees in every state with the rule table, `tick` yields exactly that target, cell for cell |
| Patterns.BlockIsStillLife | game-of-life/game-of-life.py:93-119 | the 2x2 block in a 4x4 grid ticks to itself, and is unchanged after 5 generations |
| Patterns.BlinkerOscillates | game-of-life/game-of-life.py:93-119 | in a 5x5 grid the horizontal blinker ticks to the vertical one and back, so it has period 2 |
| Patterns.LoneCellDies | game-of-life/game-of-life.py:102-104 | a lone live cell in the middle of a 3x3 grid dies, and the grid stops being alive |
| Patterns.OneByOneCountsItself | game-of-life/game-of-life.py:83-89 | on a 1x1 grid the live cell is counted 3 times through index -1, where a hard-edged grid would count 0, so it survives |
| Patterns.WrapIsOneWay | game-of-life/game-of-life.py:83-89 | in a 3x3 grid the top-left cell sees a live bottom-right cell, but the bottom-right cell does not see a live top-left cell |

## Left out

- `display` and the `plt.*` calls in `run`: rendering through matplotlib and numpy, clearing the terminal and printing the generation are I/O and foreign library calls.
- The random choice in `_init` (`random.randrange(0, 4) == 1`): `Init` and `Run` take a caller-supplied `seed` giving the state of each (row, column) instead; any seeding, including the random one, is one such function.
- Engine.Grid.Run: the `while self.is_alive()` loop need not terminate, so `Run` and `Generations` stop after at most `fuel` passes; what happens after the fuel runs out is not modelled.
- Object identity of cells: `tick` reuses the old `Cell` object when a state does not change. Cells are values here, so the reuse shows only as the old cell value being kept; aliasing between generations is not modelled.
- The `if __name__ == '__main__'` block, which builds a 100x100 grid and calls `run`, is a driver and not part of this model.

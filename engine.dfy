/** The `Grid` class: its fields, the loops of `_init`, `count_neighbors`
    and `tick`, and the `run` loop, each proved against the functions of
    module Life. Plotting and console output are not part of this model. */
module Engine {
  import opened Life

  class Grid {
    var height: int
    var width: int
    /** The current generation, a list of rows of cells. */
    var grid: Board
    /** The generation counter. */
    var iters: int

    /** `Grid(height=50, width=50)`: an empty list of rows and a counter at
        0. No dimension is checked. */
    constructor (height: int := 50, width: int := 50)
      ensures this.height == height && this.width == width
      ensures grid == [] && iters == 0
    {
      this.height := height;
      this.width := width;
      grid := [];
      iters := 0;
    }

    /** `_init`: appends `height` rows of `width` cells, the cell at row i,
        column j being Cell(j, i, seed(i, j)). The rows already present are
        kept, so only on an empty grid is the result well-formed. */
    method Init(seed: (int, int) -> State)
      modifies this`grid
      ensures grid == old(grid) + Seeded(height, width, seed)
      ensures old(grid) == [] ==> WellFormed(grid, height, width)
    {
      ghost var rows := Seeded(height, width, seed);
      var i := 0;
      while i < height
        invariant 0 <= i <= RangeLen(height)
        invariant grid == old(grid) + rows[..i]
      {
        var row: seq<Cell> := [];
        var j := 0;
        while j < width
          invariant 0 <= j <= RangeLen(width)
          invariant row == SeededRow(i, width, seed)[..j]
        {
          var newCell := Cell(j, i, seed(i, j));
          row := row + [newCell];
          j := j + 1;
        }
        assert row == rows[i];
        assert rows[..i + 1] == rows[..i] + [rows[i]];
        grid := grid + [row];
        i := i + 1;
      }
      assert rows[..RangeLen(height)] == rows;
    }

    /** `count_neighbors(cell)`: visits the eight offsets from the cell's own
        coordinates and adds 1 for each lookup that finds an occupied cell;
        a lookup that raises IndexError adds nothing. */
    method CountNeighbors(cell: Cell) returns (neighbors: int)
      ensures neighbors == Count(grid, cell.y, cell.x)
      ensures 0 <= neighbors <= 8
    {
      neighbors := 0;
      var k := 0;
      while k < |Directions|
        invariant 0 <= k <= |Directions|
        invariant neighbors == CountPrefix(grid, cell.y, cell.x, k)
      {
        var (dy, dx) := Directions[k];
        var ny, nx := cell.y + dy, cell.x + dx;
        match StateAt(grid, ny, nx) {
          case Found(s) =>
            if s == Occupied {
              neighbors := neighbors + 1;
            }
          case IndexError =>
            // the IndexError is caught and ignored
        }
        k := k + 1;
      }
      CountBounds(grid, cell.y, cell.x);
    }

    /** `tick`: builds the next generation row by row into a fresh list,
        every count taken against the unchanged current grid. */
    method Tick() returns (newGrid: Board)
      ensures newGrid == NextGrid(grid)
    {
      ghost var next := NextGrid(grid);
      newGrid := [];
      var i := 0;
      while i < |grid|
        invariant 0 <= i <= |grid|
        invariant newGrid == next[..i]
      {
        var row := grid[i];
        var newRow: seq<Cell> := [];
        var j := 0;
        while j < |row|
          invariant 0 <= j <= |row|
          invariant newRow == next[i][..j]
        {
          var cell := row[j];
          var neighbors := CountNeighbors(cell);
          var newCell := cell;
          if cell.state == Occupied {
            if neighbors < 2 {
              newCell := Cell(j, i, Empty);
            } else if neighbors == 2 || neighbors == 3 {
              // survives: the same cell is kept
            } else if neighbors > 3 {
              newCell := Cell(j, i, Empty);
            }
          } else {
            if neighbors == 3 {
              newCell := Cell(j, i, Occupied);
            }
          }
          assert newCell == NextCell(grid, i, j, cell);
          newRow := newRow + [newCell];
          j := j + 1;
        }
        assert newRow == next[i];
        newGrid := newGrid + [newRow];
        i := i + 1;
      }
      assert newGrid == next;
    }

    /** One pass of the `run` loop: the grid is replaced by its successor and
        the counter goes up by exactly one; the dimensions do not change. */
    method Step()
      modifies this`grid, this`iters
      ensures grid == NextGrid(old(grid))
      ensures iters == old(iters) + 1
      ensures height == old(height) && width == old(width)
    {
      var next := Tick();
      grid := next;
      iters := iters + 1;
    }

    /** `is_alive`: the states, flattened and added up, are positive exactly
        when some cell is Occupied. */
    method IsAliveNow() returns (alive: bool)
      ensures alive <==> HasOccupied(grid)
    {
      alive := IsAlive(grid);
    }

    /** The `while self.is_alive()` loop of `run`, cut after at most `fuel`
        passes since it need not stop. Afterwards `iters` has counted the
        passes, the grid is that generation of the grid it started from, every
        earlier generation had an occupied cell, and unless the fuel ran out
        the grid has none. */
    method Generations(fuel: nat)
      modifies this`grid, this`iters
      ensures height == old(height) && width == old(width)
      ensures 0 <= iters - old(iters) <= fuel
      ensures grid == Evolve(old(grid), iters - old(iters))
      ensures forall k :: 0 <= k < iters - old(iters) ==> HasOccupied(Evolve(old(grid), k))
      ensures iters - old(iters) < fuel ==> AllEmpty(grid)
    {
      var left := fuel;
      ghost var passes: nat := 0;
      var alive := IsAliveNow();
      while left > 0 && alive
        invariant height == old(height) && width == old(width)
        invariant passes == fuel - left && iters == old(iters) + passes
        invariant grid == Evolve(old(grid), passes)
        invariant alive <==> HasOccupied(grid)
        invariant forall k :: 0 <= k < passes ==> HasOccupied(Evolve(old(grid), k))
      {
        OccupiedThrough(old(grid), passes);
        ghost var before := grid;
        Step();
        passes := passes + 1;
        assert grid == NextGrid(before);
        left := left - 1;
        alive := IsAliveNow();
      }
    }

    /** `run`: seeds the grid, then ticks while it is alive, for at most
        `fuel` passes. Started on an empty grid, every generation it reaches
        is well-formed. */
    method Run(seed: (int, int) -> State, fuel: nat)
      modifies this`grid, this`iters
      ensures height == old(height) && width == old(width)
      ensures 0 <= iters - old(iters) <= fuel
      ensures grid == Evolve(old(grid) + Seeded(height, width, seed), iters - old(iters))
      ensures forall k :: 0 <= k < iters - old(iters) ==>
        HasOccupied(Evolve(old(grid) + Seeded(height, width, seed), k))
      ensures iters - old(iters) < fuel ==> AllEmpty(grid)
      ensures old(grid) == [] ==> WellFormed(grid, height, width)
    {
      Init(seed);
      ghost var start := grid;
      Generations(fuel);
      if old(grid) == [] {
        EvolveKeepsWellFormed(start, height, width, iters - old(iters));
      }
    }
  }
}

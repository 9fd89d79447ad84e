/** The pure part of the Game of Life engine: cell states, the grid as a
    sequence of rows, Python's list indexing as the neighbour lookup relies
    on it, the neighbour count, the transition rules, the next generation
    and the liveness test. The class in engine.dfy computes the same things
    with the source's loops and is proved equal to the functions here. */
module Life {

  /** `Enum`: a cell is Empty (stored as 0) or Occupied (stored as 1). */
  datatype State = Empty | Occupied

  /** The integer the source stores for a state; its truth value is what
      `if ...state:` tests. */
  function Value(s: State): (v: nat)
    ensures v <= 1
    ensures v == 1 <==> s == Occupied
  {
    match s
    case Empty => 0
    case Occupied => 1
  }

  /** `Cell`: a state together with the cell's own column `x` and row `y`. */
  datatype Cell = Cell(x: int, y: int, state: State)

  /** `Grid.grid`: a list of rows of cells. */
  type Board = seq<seq<Cell>>

  /** Outcome of a Python subscript: a value, or the IndexError it raises. */
  datatype Lookup<T> = Found(value: T) | IndexError

  /** The position Python reads for index `i` into a list of length `n`:
      a negative index counts from the end. */
  function PyIndex(n: int, i: int): int
  {
    if i < 0 then n + i else i
  }

  /** Python's `s[i]`: `i` in [0, |s|) reads s[i], `i` in [-|s|, 0) reads
      s[|s| + i], and every other `i` raises IndexError. */
  function PyGet<T>(s: seq<T>, i: int): (r: Lookup<T>)
    ensures r.IndexError? <==> i < -|s| || |s| <= i
    ensures r.Found? ==> 0 <= PyIndex(|s|, i) < |s| && r.value == s[PyIndex(|s|, i)]
  {
    if 0 <= i < |s| then Found(s[i])
    else if -|s| <= i < 0 then Found(s[|s| + i])
    else IndexError
  }

  /** `len(range(n))`: the number of iterations of `for _ in range(n)`. */
  function RangeLen(n: int): nat
  {
    if n < 0 then 0 else n
  }

  // ---------------------------------------------------------------------
  // Shape of a grid

  /** `h` rows, each of `w` cells. */
  ghost predicate Rectangular(g: Board, h: nat, w: nat)
  {
    |g| == h && forall i :: 0 <= i < |g| ==> |g[i]| == w
  }

  /** Every cell knows where it is: the cell at grid[i][j] has y == i and x == j. */
  ghost predicate CoordsConsistent(g: Board)
  {
    forall i, j :: 0 <= i < |g| && 0 <= j < |g[i]| ==> g[i][j].y == i && g[i][j].x == j
  }

  /** The shape `_init` gives a grid of the given height and width. */
  ghost predicate WellFormed(g: Board, height: int, width: int)
  {
    Rectangular(g, RangeLen(height), RangeLen(width)) && CoordsConsistent(g)
  }

  ghost predicate AllEmpty(g: Board)
  {
    forall i, j :: 0 <= i < |g| && 0 <= j < |g[i]| ==> g[i][j].state == Empty
  }

  ghost predicate HasOccupied(g: Board)
  {
    exists i, j :: 0 <= i < |g| && 0 <= j < |g[i]| && g[i][j].state == Occupied
  }

  // ---------------------------------------------------------------------
  // Seeding (`Grid._init`)

  /** Row `i` as `_init` builds it: cells Cell(j, i, seed(i, j)) for j in range(width). */
  function SeededRow(i: int, width: int, seed: (int, int) -> State): seq<Cell>
  {
    seq(RangeLen(width), j => Cell(j, i, seed(i, j)))
  }

  /** The rows `_init` appends, the random choice of each state replaced by `seed`. */
  function Seeded(height: int, width: int, seed: (int, int) -> State): (rows: Board)
    ensures WellFormed(rows, height, width)
    ensures forall i, j :: 0 <= i < |rows| && 0 <= j < |rows[i]| ==> rows[i][j].state == seed(i, j)
  {
    seq(RangeLen(height), i => SeededRow(i, width, seed))
  }

  // ---------------------------------------------------------------------
  // Neighbour counting (`Grid.count_neighbors`)

  /** The eight (dy, dx) offsets, in the order the source visits them. */
  const Directions: seq<(int, int)> :=
    [(-1, -1), (-1, 0), (-1, 1), (0, -1), (0, 1), (1, -1), (1, 0), (1, 1)]

  /** `grid[ny][nx].state`, with both subscripts following Python. */
  function StateAt(g: Board, ny: int, nx: int): (r: Lookup<State>)
    ensures r.Found? <==>
      -|g| <= ny < |g| && -|g[PyIndex(|g|, ny)]| <= nx < |g[PyIndex(|g|, ny)]|
    ensures r.Found? ==>
      r.value == g[PyIndex(|g|, ny)][PyIndex(|g[PyIndex(|g|, ny)]|, nx)].state
  {
    match PyGet(g, ny)
    case IndexError => IndexError
    case Found(row) =>
      match PyGet(row, nx)
      case IndexError => IndexError
      case Found(c) => Found(c.state)
  }

  /** What one probe adds to the count: 1 for an occupied cell, 0 for an
      empty one, and 0 when the lookup raises IndexError (caught and ignored). */
  function Probe(g: Board, ny: int, nx: int): (p: nat)
    ensures p <= 1
    ensures p == 1 <==> StateAt(g, ny, nx) == Found(Occupied)
  {
    match StateAt(g, ny, nx)
    case Found(s) => Value(s)
    case IndexError => 0
  }

  /** The value of `neighbors` after the first `k` directions have been visited. */
  function CountPrefix(g: Board, y: int, x: int, k: nat): int
    requires k <= |Directions|
  {
    if k == 0 then 0
    else CountPrefix(g, y, x, k - 1) + Probe(g, y + Directions[k - 1].0, x + Directions[k - 1].1)
  }

  /** The number `count_neighbors` returns for a cell whose own coordinates are (x, y). */
  function Count(g: Board, y: int, x: int): int
  {
    CountPrefix(g, y, x, |Directions|)
  }

  /** The count written out as the sum of its eight probes. */
  lemma CountUnrolled(g: Board, y: int, x: int)
    ensures Count(g, y, x) ==
      Probe(g, y - 1, x - 1) + Probe(g, y - 1, x) + Probe(g, y - 1, x + 1) +
      Probe(g, y, x - 1) + Probe(g, y, x + 1) +
      Probe(g, y + 1, x - 1) + Probe(g, y + 1, x) + Probe(g, y + 1, x + 1)
  {
    CountFirstRowUnrolled(g, y, x);
    assert CountPrefix(g, y, x, 5) == CountPrefix(g, y, x, 4) + Probe(g, y, x + 1);
    assert CountPrefix(g, y, x, 6) == CountPrefix(g, y, x, 5) + Probe(g, y + 1, x - 1);
    assert CountPrefix(g, y, x, 7) == CountPrefix(g, y, x, 6) + Probe(g, y + 1, x);
  }

  /** The first four offsets: the row above and the left neighbour. */
  lemma CountFirstRowUnrolled(g: Board, y: int, x: int)
    ensures CountPrefix(g, y, x, 4) ==
      Probe(g, y - 1, x - 1) + Probe(g, y - 1, x) + Probe(g, y - 1, x + 1) + Probe(g, y, x - 1)
  {
    assert CountPrefix(g, y, x, 1) == Probe(g, y - 1, x - 1);
    assert CountPrefix(g, y, x, 2) == CountPrefix(g, y, x, 1) + Probe(g, y - 1, x);
    assert CountPrefix(g, y, x, 3) == CountPrefix(g, y, x, 2) + Probe(g, y - 1, x + 1);
  }

  /** The count is an integer in [0, 8]. */
  lemma CountBounds(g: Board, y: int, x: int)
    ensures 0 <= Count(g, y, x) <= 8
  {
    CountPrefixBounds(g, y, x, |Directions|);
  }

  lemma {:induction false} CountPrefixBounds(g: Board, y: int, x: int, k: nat)
    requires k <= |Directions|
    ensures 0 <= CountPrefix(g, y, x, k) <= k
  {
    if k > 0 {
      CountPrefixBounds(g, y, x, k - 1);
    }
  }

  /** Direction `k` finds an occupied cell. */
  ghost predicate LiveDirection(g: Board, y: int, x: int, k: nat)
    requires k < |Directions|
  {
    StateAt(g, y + Directions[k].0, x + Directions[k].1) == Found(Occupied)
  }

  /** The indices of the directions among the first `n` whose lookup finds an occupied cell. */
  ghost function LiveDirections(g: Board, y: int, x: int, n: nat): set<nat>
    requires n <= |Directions|
  {
    set k: nat | k < n && LiveDirection(g, y, x, k)
  }

  /** Extending the range of a filter by one index adds that index when it passes. */
  lemma FilterStep(n: nat, p: nat -> bool)
    ensures |set k: nat | k < n + 1 && p(k)| == |set k: nat | k < n && p(k)| + if p(n) then 1 else 0
  {
    var before := set k: nat | k < n && p(k);
    var after := set k: nat | k < n + 1 && p(k);
    if p(n) {
      assert after == before + {n};
    } else {
      assert after == before;
    }
  }

  lemma LiveDirectionsStep(g: Board, y: int, x: int, n: nat)
    requires 0 < n <= |Directions|
    ensures |LiveDirections(g, y, x, n)|
      == |LiveDirections(g, y, x, n - 1)| + if LiveDirection(g, y, x, n - 1) then 1 else 0
  {
    var p := (k: nat) => k < |Directions| && LiveDirection(g, y, x, k);
    FilterStep(n - 1, p);
    assert LiveDirections(g, y, x, n) == set k: nat | k < n && p(k);
    assert LiveDirections(g, y, x, n - 1) == set k: nat | k < n - 1 && p(k);
  }

  lemma {:induction false} CountPrefixIsLiveDirections(g: Board, y: int, x: int, n: nat)
    requires n <= |Directions|
    ensures CountPrefix(g, y, x, n) == |LiveDirections(g, y, x, n)|
  {
    if n > 0 {
      CountPrefixIsLiveDirections(g, y, x, n - 1);
      LiveDirectionsStep(g, y, x, n);
    }
  }

  /** The count is exactly the number of directions whose lookup, done
      Python's way, succeeds and finds an occupied cell. */
  lemma CountIsLiveDirections(g: Board, y: int, x: int)
    ensures Count(g, y, x) == |LiveDirections(g, y, x, |Directions|)|
  {
    CountPrefixIsLiveDirections(g, y, x, |Directions|);
  }

  /** Row index `height` and column index `width` raise IndexError, so a
      neighbour past the bottom or the right edge contributes nothing; this
      holds too on the row that index -1 selects. */
  lemma PastBottomOrRightContributesNothing(g: Board, ny: int, nx: int)
    requires ny >= |g| || (-|g| <= ny < |g| && nx >= |g[PyIndex(|g|, ny)]|)
    ensures StateAt(g, ny, nx) == IndexError && Probe(g, ny, nx) == 0
  {
  }

  /** Row index -1 reads the last row and column index -1 the last cell of
      the row, so a neighbour above row 0 or left of column 0 comes from the
      opposite edge and can contribute. */
  lemma MinusOneWrapsAround(g: Board, nx: int)
    requires |g| > 0
    ensures StateAt(g, -1, nx) == StateAt(g, |g| - 1, nx)
    ensures 0 <= nx < |g[|g| - 1]| ==> Probe(g, -1, nx) == Value(g[|g| - 1][nx].state)
    ensures forall row :: 0 <= row < |g| && |g[row]| > 0 ==>
      StateAt(g, row, -1) == Found(g[row][|g[row]| - 1].state)
  {
  }

  // ---------------------------------------------------------------------
  // The edge policy of a hard-edged grid, as a reference

  /** A neighbour counts on a hard-edged grid when its position lies inside
      the grid and its cell is occupied. */
  ghost predicate LiveInside(g: Board, ny: int, nx: int)
  {
    0 <= ny < |g| && 0 <= nx < |g[ny]| && g[ny][nx].state == Occupied
  }

  /** The directions a hard-edged grid would count. */
  ghost function HardEdgeDirections(g: Board, y: int, x: int): set<nat>
  {
    set k: nat | k < |Directions| && LiveInside(g, y + Directions[k].0, x + Directions[k].1)
  }

  /** Away from row 0 and column 0 every subscript is non-negative, so the
      count agrees with a hard-edged grid: exactly the occupied neighbours
      that lie inside the grid are counted. */
  lemma CountAwayFromTopLeftIsHardEdge(g: Board, y: int, x: int)
    requires y >= 1 && x >= 1
    ensures Count(g, y, x) == |HardEdgeDirections(g, y, x)|
  {
    CountIsLiveDirections(g, y, x);
    var live, inside := LiveDirections(g, y, x, |Directions|), HardEdgeDirections(g, y, x);
    forall k: nat ensures k in live <==> k in inside {
      if k < |Directions| {
        NonNegativeLookupIsHardEdge(g, y + Directions[k].0, x + Directions[k].1);
      }
    }
    assert live == inside;
  }

  lemma NonNegativeLookupIsHardEdge(g: Board, ny: int, nx: int)
    requires ny >= 0 && nx >= 0
    ensures StateAt(g, ny, nx) == Found(Occupied) <==> LiveInside(g, ny, nx)
  {
  }

  // ---------------------------------------------------------------------
  // The transition rules (`Grid.tick`)

  /** The rule table of the file header, as a reference: a live cell survives
      with 2 or 3 neighbours, a dead cell is born with exactly 3. */
  function NextState(s: State, n: int): (r: State)
    ensures s == Occupied ==> (r == Occupied <==> n == 2 || n == 3)
    ensures s == Empty ==> (r == Occupied <==> n == 3)
  {
    if n == 3 || (s == Occupied && n == 2) then Occupied else Empty
  }

  /** `new_cell` for the cell at row i, column j, as the branches of `tick`
      choose it: the old cell is reused when its state does not change, and
      otherwise a fresh Cell(j, i, ...) is made. The count is taken at the
      cell's own coordinates, as `count_neighbors(cell)` does. */
  function NextCell(g: Board, i: int, j: int, cell: Cell): (c: Cell)
    ensures c.state == NextState(cell.state, Count(g, cell.y, cell.x))
    ensures c == if c.state == cell.state then cell else Cell(j, i, c.state)
  {
    var n := Count(g, cell.y, cell.x);
    if cell.state == Occupied then
      if n < 2 then Cell(j, i, Empty)
      else if n == 2 || n == 3 then cell
      else Cell(j, i, Empty)
    else if n == 3 then Cell(j, i, Occupied)
    else cell
  }

  /** The grid `tick` returns: every row and cell of `g` replaced by its
      successor, each computed against `g` alone. */
  function NextGrid(g: Board): (r: Board)
    ensures |r| == |g|
  {
    seq(|g|, i requires 0 <= i < |g| =>
      seq(|g[i]|, j requires 0 <= j < |g[i]| => NextCell(g, i, j, g[i][j])))
  }

  /** Every row of the next generation is as long as the matching row of the
      current one, whatever the shape of the grid. */
  lemma TickKeepsRowLengths(g: Board)
    ensures forall i :: 0 <= i < |g| ==> |NextGrid(g)[i]| == |g[i]|
  {
  }

  /** `tick` keeps the number of rows and the length of every row. */
  lemma TickKeepsShape(g: Board, h: nat, w: nat)
    requires Rectangular(g, h, w)
    ensures Rectangular(NextGrid(g), h, w)
  {
  }

  /** `tick` keeps every cell at its own coordinates. */
  lemma TickKeepsCoords(g: Board)
    requires CoordsConsistent(g)
    ensures CoordsConsistent(NextGrid(g))
  {
    var r: Board := NextGrid(g);
    forall i: int, j: int | 0 <= i < |r| && 0 <= j < |r[i]|
      ensures r[i][j].y == i && r[i][j].x == j
    {
      assert r[i][j] == NextCell(g, i, j, g[i][j]);
    }
  }

  /** On a grid whose cells know their positions, each cell's next state is
      the rule table applied to the neighbour count at its position in the
      old generation. */
  lemma TickRule(g: Board, i: int, j: int)
    requires CoordsConsistent(g)
    requires 0 <= i < |g| && 0 <= j < |g[i]|
    ensures NextGrid(g)[i][j].state == NextState(g[i][j].state, Count(g, i, j))
    ensures g[i][j].state == Occupied ==>
      (NextGrid(g)[i][j].state == Occupied <==> Count(g, i, j) == 2 || Count(g, i, j) == 3)
    ensures g[i][j].state == Empty ==>
      (NextGrid(g)[i][j].state == Occupied <==> Count(g, i, j) == 3)
  {
    assert NextGrid(g)[i][j] == NextCell(g, i, j, g[i][j]);
  }

  lemma {:induction false} EmptyCountPrefix(g: Board, y: int, x: int, k: nat)
    requires AllEmpty(g)
    requires k <= |Directions|
    ensures CountPrefix(g, y, x, k) == 0
  {
    if k > 0 {
      EmptyCountPrefix(g, y, x, k - 1);
      var ny, nx := y + Directions[k - 1].0, x + Directions[k - 1].1;
      match StateAt(g, ny, nx)
      case IndexError =>
      case Found(s) =>
        var i := if 0 <= ny < |g| then ny else |g| + ny;
        var j := if 0 <= nx < |g[i]| then nx else |g[i]| + nx;
        assert s == g[i][j].state;
    }
  }

  /** An all-Empty grid ticks to an all-Empty grid: every count is 0, and a
      dead cell needs exactly 3 to be born. */
  lemma EmptyStaysEmpty(g: Board)
    requires AllEmpty(g)
    ensures AllEmpty(NextGrid(g))
  {
    var r: Board := NextGrid(g);
    forall i: int, j: int | 0 <= i < |r| && 0 <= j < |r[i]|
      ensures r[i][j].state == Empty
    {
      var c := g[i][j];
      EmptyCountPrefix(g, c.y, c.x, |Directions|);
      assert r[i][j] == NextCell(g, i, j, c);
    }
  }

  // ---------------------------------------------------------------------
  // Liveness (`Grid.is_alive`)

  /** `[[c.state for c in row] for row in grid]`. */
  function States(g: Board): (rows: seq<seq<int>>)
    ensures |rows| == |g|
    ensures forall i :: 0 <= i < |g| ==> |rows[i]| == |g[i]|
    ensures forall i, j :: 0 <= i < |g| && 0 <= j < |g[i]| ==>
      (rows[i][j] == 0 || rows[i][j] == 1) && (rows[i][j] == 1 <==> g[i][j].state == Occupied)
  {
    seq(|g|, i requires 0 <= i < |g| => seq(|g[i]|, j requires 0 <= j < |g[i]| => Value(g[i][j].state)))
  }

  /** `sum(rows, [])`: the rows concatenated, first to last; a value occurs
      in the result exactly when it occurs in some row. */
  function Concat(rows: seq<seq<int>>): (flat: seq<int>)
    ensures forall v :: v in flat <==> exists i :: 0 <= i < |rows| && v in rows[i]
  {
    if rows == [] then []
    else
      var front := rows[..|rows| - 1];
      assert forall i :: 0 <= i < |front| ==> front[i] == rows[i];
      Concat(front) + rows[|rows| - 1]
  }

  /** `sum(s)`: over a list of 0s and 1s it is non-negative, and positive
      exactly when some 1 is present. */
  function Sum(s: seq<int>): (total: int)
    ensures (forall k :: 0 <= k < |s| ==> s[k] == 0 || s[k] == 1) ==> total >= 0 && (total > 0 <==> 1 in s)
  {
    if s == [] then 0
    else
      assert 1 in s <==> s[0] == 1 || 1 in s[1..];
      s[0] + Sum(s[1..])
  }

  /** The states are 0 or 1, so their flattened sum is positive exactly when
      some cell is Occupied. */
  lemma FlatSumPositive(g: Board)
    ensures Sum(Concat(States(g))) > 0 <==> HasOccupied(g)
  {
    var rows := States(g);
    var flat := Concat(rows);
    forall k | 0 <= k < |flat| ensures flat[k] == 0 || flat[k] == 1 {
      assert flat[k] in flat;
    }
    if HasOccupied(g) {
      var i, j :| 0 <= i < |g| && 0 <= j < |g[i]| && g[i][j].state == Occupied;
      assert rows[i][j] == 1;
      assert 1 in rows[i];
    }
    if 1 in flat {
      var i :| 0 <= i < |rows| && 1 in rows[i];
      var j :| 0 <= j < |rows[i]| && rows[i][j] == 1;
      assert g[i][j].state == Occupied;
    }
  }

  /** `is_alive`: the flattened states add up to more than 0, which holds
      exactly when some cell is Occupied, and fails exactly when every cell
      is Empty. */
  function IsAlive(g: Board): (alive: bool)
    ensures alive <==> HasOccupied(g)
    ensures !alive <==> AllEmpty(g)
  {
    FlatSumPositive(g);
    Sum(Concat(States(g))) > 0
  }

  // ---------------------------------------------------------------------
  // Generations (`Grid.run`)

  /** The grid after `n` ticks. */
  function Evolve(g: Board, n: nat): Board
  {
    if n == 0 then g else NextGrid(Evolve(g, n - 1))
  }

  /** Generations compose: m + n ticks of `g` are n ticks of generation m. */
  lemma {:induction false} EvolveAdd(g: Board, m: nat, n: nat)
    ensures Evolve(g, m + n) == Evolve(Evolve(g, m), n)
  {
    if n > 0 {
      EvolveAdd(g, m, n - 1);
    }
  }

  lemma OccupiedThrough(g: Board, n: nat)
    requires forall k :: 0 <= k < n ==> HasOccupied(Evolve(g, k))
    requires HasOccupied(Evolve(g, n))
    ensures forall k :: 0 <= k < n + 1 ==> HasOccupied(Evolve(g, k))
  {
  }

  /** A grid that is no longer alive stays dead for every later generation. */
  lemma {:induction false} ExtinctForever(g: Board, n: nat)
    requires !IsAlive(g)
    ensures !IsAlive(Evolve(g, n)) && AllEmpty(Evolve(g, n))
  {
    if n > 0 {
      ExtinctForever(g, n - 1);
      EmptyStaysEmpty(Evolve(g, n - 1));
    }
  }

  /** Every generation of a well-formed grid is well-formed. */
  lemma {:induction false} EvolveKeepsWellFormed(g: Board, height: int, width: int, n: nat)
    requires WellFormed(g, height, width)
    ensures WellFormed(Evolve(g, n), height, width)
  {
    if n > 0 {
      EvolveKeepsWellFormed(g, height, width, n - 1);
      TickKeepsShape(Evolve(g, n - 1), RangeLen(height), RangeLen(width));
      TickKeepsCoords(Evolve(g, n - 1));
    }
  }
}

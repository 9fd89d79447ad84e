/** Small configurations whose next generations are proved: the classic still life and
    oscillator, and the corner cases that show how the Python lookups treat
    the four edges differently. */
module Patterns {
  import opened Life

  /** An h-by-w grid laid out as `_init` lays it out, occupied exactly at the
      (row, column) pairs in `live`. */
  function Pattern(h: nat, w: nat, live: set<(int, int)>): Board
  {
    Seeded(h, w, (i, j) => if (i, j) in live then Occupied else Empty)
  }

  /** What a probe into a pattern adds: 1 exactly when both subscripts are
      legal in Python and land on a live position, reading a negative index
      from the end. */
  function PatternProbeValue(h: nat, w: nat, live: set<(int, int)>, ny: int, nx: int): nat
  {
    var row: int := if ny < 0 then h + ny else ny;
    var col: int := if nx < 0 then w + nx else nx;
    if -(h as int) <= ny < h && -(w as int) <= nx < w && (row, col) in live then 1 else 0
  }

  lemma PatternProbe(h: nat, w: nat, live: set<(int, int)>, ny: int, nx: int)
    ensures Probe(Pattern(h, w, live), ny, nx) == PatternProbeValue(h, w, live, ny, nx)
  {
  }

  /** The count at (y, x) of a pattern, as eight membership tests. */
  lemma PatternCount(h: nat, w: nat, live: set<(int, int)>, y: int, x: int)
    ensures Count(Pattern(h, w, live), y, x) ==
      PatternProbeValue(h, w, live, y - 1, x - 1) + PatternProbeValue(h, w, live, y - 1, x) +
      PatternProbeValue(h, w, live, y - 1, x + 1) + PatternProbeValue(h, w, live, y, x - 1) +
      PatternProbeValue(h, w, live, y, x + 1) + PatternProbeValue(h, w, live, y + 1, x - 1) +
      PatternProbeValue(h, w, live, y + 1, x) + PatternProbeValue(h, w, live, y + 1, x + 1)
  {
    CountUnrolled(Pattern(h, w, live), y, x);
    PatternProbe(h, w, live, y - 1, x - 1);
    PatternProbe(h, w, live, y - 1, x);
    PatternProbe(h, w, live, y - 1, x + 1);
    PatternProbe(h, w, live, y, x - 1);
    PatternProbe(h, w, live, y, x + 1);
    PatternProbe(h, w, live, y + 1, x - 1);
    PatternProbe(h, w, live, y + 1, x);
    PatternProbe(h, w, live, y + 1, x + 1);
  }

  /** When a well-formed target agrees in every state with the rule table
      applied to the counts of `g`, `tick` yields exactly that target: a cell
      whose state does not change is reused, any other is rebuilt at its
      own coordinates. */
  lemma TickYields(g: Board, t: Board)
    requires CoordsConsistent(g) && CoordsConsistent(t)
    requires |t| == |g| && forall i :: 0 <= i < |g| ==> |t[i]| == |g[i]|
    requires forall i, j :: 0 <= i < |g| && 0 <= j < |g[i]| ==>
      t[i][j].state == NextState(g[i][j].state, Count(g, i, j))
    ensures NextGrid(g) == t
  {
    var r: Board := NextGrid(g);
    forall i | 0 <= i < |g| ensures r[i] == t[i] {
      forall j | 0 <= j < |g[i]| ensures r[i][j] == t[i][j] {
        TickRule(g, i, j);
        assert r[i][j] == NextCell(g, i, j, g[i][j]);
      }
    }
  }

  /** A pattern ticks to the pattern whose live positions are exactly those
      where the rule table, applied to the old counts, gives Occupied. */
  lemma PatternTick(h: nat, w: nat, live: set<(int, int)>, next: set<(int, int)>)
    requires forall i, j :: 0 <= i < h && 0 <= j < w ==>
      ((i, j) in next <==>
        NextState(if (i, j) in live then Occupied else Empty, Count(Pattern(h, w, live), i, j)) == Occupied)
    ensures NextGrid(Pattern(h, w, live)) == Pattern(h, w, next)
  {
    var g: Board, t: Board := Pattern(h, w, live), Pattern(h, w, next);
    forall i: int, j: int | 0 <= i < |g| && 0 <= j < |g[i]|
      ensures t[i][j].state == NextState(g[i][j].state, Count(g, i, j))
    {
    }
    TickYields(g, t);
  }

  const BlockCells: set<(int, int)> := {(1, 1), (1, 2), (2, 1), (2, 2)}

  /** The 2x2 block inside a 4x4 grid is a still life, even though row 0 and
      column 0 look across to the opposite edge. */
  lemma BlockIsStillLife()
    ensures NextGrid(Pattern(4, 4, BlockCells)) == Pattern(4, 4, BlockCells)
    ensures Evolve(Pattern(4, 4, BlockCells), 5) == Pattern(4, 4, BlockCells)
  {
    forall i, j | 0 <= i < 4 && 0 <= j < 4
      ensures (i, j) in BlockCells <==>
        NextState(if (i, j) in BlockCells then Occupied else Empty, Count(Pattern(4, 4, BlockCells), i, j)) == Occupied
    {
      BlockCell(i, j);
    }
    PatternTick(4, 4, BlockCells, BlockCells);
  }

  lemma BlockCell(i: int, j: int)
    requires 0 <= i < 4 && 0 <= j < 4
    ensures (i, j) in BlockCells <==>
      NextState(if (i, j) in BlockCells then Occupied else Empty, Count(Pattern(4, 4, BlockCells), i, j)) == Occupied
  {
    PatternCount(4, 4, BlockCells, i, j);
    if i == 0 {
      if j == 0 {} else if j == 1 {} else if j == 2 {} else {}
    } else if i == 1 {
      if j == 0 {} else if j == 1 {} else if j == 2 {} else {}
    } else if i == 2 {
      if j == 0 {} else if j == 1 {} else if j == 2 {} else {}
    } else {
      if j == 0 {} else if j == 1 {} else if j == 2 {} else {}
    }
  }

  const Horizontal: set<(int, int)> := {(2, 1), (2, 2), (2, 3)}
  const Vertical: set<(int, int)> := {(1, 2), (2, 2), (3, 2)}

  /** The blinker in a 5x5 grid: the horizontal line turns vertical, the
      vertical line turns back, so the pattern has period 2. */
  lemma BlinkerOscillates()
    ensures NextGrid(Pattern(5, 5, Horizontal)) == Pattern(5, 5, Vertical)
    ensures NextGrid(Pattern(5, 5, Vertical)) == Pattern(5, 5, Horizontal)
    ensures Evolve(Pattern(5, 5, Horizontal), 2) == Pattern(5, 5, Horizontal)
  {
    HorizontalTurnsVertical();
    VerticalTurnsHorizontal();
  }

  lemma HorizontalTurnsVertical()
    ensures NextGrid(Pattern(5, 5, Horizontal)) == Pattern(5, 5, Vertical)
  {
    forall i, j | 0 <= i < 5 && 0 <= j < 5
      ensures (i, j) in Vertical <==>
        NextState(if (i, j) in Horizontal then Occupied else Empty, Count(Pattern(5, 5, Horizontal), i, j)) == Occupied
    {
      HorizontalCell(i, j);
    }
    PatternTick(5, 5, Horizontal, Vertical);
  }

  lemma VerticalTurnsHorizontal()
    ensures NextGrid(Pattern(5, 5, Vertical)) == Pattern(5, 5, Horizontal)
  {
    forall i, j | 0 <= i < 5 && 0 <= j < 5
      ensures (i, j) in Horizontal <==>
        NextState(if (i, j) in Vertical then Occupied else Empty, Count(Pattern(5, 5, Vertical), i, j)) == Occupied
    {
      VerticalCell(i, j);
    }
    PatternTick(5, 5, Vertical, Horizontal);
  }

  lemma HorizontalCell(i: int, j: int)
    requires 0 <= i < 5 && 0 <= j < 5
    ensures (i, j) in Vertical <==>
      NextState(if (i, j) in Horizontal then Occupied else Empty, Count(Pattern(5, 5, Horizontal), i, j)) == Occupied
  {
    if i == 0 {
      HorizontalCellTop(j);
    } else if i < 3 {
      HorizontalCellUpper(i, j);
    } else {
      HorizontalCellLower(i, j);
    }
  }

  lemma HorizontalCellTop(j: int)
    requires 0 <= j < 5
    ensures (0, j) in Vertical <==>
      NextState(if (0, j) in Horizontal then Occupied else Empty, Count(Pattern(5, 5, Horizontal), 0, j)) == Occupied
  {
    PatternCount(5, 5, Horizontal, 0, j);
    if j == 0 {} else if j == 1 {} else if j == 2 {} else if j == 3 {} else {}
  }

  lemma HorizontalCellUpper(i: int, j: int)
    requires 1 <= i < 3 && 0 <= j < 5
    ensures (i, j) in Vertical <==>
      NextState(if (i, j) in Horizontal then Occupied else Empty, Count(Pattern(5, 5, Horizontal), i, j)) == Occupied
  {
    PatternCount(5, 5, Horizontal, i, j);
    if i == 1 {
      if j == 0 {} else if j == 1 {} else if j == 2 {} else if j == 3 {} else {}
    } else {
      if j == 0 {} else if j == 1 {} else if j == 2 {} else if j == 3 {} else {}
    }
  }

  lemma HorizontalCellLower(i: int, j: int)
    requires 3 <= i < 5 && 0 <= j < 5
    ensures (i, j) in Vertical <==>
      NextState(if (i, j) in Horizontal then Occupied else Empty, Count(Pattern(5, 5, Horizontal), i, j)) == Occupied
  {
    PatternCount(5, 5, Horizontal, i, j);
    if i == 3 {
      if j == 0 {} else if j == 1 {} else if j == 2 {} else if j == 3 {} else {}
    } else {
      if j == 0 {} else if j == 1 {} else if j == 2 {} else if j == 3 {} else {}
    }
  }

  lemma VerticalCell(i: int, j: int)
    requires 0 <= i < 5 && 0 <= j < 5
    ensures (i, j) in Horizontal <==>
      NextState(if (i, j) in Vertical then Occupied else Empty, Count(Pattern(5, 5, Vertical), i, j)) == Occupied
  {
    if i == 0 {
      VerticalCellTop(j);
    } else if i < 3 {
      VerticalCellUpper(i, j);
    } else {
      VerticalCellLower(i, j);
    }
  }

  lemma VerticalCellTop(j: int)
    requires 0 <= j < 5
    ensures (0, j) in Horizontal <==>
      NextState(if (0, j) in Vertical then Occupied else Empty, Count(Pattern(5, 5, Vertical), 0, j)) == Occupied
  {
    PatternCount(5, 5, Vertical, 0, j);
    if j == 0 {} else if j == 1 {} else if j == 2 {} else if j == 3 {} else {}
  }

  lemma VerticalCellUpper(i: int, j: int)
    requires 1 <= i < 3 && 0 <= j < 5
    ensures (i, j) in Horizontal <==>
      NextState(if (i, j) in Vertical then Occupied else Empty, Count(Pattern(5, 5, Vertical), i, j)) == Occupied
  {
    PatternCount(5, 5, Vertical, i, j);
    if i == 1 {
      if j == 0 {} else if j == 1 {} else if j == 2 {} else if j == 3 {} else {}
    } else {
      if j == 0 {} else if j == 1 {} else if j == 2 {} else if j == 3 {} else {}
    }
  }

  lemma VerticalCellLower(i: int, j: int)
    requires 3 <= i < 5 && 0 <= j < 5
    ensures (i, j) in Horizontal <==>
      NextState(if (i, j) in Vertical then Occupied else Empty, Count(Pattern(5, 5, Vertical), i, j)) == Occupied
  {
    PatternCount(5, 5, Vertical, i, j);
    if i == 3 {
      if j == 0 {} else if j == 1 {} else if j == 2 {} else if j == 3 {} else {}
    } else {
      if j == 0 {} else if j == 1 {} else if j == 2 {} else if j == 3 {} else {}
    }
  }

  /** A lone live cell in the middle of a 3x3 grid has no live neighbour and
      dies, leaving the grid empty. */
  lemma LoneCellDies()
    ensures NextGrid(Pattern(3, 3, {(1, 1)})) == Pattern(3, 3, {})
    ensures IsAlive(Pattern(3, 3, {(1, 1)})) && !IsAlive(NextGrid(Pattern(3, 3, {(1, 1)})))
  {
    forall i, j | 0 <= i < 3 && 0 <= j < 3
      ensures (i, j) in {} <==>
        NextState(if (i, j) in {(1, 1)} then Occupied else Empty, Count(Pattern(3, 3, {(1, 1)}), i, j)) == Occupied
    {
      LoneCell(i, j);
    }
    PatternTick(3, 3, {(1, 1)}, {});
    var g: Board := Pattern(3, 3, {(1, 1)});
    assert g[1][1].state == Occupied;
    assert AllEmpty(Pattern(3, 3, {}));
  }

  lemma LoneCell(i: int, j: int)
    requires 0 <= i < 3 && 0 <= j < 3
    ensures NextState(if (i, j) in {(1, 1)} then Occupied else Empty, Count(Pattern(3, 3, {(1, 1)}), i, j)) == Empty
  {
    PatternCount(3, 3, {(1, 1)}, i, j);
    if i == 0 {
      if j == 0 {} else if j == 1 {} else {}
    } else if i == 1 {
      if j == 0 {} else if j == 1 {} else {}
    } else {
      if j == 0 {} else if j == 1 {} else {}
    }
  }

  /** On a 1x1 grid the only cell is its own neighbour three times over:
      row -1 and column -1 both read it back, so a lone live cell counts 3
      and survives, where a hard-edged grid would let it die. */
  lemma OneByOneCountsItself()
    ensures Count(Pattern(1, 1, {(0, 0)}), 0, 0) == 3
    ensures |HardEdgeDirections(Pattern(1, 1, {(0, 0)}), 0, 0)| == 0
    ensures NextGrid(Pattern(1, 1, {(0, 0)})) == Pattern(1, 1, {(0, 0)})
  {
    var g: Board := Pattern(1, 1, {(0, 0)});
    PatternCount(1, 1, {(0, 0)}, 0, 0);
    forall k: nat | k < |Directions|
      ensures !LiveInside(g, 0 + Directions[k].0, 0 + Directions[k].1)
    {
    }
    assert HardEdgeDirections(g, 0, 0) == {};
    PatternTick(1, 1, {(0, 0)}, {(0, 0)});
  }

  /** The wrap-around goes one way only: in a 3x3 grid the top-left cell
      sees a live bottom-right cell (through index -1), but the bottom-right
      cell does not see a live top-left cell (index 3 raises IndexError). */
  lemma WrapIsOneWay()
    ensures Count(Pattern(3, 3, {(2, 2)}), 0, 0) == 1
    ensures Count(Pattern(3, 3, {(0, 0)}), 2, 2) == 0
  {
    PatternCount(3, 3, {(2, 2)}, 0, 0);
    PatternCount(3, 3, {(0, 0)}, 2, 2);
  }
}

/** The tile grid shared by the maze generator, the pathfinder and the game:
    a row-major list of rows, `g[y][x]`, where 1 is a wall and 0 is floor. */
module Grid {

  /** Side of a tile in pixels; also the side of every moving box. */
  const TILE: int := 32
  const MAP_W: int := 41
  const MAP_H: int := 31

  type Cell = (int, int)
  type Tiles = seq<seq<int>>

  datatype Option<T> = None | Some(value: T)

  /** A grid with at least one row and rows of equal length. */
  predicate Rectangular(g: Tiles)
  {
    |g| > 0 && forall y :: 0 <= y < |g| ==> |g[y]| == |g[0]|
  }

  function Width(g: Tiles): int
    requires |g| > 0
  {
    |g[0]|
  }

  function Height(g: Tiles): int
  {
    |g|
  }

  predicate InBounds(g: Tiles, c: Cell)
    requires Rectangular(g)
  {
    0 <= c.0 < Width(g) && 0 <= c.1 < Height(g)
  }

  /** The cell holds 0: the pathfinder walks on it. */
  predicate Floor(g: Tiles, c: Cell)
    requires Rectangular(g)
  {
    InBounds(g, c) && g[c.1][c.0] == 0
  }

  /** The cell holds 1: a moving box may not overlap it. */
  predicate Wall(g: Tiles, c: Cell)
    requires Rectangular(g)
  {
    InBounds(g, c) && g[c.1][c.0] == 1
  }

  function Plus(c: Cell, d: Cell): Cell
  {
    (c.0 + d.0, c.1 + d.1)
  }

  /** 4-neighbourhood. */
  predicate Adjacent(a: Cell, b: Cell)
  {
    (a.0 == b.0 && (a.1 - b.1 == 1 || b.1 - a.1 == 1)) ||
    (a.1 == b.1 && (a.0 - b.0 == 1 || b.0 - a.0 == 1))
  }

  /** A walk: a non-empty sequence of cells, each 4-adjacent to the one before,
      every cell after the first an in-bounds floor cell. The first cell is where
      a walker stands, which nothing forces to be floor. */
  ghost predicate IsWalk(g: Tiles, w: seq<Cell>)
    requires Rectangular(g)
  {
    |w| > 0 &&
    (forall i :: 0 < i < |w| ==> Floor(g, w[i])) &&
    (forall i :: 0 < i < |w| ==> Adjacent(w[i - 1], w[i]))
  }

  /** There is a walk from `s` to `t`. */
  ghost predicate Reachable(g: Tiles, s: Cell, t: Cell)
    requires Rectangular(g)
  {
    exists w :: IsWalk(g, w) && w[0] == s && w[|w| - 1] == t
  }

  /** Every floor cell can be walked to from root. */
  ghost predicate Connected(g: Tiles, root: Cell)
    requires Rectangular(g)
  {
    forall c :: Floor(g, c) ==> Reachable(g, root, c)
  }

  /** Every in-bounds floor cell. */
  function FloorCells(g: Tiles): (cs: set<Cell>)
    requires Rectangular(g)
    ensures forall c :: c in cs <==> Floor(g, c)
  {
    set x, y | 0 <= x < Width(g) && 0 <= y < Height(g) && g[y][x] == 0 :: (x, y)
  }

  /** `g` with the cell `c` set to `v`. */
  function SetCell(g: Tiles, c: Cell, v: int): (r: Tiles)
    requires Rectangular(g) && InBounds(g, c)
    ensures Rectangular(r) && Width(r) == Width(g) && Height(r) == Height(g)
    ensures r[c.1][c.0] == v
    ensures forall d :: InBounds(g, d) && d != c ==> r[d.1][d.0] == g[d.1][d.0]
  {
    g[c.1 := g[c.1][c.0 := v]]
  }

  /** A walk extended by a floor cell next to its end is a walk. */
  lemma WalkExtend(g: Tiles, w: seq<Cell>, c: Cell)
    requires Rectangular(g) && IsWalk(g, w)
    requires Floor(g, c) && Adjacent(w[|w| - 1], c)
    ensures IsWalk(g, w + [c])
  {
    var w' := w + [c];
    assert forall i :: 0 <= i < |w| ==> w'[i] == w[i];
  }

  /** A walk whose first cell is floor, preceded by a cell adjacent to it, is a walk. */
  lemma WalkPrepend(g: Tiles, p: Cell, w: seq<Cell>)
    requires Rectangular(g) && IsWalk(g, w)
    requires Floor(g, w[0]) && Adjacent(p, w[0])
    ensures IsWalk(g, [p] + w)
  {
    var w' := [p] + w;
    assert forall i :: 0 < i < |w'| ==> w'[i] == w[i - 1];
  }

  /** A walk stays a walk when the floor grows. */
  lemma WalkMonotone(g: Tiles, g': Tiles, w: seq<Cell>)
    requires Rectangular(g) && Rectangular(g')
    requires forall c :: Floor(g, c) ==> Floor(g', c)
    requires IsWalk(g, w)
    ensures IsWalk(g', w)
  {
  }

  /** Reachability survives growing the floor. */
  lemma ReachMonotone(g: Tiles, g': Tiles, s: Cell, t: Cell)
    requires Rectangular(g) && Rectangular(g')
    requires forall c :: Floor(g, c) ==> Floor(g', c)
    requires Reachable(g, s, t)
    ensures Reachable(g', s, t)
  {
    var w :| IsWalk(g, w) && w[0] == s && w[|w| - 1] == t;
    WalkMonotone(g, g', w);
  }
}

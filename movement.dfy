/** Box-against-grid collision for the player: a TILE x TILE box moved one
    axis at a time, checked at its four corner pixels. */
module Movement {
  import opened Grid
  import opened Coords

  function Abs(n: int): int
  {
    if n < 0 then -n else n
  }

  /** Two TILE x TILE boxes with top-left pixels (x1, y1) and (x2, y2)
      intersect: pygame's `Rect.colliderect` for two rectangles of that size. */
  function Collide(x1: int, y1: int, x2: int, y2: int): (hit: bool)
    ensures hit <==> Abs(x1 - x2) < TILE && Abs(y1 - y2) < TILE
  {
    x1 < x2 + TILE && x2 < x1 + TILE && y1 < y2 + TILE && y2 < y1 + TILE
  }

  /** The box at (px, py) overlaps no in-bounds wall tile. Tiles outside the
      grid are not walls. */
  ghost predicate BoxClear(g: Tiles, px: int, py: int)
    requires Rectangular(g)
  {
    forall c :: Wall(g, c) ==> !Collide(px, py, c.0 * TILE, c.1 * TILE)
  }

  /** The pixel (cx, cy) lies in an in-bounds wall tile. */
  predicate PixelInWall(g: Tiles, cx: int, cy: int)
    requires Rectangular(g)
  {
    Wall(g, PixelToGrid(cx, cy))
  }

  /** One of the four corner pixels of the box at (nx, ny) lies in a wall. */
  predicate CornerInWall(g: Tiles, nx: int, ny: int)
    requires Rectangular(g)
  {
    PixelInWall(g, nx, ny) || PixelInWall(g, nx + TILE - 1, ny) ||
    PixelInWall(g, nx, ny + TILE - 1) || PixelInWall(g, nx + TILE - 1, ny + TILE - 1)
  }

  /** Moving the box from (px, py) by (dx, dy): the move is taken whole when
      the moved box overlaps no wall tile, and refused whole otherwise. So a
      box clear of walls stays clear, whatever the step. */
  function TryMove(g: Tiles, px: int, py: int, dx: int, dy: int): (r: (int, int))
    requires Rectangular(g)
    ensures r == if BoxClear(g, px + dx, py + dy) then (px + dx, py + dy) else (px, py)
    ensures BoxClear(g, px, py) ==> BoxClear(g, r.0, r.1)
  {
    var nx, ny := px + dx, py + dy;
    CornersDecideBox(g, nx, ny);
    if CornerInWall(g, nx, ny) then (px, py) else (nx, ny)
  }

  /** A tile whose span of TILE pixels meets the span [n, n + TILE - 1] is the
      tile of n or the tile of n + TILE - 1. */
  lemma SpanTiles(n: int, k: int)
    requires n < k * TILE + TILE && k * TILE < n + TILE
    ensures k == n / TILE || k == (n + TILE - 1) / TILE
  {
    var a, b := n / TILE, (n + TILE - 1) / TILE;
    assert a * TILE <= n < a * TILE + TILE;
    assert b * TILE <= n + TILE - 1 < b * TILE + TILE;
    assert a <= k <= b <= a + 1;
  }

  /** Sampling the four corners is exact for a TILE x TILE box: a corner lies
      in a wall exactly when the box overlaps a wall tile. */
  lemma CornersDecideBox(g: Tiles, nx: int, ny: int)
    requires Rectangular(g)
    ensures CornerInWall(g, nx, ny) <==> !BoxClear(g, nx, ny)
  {
    if CornerInWall(g, nx, ny) {
      var cx := if PixelInWall(g, nx, ny) || PixelInWall(g, nx, ny + TILE - 1) then nx else nx + TILE - 1;
      var cy := if PixelInWall(g, cx, ny) then ny else ny + TILE - 1;
      var c := PixelToGrid(cx, cy);
      assert Wall(g, c) && Collide(nx, ny, c.0 * TILE, c.1 * TILE);
    } else {
      forall c | Wall(g, c)
        ensures !Collide(nx, ny, c.0 * TILE, c.1 * TILE)
      {
        if Collide(nx, ny, c.0 * TILE, c.1 * TILE) {
          SpanTiles(nx, c.0);
          SpanTiles(ny, c.1);
        }
      }
    }
  }

  /** A box standing exactly on tile c is clear of walls iff c is not a wall. */
  lemma BoxOnTile(g: Tiles, c: Cell)
    requires Rectangular(g)
    ensures BoxClear(g, c.0 * TILE, c.1 * TILE) <==> !Wall(g, c)
  {
    if Wall(g, c) {
      assert Collide(c.0 * TILE, c.1 * TILE, c.0 * TILE, c.1 * TILE);
    } else {
      forall d | Wall(g, d)
        ensures !Collide(c.0 * TILE, c.1 * TILE, d.0 * TILE, d.1 * TILE)
      {
        if d.0 != c.0 {
          assert d.0 < c.0 ==> d.0 * TILE + TILE <= c.0 * TILE;
          assert d.0 > c.0 ==> c.0 * TILE + TILE <= d.0 * TILE;
        } else {
          assert d.1 != c.1;
          assert d.1 < c.1 ==> d.1 * TILE + TILE <= c.1 * TILE;
          assert d.1 > c.1 ==> c.1 * TILE + TILE <= d.1 * TILE;
        }
      }
    }
  }

  /** Corner pixels outside the grid never block: a move whose four corner
      tiles are all out of bounds is always taken. */
  lemma OffGridNeverBlocks(g: Tiles, px: int, py: int, dx: int, dy: int)
    requires Rectangular(g)
    requires forall cx, cy :: cx in {px + dx, px + dx + TILE - 1} && cy in {py + dy, py + dy + TILE - 1}
               ==> !InBounds(g, PixelToGrid(cx, cy))
    ensures TryMove(g, px, py, dx, dy) == (px + dx, py + dy)
  {
    var nx, ny := px + dx, py + dy;
    assert !InBounds(g, PixelToGrid(nx, ny));
    assert !InBounds(g, PixelToGrid(nx + TILE - 1, ny));
    assert !InBounds(g, PixelToGrid(nx, ny + TILE - 1));
    assert !InBounds(g, PixelToGrid(nx + TILE - 1, ny + TILE - 1));
    CornersDecideBox(g, nx, ny);
  }
}

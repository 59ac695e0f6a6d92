/** Conversion between pixel positions and tile coordinates. */
module Coords {
  import opened Grid

  /** The tile holding pixel (px, py). Dafny's `/` with a positive divisor is
      floor division, which is what the integer `//` of the game does. */
  function PixelToGrid(px: int, py: int): (c: Cell)
    ensures c.0 * TILE <= px < c.0 * TILE + TILE
    ensures c.1 * TILE <= py < c.1 * TILE + TILE
  {
    (px / TILE, py / TILE)
  }

  /** Top-left pixel of tile (gx, gy). */
  function GridToPixel(gx: int, gy: int): (p: (int, int))
    ensures p.0 % TILE == 0 && p.1 % TILE == 0
    ensures p.0 / TILE == gx && p.1 / TILE == gy
  {
    (gx * TILE, gy * TILE)
  }

  /** Converting a tile to pixels and back gives the tile again. */
  lemma GridPixelRoundTrip(gx: int, gy: int)
    ensures var p := GridToPixel(gx, gy); PixelToGrid(p.0, p.1) == (gx, gy)
  {
  }

  /** A pixel lies in the tile it converts to: between that tile's top-left
      pixel, inclusive, and the next tile's, exclusive. */
  lemma PixelGridFloor(px: int, py: int)
    ensures var c := PixelToGrid(px, py);
            var p := GridToPixel(c.0, c.1);
            p.0 <= px < p.0 + TILE && p.1 <= py < p.1 + TILE
  {
  }

  /** The tile a pixel converts to is the only tile whose span holds it. */
  lemma PixelToGridUnique(px: int, py: int, c: Cell)
    requires c.0 * TILE <= px < c.0 * TILE + TILE
    requires c.1 * TILE <= py < c.1 * TILE + TILE
    ensures PixelToGrid(px, py) == c
  {
  }
}

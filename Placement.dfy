/**
 * Placing a piece on the padded board (psolver.py:143-152): a free position
 * (r, s) of the interior view puts the mask's centre on board cell
 * (r + 2, s + 2).  The two-cell frame keeps the mask's bounding box inside
 * the board, and a free position covers only empty interior cells.
 */
module Placement {
  import opened Masks
  import opened Grids
  import opened Correlation

  /** A (rows+4) x (cols+4) board: at least the frame, every row as wide as the first. */
  predicate IsBoard(g: Grid)
  {
    |g| >= 4 && |g[0]| >= 4 && Rect(g, |g|, |g[0]|)
  }

  /** Every 1-cell of `m` centred on board cell (x, y) lies on an empty interior cell. */
  predicate Placeable(g: Grid, m: Mask, x: int, y: int)
    requires IsBoard(g)
  {
    var hw := HalfWidth(m);
    forall u, v :: 0 <= u < |m| && 0 <= v < |m| && m[u][v] == 1 ==>
      2 <= x + u - hw < |g| - 2 && 2 <= y + v - hw < |g[0]| - 2 && g[x + u - hw][y + v - hw] == 0
  }

  /** A position free on the interior view is a placement on the board, and back. */
  lemma FreeIsPlaceable(g: Grid, m: Mask, r: int, s: int)
    requires IsBoard(g)
    ensures FreeAt(Interior(g), m, r, s) <==> Placeable(g, m, r + 2, s + 2)
  {
    var bv := Interior(g);
    var hw := HalfWidth(m);
    if FreeAt(bv, m, r, s) {
      forall u, v | 0 <= u < |m| && 0 <= v < |m| && m[u][v] == 1
        ensures 2 <= r + 2 + u - hw < |g| - 2 && 2 <= s + 2 + v - hw < |g[0]| - 2
        ensures g[r + 2 + u - hw][s + 2 + v - hw] == 0
      {
        assert InGrid(bv, r + u - hw, s + v - hw);
      }
    }
    if Placeable(g, m, r + 2, s + 2) {
      forall u, v | 0 <= u < |m| && 0 <= v < |m| && m[u][v] == 1
        ensures InGrid(bv, r + u - hw, s + v - hw) && bv[r + u - hw][s + v - hw] == 0
      {
        assert 2 <= r + 2 + u - hw < |g| - 2;
      }
    }
  }

  /**
   * Centred on an interior cell, a mask of half-width at most 2 keeps its
   * bounding box inside the board, so the slice of psolver.py:151 has the
   * mask's shape; a placement covers only empty cells.
   */
  lemma PlaceableStamp(g: Grid, m: Mask, x: int, y: int)
    requires IsBoard(g) && 2 <= x < |g| - 2 && 2 <= y < |g[0]| - 2
    requires Placeable(g, m, x, y)
    ensures WindowFits(g, m, x, y) && CoversEmpty(g, m, x, y)
  {
    var hw := HalfWidth(m);
    forall x', y' | 0 <= x' < |g| && 0 <= y' < |g[x']| && Covers(m, x, y, x', y')
      ensures g[x'][y'] == 0
    {
      var u, v := x' - x + hw, y' - y + hw;
      assert m[u][v] == 1;
      assert x' == x + u - hw && y' == y + v - hw;
    }
  }

  /** A placement takes exactly its mask's 1-cells off the board's empty cells. */
  lemma PlaceableZeros(g: Grid, m: Mask, x: int, y: int, code: int)
    requires IsBoard(g) && Placeable(g, m, x, y) && code != 0
    ensures |Zeros(g)| == |Zeros(Stamped(g, m, x, y, code))| + Ones(m)
  {
    var hw := HalfWidth(m);
    forall c | c in Covered(m, x, y) ensures c in Zeros(g) {
      CoveredMember(m, x, y, c.0, c.1);
      var u, v := c.0 - x + hw, c.1 - y + hw;
      assert m[u][v] == 1;
      ZerosMember(g, c.0, c.1);
    }
    ZerosStamped(g, m, x, y, code);
  }
}

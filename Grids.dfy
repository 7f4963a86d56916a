/**
 * Value-level view of the solver's board: a grid of integers, indexed
 * `g[row][col]`.  The board array's methods (module Board) are specified by
 * the functions here.  Cell values: 0 empty, -1 visited by a flood fill,
 * anything else occupied (the frame value 1 or a piece code).
 */
module Grids {
  import opened Regions
  import opened Masks

  type Grid = seq<seq<int>>

  /** Visited marker written by the flood fill (psolver.py:86). */
  const Visited: int := -1

  predicate Rect(g: Grid, rows: nat, cols: nat)
  {
    |g| == rows && forall i :: 0 <= i < rows ==> |g[i]| == cols
  }

  predicate InGrid(g: Grid, x: int, y: int)
  {
    0 <= x < |g| && 0 <= y < |g[x]|
  }

  /** Two grids of the same shape that agree cell by cell are equal. */
  lemma GridExt(g: Grid, h: Grid)
    requires |g| == |h|
    requires forall i :: 0 <= i < |g| ==> |g[i]| == |h[i]|
    requires forall i, j :: 0 <= i < |g| && 0 <= j < |g[i]| ==> g[i][j] == h[i][j]
    ensures g == h
  {
    forall i | 0 <= i < |g| ensures g[i] == h[i] {
      assert |g[i]| == |h[i]|;
    }
  }

  /** The empty cells. */
  ghost function Zeros(g: Grid): set<Cell>
  {
    set x, y | 0 <= x < |g| && 0 <= y < |g[x]| && g[x][y] == 0 :: (x, y)
  }

  lemma ZerosMember(g: Grid, x: int, y: int)
    ensures (x, y) in Zeros(g) <==> InGrid(g, x, y) && g[x][y] == 0
  {
  }

  /** No cell holds a negative value (no visited markers either). */
  predicate NonNegative(g: Grid)
  {
    forall x, y :: 0 <= x < |g| && 0 <= y < |g[x]| ==> g[x][y] >= 0
  }

  /**
   * Empty cells lie at least `margin` cells away from every edge: with
   * margin 1 a flood fill never indexes outside the grid, with margin 2
   * every empty cell is one the region scan starts from.
   */
  predicate ZerosWithin(g: Grid, margin: nat)
  {
    forall x, y :: 0 <= x < |g| && 0 <= y < |g[x]| && g[x][y] == 0 ==>
      margin <= x < |g| - margin && margin <= y < |g[x]| - margin
  }

  /** `g` with the cells of `k` set to the visited marker. */
  function Marked(g: Grid, k: set<Cell>): (h: Grid)
    ensures |h| == |g| && forall x :: 0 <= x < |g| ==> |h[x]| == |g[x]|
  {
    seq(|g|, x requires 0 <= x < |g| =>
      seq(|g[x]|, y requires 0 <= y < |g[x]| => if (x, y) in k then Visited else g[x][y]))
  }

  /** `g` with every visited marker turned back into an empty cell. */
  function Reset(g: Grid): (h: Grid)
    ensures |h| == |g| && forall x :: 0 <= x < |g| ==> |h[x]| == |g[x]|
  {
    seq(|g|, x requires 0 <= x < |g| =>
      seq(|g[x]|, y requires 0 <= y < |g[x]| => if g[x][y] == Visited then 0 else g[x][y]))
  }

  lemma MarkedNothing(g: Grid)
    ensures Marked(g, {}) == g
  {
    GridExt(Marked(g, {}), g);
  }

  lemma MarkedTwice(g: Grid, a: set<Cell>, b: set<Cell>)
    ensures Marked(Marked(g, a), b) == Marked(g, a + b)
  {
    GridExt(Marked(Marked(g, a), b), Marked(g, a + b));
  }

  /** Marking empty cells removes exactly them from the empty cells. */
  lemma ZerosMarked(g: Grid, k: set<Cell>)
    requires k <= Zeros(g)
    ensures Zeros(Marked(g, k)) == Zeros(g) - k
  {
    forall c | c in Zeros(g) - k ensures c in Zeros(Marked(g, k)) {
      ZerosMember(g, c.0, c.1);
      ZerosMember(Marked(g, k), c.0, c.1);
    }
    forall c | c in Zeros(Marked(g, k)) ensures c in Zeros(g) - k {
      ZerosMember(g, c.0, c.1);
      ZerosMember(Marked(g, k), c.0, c.1);
    }
  }

  lemma ZerosMarkedWithin(g: Grid, k: set<Cell>, margin: nat)
    requires ZerosWithin(g, margin)
    ensures ZerosWithin(Marked(g, k), margin)
  {
  }

  /** Turning markers back also undoes any marking of empty cells. */
  lemma ResetMarkedAny(g: Grid, k: set<Cell>)
    requires k <= Zeros(g)
    ensures Reset(Marked(g, k)) == Reset(g)
  {
    forall x, y | 0 <= x < |g| && 0 <= y < |g[x]|
      ensures Reset(Marked(g, k))[x][y] == Reset(g)[x][y]
    {
      ZerosMember(g, x, y);
    }
    GridExt(Reset(Marked(g, k)), Reset(g));
  }

  /** A grid without visited markers is left exactly as it is. */
  lemma ResetUnmarked(g: Grid)
    requires NonNegative(g)
    ensures Reset(g) == g
  {
    GridExt(Reset(g), g);
  }

  /**
   * Cell (x, y) is under a 1-cell of `m` when the mask's centre sits on
   * (ioff, joff).
   */
  predicate Covers(m: Mask, ioff: int, joff: int, x: int, y: int)
  {
    var hw := HalfWidth(m);
    && 0 <= x - ioff + hw < |m|
    && 0 <= y - joff + hw < |m|
    && m[x - ioff + hw][y - joff + hw] == 1
  }

  /**
   * The grid after `b[ioff-hw:ioff+hw+1, joff-hw:joff+hw+1][flag] = value`
   * (psolver.py:151-152 and 159-160).
   */
  function Stamped(g: Grid, m: Mask, ioff: int, joff: int, value: int): (h: Grid)
    ensures |h| == |g| && forall x :: 0 <= x < |g| ==> |h[x]| == |g[x]|
  {
    seq(|g|, x requires 0 <= x < |g| =>
      seq(|g[x]|, y requires 0 <= y < |g[x]| =>
        if Covers(m, ioff, joff, x, y) then value else g[x][y]))
  }

  /** The mask's bounding box centred on (ioff, joff) lies inside the grid. */
  predicate WindowFits(g: Grid, m: Mask, ioff: int, joff: int)
  {
    var hw := HalfWidth(m);
    && 0 <= ioff - hw && ioff + hw < |g|
    && forall x :: ioff - hw <= x <= ioff + hw ==> 0 <= joff - hw && joff + hw < |g[x]|
  }

  /** Every covered cell is empty. */
  predicate CoversEmpty(g: Grid, m: Mask, ioff: int, joff: int)
  {
    forall x, y :: 0 <= x < |g| && 0 <= y < |g[x]| && Covers(m, ioff, joff, x, y) ==> g[x][y] == 0
  }

  /** The board cells under the 1-cells of `m` when its centre sits on (ioff, joff). */
  ghost function Covered(m: Mask, ioff: int, joff: int): set<Cell>
  {
    var hw := HalfWidth(m);
    set c | c in OnesSet(m) :: (c.0 + ioff - hw, c.1 + joff - hw)
  }

  lemma CoveredMember(m: Mask, ioff: int, joff: int, x: int, y: int)
    ensures (x, y) in Covered(m, ioff, joff) <==> Covers(m, ioff, joff, x, y)
  {
    var hw := HalfWidth(m);
    OnesSetMember(m, x - ioff + hw, y - joff + hw);
    if (x, y) in Covered(m, ioff, joff) {
      var c :| c in OnesSet(m) && (x, y) == (c.0 + ioff - hw, c.1 + joff - hw);
      OnesSetMember(m, c.0, c.1);
    }
  }

  /** A placement covers as many cells as the mask has 1-cells. */
  lemma CoveredCard(m: Mask, ioff: int, joff: int)
    ensures |Covered(m, ioff, joff)| == Ones(m)
  {
    var hw := HalfWidth(m);
    var shift := (c: Cell) => (c.0 + ioff - hw, c.1 + joff - hw);
    forall a, b | a in OnesSet(m) && b in OnesSet(m) && shift(a) == shift(b) ensures a == b {
    }
    assert Covered(m, ioff, joff) == set c | c in OnesSet(m) :: shift(c);
    InjectiveCard(OnesSet(m), shift);
    OnesCount(m);
  }

  /**
   * Placing a non-zero code with every covered cell empty takes exactly as
   * many cells off the empty ones as the mask has 1-cells.
   */
  lemma ZerosStamped(g: Grid, m: Mask, ioff: int, joff: int, code: int)
    requires code != 0 && Covered(m, ioff, joff) <= Zeros(g)
    ensures |Zeros(g)| == |Zeros(Stamped(g, m, ioff, joff, code))| + Ones(m)
  {
    var h := Stamped(g, m, ioff, joff, code);
    var k := Covered(m, ioff, joff);
    forall c ensures c in Zeros(h) <==> c in Zeros(g) - k {
      ZerosMember(h, c.0, c.1);
      ZerosMember(g, c.0, c.1);
      CoveredMember(m, ioff, joff, c.0, c.1);
    }
    assert Zeros(h) == Zeros(g) - k;
    assert Zeros(g) == Zeros(h) + k && Zeros(h) !! k;
    assert |Zeros(g)| == |Zeros(h)| + |k|;
    CoveredCard(m, ioff, joff);
  }

  /** The cells of the `rows` x `cols` block with top-left corner (x0, y0). */
  ghost function Block(x0: int, y0: int, rows: nat, cols: nat): set<Cell>
  {
    set x, y | x0 <= x < x0 + rows && y0 <= y < y0 + cols :: (x, y)
  }

  lemma {:induction false} BlockRowCard(x0: int, y0: int, cols: nat)
    ensures |Block(x0, y0, 1, cols)| == cols
  {
    if cols > 0 {
      BlockRowCard(x0, y0, cols - 1);
      assert Block(x0, y0, 1, cols) == Block(x0, y0, 1, cols - 1) + {(x0, y0 + cols - 1)};
    }
  }

  lemma {:induction false} BlockCard(x0: int, y0: int, rows: nat, cols: nat)
    ensures |Block(x0, y0, rows, cols)| == rows * cols
  {
    if rows > 0 {
      BlockCard(x0, y0, rows - 1, cols);
      BlockRowCard(x0 + rows - 1, y0, cols);
      var top, last := Block(x0, y0, rows - 1, cols), Block(x0 + rows - 1, y0, 1, cols);
      assert Block(x0, y0, rows, cols) == top + last && top !! last;
      assert rows * cols == (rows - 1) * cols + cols;
    }
  }

  /** Removing a piece (writing 0) after placing it onto empty cells restores the grid. */
  lemma UnstampStamped(g: Grid, m: Mask, ioff: int, joff: int, code: int)
    requires CoversEmpty(g, m, ioff, joff)
    ensures Stamped(Stamped(g, m, ioff, joff, code), m, ioff, joff, 0) == g
  {
    GridExt(Stamped(Stamped(g, m, ioff, joff, code), m, ioff, joff, 0), g);
  }

  /** Placing a positive code onto empty cells keeps the grid's invariants. */
  lemma StampedKeeps(g: Grid, m: Mask, ioff: int, joff: int, code: int, margin: nat)
    requires NonNegative(g) && ZerosWithin(g, margin) && code > 0
    ensures NonNegative(Stamped(g, m, ioff, joff, code))
    ensures ZerosWithin(Stamped(g, m, ioff, joff, code), margin)
    ensures Zeros(Stamped(g, m, ioff, joff, code)) <= Zeros(g)
  {
    var h := Stamped(g, m, ioff, joff, code);
    forall c | c in Zeros(h) ensures c in Zeros(g) {
      ZerosMember(h, c.0, c.1);
      ZerosMember(g, c.0, c.1);
    }
  }

  /** The rows x cols interior of a board with a two-cell frame (psolver.py:127, 211). */
  function Interior(g: Grid): (bv: Grid)
    requires |g| >= 4 && forall x :: 2 <= x < |g| - 2 ==> |g[x]| >= 4
    ensures |bv| == |g| - 4
    ensures forall r :: 0 <= r < |bv| ==> |bv[r]| == |g[r + 2]| - 4
    ensures forall r, s :: 0 <= r < |bv| && 0 <= s < |bv[r]| ==> bv[r][s] == g[r + 2][s + 2]
  {
    seq(|g| - 4, r requires 0 <= r < |g| - 4 => g[r + 2][2..|g[r + 2]| - 2])
  }

  /**
   * The board built at psolver.py:204-208: (rows+4) x (cols+4) zeros with
   * the two outermost rows and columns on every side set to 1.
   */
  function EmptyBoard(rows: nat, cols: nat): (g: Grid)
    ensures Rect(g, rows + 4, cols + 4)
  {
    seq(rows + 4, x requires 0 <= x < rows + 4 =>
      seq(cols + 4, y requires 0 <= y < cols + 4 =>
        if x < 2 || x >= rows + 2 || y < 2 || y >= cols + 2 then 1 else 0))
  }

  /** A fresh board is non-negative and empty exactly on its interior. */
  lemma EmptyBoardShape(rows: nat, cols: nat)
    ensures NonNegative(EmptyBoard(rows, cols))
    ensures ZerosWithin(EmptyBoard(rows, cols), 2)
    ensures forall x, y :: (x, y) in Zeros(EmptyBoard(rows, cols)) <==> 2 <= x < rows + 2 && 2 <= y < cols + 2
  {
    var g := EmptyBoard(rows, cols);
    forall x, y ensures (x, y) in Zeros(g) <==> 2 <= x < rows + 2 && 2 <= y < cols + 2 {
      ZerosMember(g, x, y);
    }
  }

  /** A fresh board has `rows * cols` empty cells. */
  lemma EmptyBoardZeros(rows: nat, cols: nat)
    ensures |Zeros(EmptyBoard(rows, cols))| == rows * cols
  {
    EmptyBoardShape(rows, cols);
    var z := Zeros(EmptyBoard(rows, cols));
    forall c ensures c in z <==> c in Block(2, 2, rows, cols) {
    }
    assert z == Block(2, 2, rows, cols);
    BlockCard(2, 2, rows, cols);
  }

  /** The interior view of a fresh board is a rows x cols grid of zeros. */
  lemma EmptyBoardInterior(rows: nat, cols: nat)
    ensures Interior(EmptyBoard(rows, cols)) == seq(rows, r => seq(cols, s => 0))
  {
    var bv := Interior(EmptyBoard(rows, cols));
    var z := seq(rows, r => seq(cols, s => 0));
    assert forall r, s :: 0 <= r < rows && 0 <= s < cols ==> bv[r][s] == 0 == z[r][s];
    GridExt(bv, z);
  }
}

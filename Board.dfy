/**
 * The board array and the operations of psolver.py that change it in
 * place: building the framed board, placing and removing a piece, the
 * recursive flood fill and the region-size test.
 */
module Board {
  import opened Regions
  import opened Masks
  import opened Grids
  import opened Catalog
  import opened Fill

  /** The board's cells as a grid value. */
  function Contents(b: array2<int>): (g: Grid)
    reads b
    ensures Rect(g, b.Length0, b.Length1)
  {
    seq(b.Length0, x requires 0 <= x < b.Length0 reads b =>
      seq(b.Length1, y requires 0 <= y < b.Length1 reads b => b[x, y]))
  }

  /** psolver.py:204-208: a zero board of (rows+4) x (cols+4) with a frame of 1s two cells wide. */
  method NewBoard(rows: nat, cols: nat) returns (b: array2<int>)
    ensures fresh(b)
    ensures Contents(b) == EmptyBoard(rows, cols)
  {
    b := new int[rows + 4, cols + 4]((x, y) => 0);
    forall x, y | 0 <= x < rows + 4 && (y < 2 || y >= cols + 2) && 0 <= y < cols + 4 {
      b[x, y] := 1;
    }
    assert forall x, y :: 0 <= x < rows + 4 && 0 <= y < cols + 4 ==>
      b[x, y] == if y < 2 || y >= cols + 2 then 1 else 0;
    forall x, y | 0 <= y < cols + 4 && (x < 2 || x >= rows + 2) && 0 <= x < rows + 4 {
      b[x, y] := 1;
    }
    ghost var e := EmptyBoard(rows, cols);
    assert forall x, y :: 0 <= x < rows + 4 && 0 <= y < cols + 4 ==> b[x, y] == e[x][y];
    GridExt(Contents(b), e);
  }

  /**
   * Writes `value` into every cell under a 1-cell of `m` centred on
   * (ioff, joff): placing a piece (value = its code, psolver.py:151-152) and
   * removing it (value = 0, psolver.py:159-160).
   */
  method Stamp(b: array2<int>, m: Mask, ioff: int, joff: int, value: int)
    requires WindowFits(Contents(b), m, ioff, joff)
    modifies b
    ensures Contents(b) == Stamped(old(Contents(b)), m, ioff, joff, value)
  {
    forall x, y | 0 <= x < b.Length0 && 0 <= y < b.Length1 && Covers(m, ioff, joff, x, y) {
      b[x, y] := value;
    }
    GridExt(Contents(b), Stamped(old(Contents(b)), m, ioff, joff, value));
  }

  /** psolver.py:105 and 107: every visited marker becomes an empty cell again. */
  method ResetVisited(b: array2<int>)
    modifies b
    ensures Contents(b) == Reset(old(Contents(b)))
  {
    forall x, y | 0 <= x < b.Length0 && 0 <= y < b.Length1 && b[x, y] == Visited {
      b[x, y] := 0;
    }
    GridExt(Contents(b), Reset(old(Contents(b))));
  }

  /** psolver.py:86: marks one cell visited. */
  method MarkVisited(b: array2<int>, i: int, j: int)
    requires 0 <= i < b.Length0 && 0 <= j < b.Length1
    modifies b
    ensures Contents(b) == Marked(old(Contents(b)), {(i, j)})
  {
    b[i, j] := Visited;
    forall x, y | 0 <= x < b.Length0 && 0 <= y < b.Length1
      ensures Contents(b)[x][y] == Marked(old(Contents(b)), {(i, j)})[x][y]
    {
      if (x, y) != (i, j) {
        assert (x, y) !in {(i, j)};
      }
    }
    GridExt(Contents(b), Marked(old(Contents(b)), {(i, j)}));
  }

  /**
   * psolver.py:78-91.  `g` is the board on entry.  From a non-empty start
   * cell nothing changes and `c` comes back.  From an empty one the whole
   * empty 4-connected region of (i, j) is marked visited, nothing else
   * changes, and `c` grows by the region's size.  The four recursive calls
   * of psolver.py:87-90 are made in their order by a loop over the
   * neighbours; each finds the not yet visited part of its neighbour's
   * region.  The recursion ends because each call that does not return at
   * once empties one more cell.
   */
  method FloodFill(b: array2<int>, ghost g: Grid, i: int, j: int, c: int) returns (r: int)
    requires Contents(b) == g && 0 <= i < b.Length0 && 0 <= j < b.Length1 && ZerosWithin(g, 1)
    modifies b
    decreases |Zeros(g)|
    ensures Contents(b) == Filled(g, i, j)
    ensures r == c + |FillRegion(g, i, j)|
    ensures g[i][j] != 0 ==> r == c && Contents(b) == g
  {
    ZerosMember(g, i, j);
    if b[i, j] != 0 {
      FillNonEmpty(g, i, j);
      return c;
    }
    assert 1 <= i < |g| - 1 && 1 <= j < |g[i]| - 1;
    var neighbours := [(i + 1, j), (i, j + 1), (i - 1, j), (i, j - 1)];
    assert forall k :: 0 <= k < 4 ==>
      Adjacent((i, j), neighbours[k]) && 0 <= neighbours[k].0 < b.Length0 && 0 <= neighbours[k].1 < b.Length1;
    MarkVisited(b, i, j);
    ghost var u := {(i, j)};
    VisitsStart(Zeros(g), (i, j), neighbours);
    r := c + 1;
    for k := 0 to 4
      invariant Visits(Zeros(g), (i, j), u, neighbours, k) && u <= Zeros(g)
      invariant Contents(b) == Marked(g, u)
      invariant r == c + |u|
    {
      VisitsCallable(g, (i, j), u, neighbours, k);
      var n := neighbours[k];
      VisitsStep(g, (i, j), u, neighbours, k, n);
      ghost var a := FillRegion(Marked(g, u), n.0, n.1);
      r := FloodFill(b, Marked(g, u), n.0, n.1, r);
      u := u + a;
    }
    VisitsEnd(g, i, j, u, neighbours);
  }

  /**
   * psolver.py:94-108.  Scans the interior row by row and starts a flood
   * fill with count 0 at every cell; a start on an occupied or visited cell
   * counts 0.  The first count not divisible by the piece size makes the
   * answer false.  On both exits every visited marker becomes an empty cell
   * again, so the answer is true exactly when every 4-connected region of
   * the entry board's empty cells has a size divisible by the piece size.
   */
  method ValidSpace(b: array2<int>) returns (ok: bool)
    requires ZerosWithin(Contents(b), 2)
    modifies b
    ensures Contents(b) == Reset(old(Contents(b)))
    ensures ok <==> RegionsDivisible(Zeros(old(Contents(b))), PieceSize)
  {
    ghost var g0 := Contents(b);
    ghost var v: set<Cell> := {};
    MarkedNothing(g0);
    var i := 2;
    while i < b.Length0 - 2
      invariant 2 <= i
      invariant ScanInv(g0, v, i, 2, PieceSize)
      invariant Contents(b) == Marked(g0, v)
    {
      var j := 2;
      while j < b.Length1 - 2
        invariant 2 <= j
        invariant ScanInv(g0, v, i, j, PieceSize)
        invariant Contents(b) == Marked(g0, v)
      {
        ScanCell(g0, v, i, j, PieceSize);
        ghost var a := FillRegion(Marked(g0, v), i, j);
        var c := FloodFill(b, Marked(g0, v), i, j, 0);
        assert c == |a| && Contents(b) == Marked(g0, v + a);
        if c % PieceSize != 0 {
          ResetVisited(b);
          return false;
        }
        v := v + a;
        j := j + 1;
      }
      ScanNextRow(g0, v, i, j, PieceSize);
      i := i + 1;
    }
    ScanEnd(g0, v, i, PieceSize);
    ResetVisited(b);
    ResetMarkedAny(g0, v);
    return true;
  }
}

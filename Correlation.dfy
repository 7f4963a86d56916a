/**
 * The placement test of psolver.py:133-136.  `convolve2d(bv, mask[::-1, ::-1],
 * 'same', fillvalue=1)` is, for an odd square mask, the centred correlation
 * of the interior view `bv` with the mask: at (r, s) it adds up the values
 * of `bv` under the mask's 1-cells when the mask's centre sits on (r, s),
 * reading every cell outside `bv` as 1.  `np.where(C == 0)` lists the
 * positions where that sum is 0, row by row.
 */
module Correlation {
  import opened Masks
  import opened Grids

  /** A cell of the interior view; outside it, the fill value 1. */
  function At(bv: Grid, x: int, y: int): int
  {
    if InGrid(bv, x, y) then bv[x][y] else 1
  }

  /** Sum of the products mask cell * board value from mask cell (u, v) on, row-major. */
  function CorrFrom(bv: Grid, m: Mask, r: int, s: int, u: nat, v: nat): int
    requires u <= |m| && v <= |m|
    decreases |m| - u, |m| - v
  {
    var hw := HalfWidth(m);
    if u == |m| then 0
    else if v == |m| then CorrFrom(bv, m, r, s, u + 1, 0)
    else m[u][v] * At(bv, r + u - hw, s + v - hw) + CorrFrom(bv, m, r, s, u, v + 1)
  }

  /** Entry (r, s) of the correlation. */
  function Corr(bv: Grid, m: Mask, r: int, s: int): int
  {
    CorrFrom(bv, m, r, s, 0, 0)
  }

  /** Every 1-cell of `m` centred on (r, s) falls on an empty cell of `bv`. */
  predicate FreeAt(bv: Grid, m: Mask, r: int, s: int)
  {
    var hw := HalfWidth(m);
    forall u, v :: 0 <= u < |m| && 0 <= v < |m| && m[u][v] == 1 ==>
      InGrid(bv, r + u - hw, s + v - hw) && bv[r + u - hw][s + v - hw] == 0
  }

  /** The 1-cells from (u, v) on, row-major, all fall on empty cells of `bv`. */
  predicate FreeFrom(bv: Grid, m: Mask, r: int, s: int, u: nat, v: nat)
  {
    var hw := HalfWidth(m);
    forall u', v' :: 0 <= u' < |m| && 0 <= v' < |m| && (u' > u || (u' == u && v' >= v)) && m[u'][v'] == 1 ==>
      InGrid(bv, r + u' - hw, s + v' - hw) && bv[r + u' - hw][s + v' - hw] == 0
  }

  /**
   * On a board without negative cells the partial sum is never negative,
   * and it is 0 exactly when the remaining 1-cells all fall on empty cells.
   */
  lemma {:induction false} CorrFromZero(bv: Grid, m: Mask, r: int, s: int, u: nat, v: nat)
    requires NonNegative(bv) && u <= |m| && v <= |m|
    ensures CorrFrom(bv, m, r, s, u, v) >= 0
    ensures CorrFrom(bv, m, r, s, u, v) == 0 <==> FreeFrom(bv, m, r, s, u, v)
    decreases |m| - u, |m| - v
  {
    var hw := HalfWidth(m);
    if u == |m| {
    } else if v == |m| {
      CorrFromZero(bv, m, r, s, u + 1, 0);
    } else {
      CorrFromZero(bv, m, r, s, u, v + 1);
      var t := m[u][v] * At(bv, r + u - hw, s + v - hw);
      assert t >= 0 && (t == 0 <==> m[u][v] == 1 ==> InGrid(bv, r + u - hw, s + v - hw) && bv[r + u - hw][s + v - hw] == 0);
    }
  }

  /**
   * The placement test: on a board without negative cells (which is the
   * case outside the region scan), a position is free exactly when every
   * 1-cell of the mask centred on it lies on an empty interior cell.
   */
  lemma CorrZero(bv: Grid, m: Mask, r: int, s: int)
    requires NonNegative(bv)
    ensures Corr(bv, m, r, s) >= 0
    ensures Corr(bv, m, r, s) == 0 <==> FreeAt(bv, m, r, s)
  {
    CorrFromZero(bv, m, r, s, 0, 0);
  }

  /** Position (r, s) comes before (r', s') in row-major order. */
  predicate Before(a: (int, int), b: (int, int))
  {
    a.0 < b.0 || (a.0 == b.0 && a.1 < b.1)
  }

  /**
   * The positions of `np.where(C == 0)` from row `r`, column `s` on, in
   * row-major order; FreeFromPosSpec states what they are.
   */
  function FreeFromPos(bv: Grid, m: Mask, r: nat, s: nat): seq<(int, int)>
    requires r <= |bv| && (r < |bv| ==> s <= |bv[r]|)
    decreases |bv| - r, if r < |bv| then |bv[r]| - s else 0
  {
    if r == |bv| then []
    else if s == |bv[r]| then FreeFromPos(bv, m, r + 1, 0)
    else
      var rest := FreeFromPos(bv, m, r, s + 1);
      if Corr(bv, m, r, s) == 0 then [(r, s)] + rest else rest
  }

  /** `np.where(C == 0)`: the free positions of `m` on `bv`; FreePositionsSpec states what they are. */
  function FreePositions(bv: Grid, m: Mask): seq<(int, int)>
  {
    if |bv| == 0 then [] else FreeFromPos(bv, m, 0, 0)
  }

  /** Every entry of `ps` is a cell of `bv` where the correlation of `m` is 0. */
  predicate AllFree(bv: Grid, m: Mask, ps: seq<(int, int)>)
  {
    forall k :: 0 <= k < |ps| ==> InGrid(bv, ps[k].0, ps[k].1) && Corr(bv, m, ps[k].0, ps[k].1) == 0
  }

  /** Every entry of `ps` comes after position `q`. */
  predicate AllAfter(q: (int, int), ps: seq<(int, int)>)
  {
    forall k :: 0 <= k < |ps| ==> Before(q, ps[k])
  }

  /** `ps` is in strict row-major order, hence without repetitions. */
  predicate RowMajor(ps: seq<(int, int)>)
  {
    forall k, l :: 0 <= k < l < |ps| ==> Before(ps[k], ps[l])
  }

  /**
   * The positions from (r, s) on are exactly the cells at or after (r, s)
   * where the correlation is 0: each of them is such a cell, and every such
   * cell is listed.
   */
  lemma {:induction false} FreeFromPosSpec(bv: Grid, m: Mask, r: nat, s: nat)
    requires r <= |bv| && (r < |bv| ==> s <= |bv[r]|)
    decreases |bv| - r, if r < |bv| then |bv[r]| - s else 0
    ensures AllFree(bv, m, FreeFromPos(bv, m, r, s))
    ensures AllAfter((r, s - 1), FreeFromPos(bv, m, r, s))
    ensures forall x, y :: InGrid(bv, x, y) && Before((r, s - 1), (x, y)) && Corr(bv, m, x, y) == 0 ==>
              (x, y) in FreeFromPos(bv, m, r, s)
  {
    var ps := FreeFromPos(bv, m, r, s);
    if r == |bv| {
    } else if s == |bv[r]| {
      FreeFromPosSpec(bv, m, r + 1, 0);
      assert ps == FreeFromPos(bv, m, r + 1, 0);
      assert forall y :: 0 <= y < |bv[r]| && Before((r, s - 1), (r, y)) ==> y >= s;
    } else {
      var rest := FreeFromPos(bv, m, r, s + 1);
      FreeFromPosSpec(bv, m, r, s + 1);
      if Corr(bv, m, r, s) == 0 {
        assert ps == [(r, s)] + rest;
        assert forall k :: 1 <= k < |ps| ==> ps[k] == rest[k - 1];
      } else {
        assert ps == rest;
      }
    }
  }

  /** A position before every element of a row-major list can head it. */
  lemma RowMajorCons(q: (int, int), rest: seq<(int, int)>)
    requires RowMajor(rest) && AllAfter(q, rest)
    ensures RowMajor([q] + rest)
  {
    var ps := [q] + rest;
    forall k, l | 0 <= k < l < |ps| ensures Before(ps[k], ps[l]) {
      assert ps[l] == rest[l - 1];
      if k > 0 {
        assert ps[k] == rest[k - 1];
      }
    }
  }

  /** The positions from (r, s) on come in strict row-major order. */
  lemma {:induction false} FreeFromPosOrdered(bv: Grid, m: Mask, r: nat, s: nat)
    requires r <= |bv| && (r < |bv| ==> s <= |bv[r]|)
    decreases |bv| - r, if r < |bv| then |bv[r]| - s else 0
    ensures RowMajor(FreeFromPos(bv, m, r, s))
  {
    if r == |bv| {
    } else if s == |bv[r]| {
      FreeFromPosOrdered(bv, m, r + 1, 0);
      assert FreeFromPos(bv, m, r, s) == FreeFromPos(bv, m, r + 1, 0);
    } else {
      var rest := FreeFromPos(bv, m, r, s + 1);
      FreeFromPosOrdered(bv, m, r, s + 1);
      if Corr(bv, m, r, s) == 0 {
        FreeFromPosSpec(bv, m, r, s + 1);
        RowMajorCons((r, s), rest);
        assert FreeFromPos(bv, m, r, s) == [(r, s)] + rest;
      } else {
        assert FreeFromPos(bv, m, r, s) == rest;
      }
    }
  }

  /**
   * `np.where(C == 0)` lists every zero of the correlation and nothing
   * else, in row-major order, so each position once.
   */
  lemma FreePositionsSpec(bv: Grid, m: Mask)
    ensures AllFree(bv, m, FreePositions(bv, m))
    ensures forall x, y :: InGrid(bv, x, y) && Corr(bv, m, x, y) == 0 ==> (x, y) in FreePositions(bv, m)
    ensures RowMajor(FreePositions(bv, m))
  {
    if |bv| == 0 {
      assert FreePositions(bv, m) == [];
    } else {
      FreeFromPosSpec(bv, m, 0, 0);
      FreeFromPosOrdered(bv, m, 0, 0);
      assert FreePositions(bv, m) == FreeFromPos(bv, m, 0, 0);
    }
  }
}

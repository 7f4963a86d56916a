/**
 * What the recursive flood fill of psolver.py:78-91 computes, stated on
 * grid values: the region it visits, the grid it leaves, and the proof that
 * its four recursive calls together visit exactly the start cell's region.
 */
module Fill {
  import opened Regions
  import opened Grids

  /** The cells a flood fill started at (i, j) visits: the empty region of (i, j). */
  ghost function FillRegion(g: Grid, i: int, j: int): set<Cell>
  {
    Component(Zeros(g), (i, j))
  }

  /** The grid a flood fill started at (i, j) leaves behind. */
  ghost function Filled(g: Grid, i: int, j: int): Grid
  {
    Marked(g, FillRegion(g, i, j))
  }

  /** A fill started on a non-empty cell visits nothing. */
  lemma FillNonEmpty(g: Grid, i: int, j: int)
    requires (i, j) !in Zeros(g)
    ensures FillRegion(g, i, j) == {} && Filled(g, i, j) == g
  {
    ComponentOutside(Zeros(g), (i, j));
    MarkedNothing(g);
  }

  /**
   * Invariant of one flood fill started at `center`, whose entry grid has
   * the empty cells `z0`: the cells `u` visited so far lie in the region of
   * `center`, no step leads from a visited cell other than `center` to an
   * unvisited empty cell, and the first `k` neighbours of `ns`, whose calls
   * are over, are visited if empty.
   */
  ghost predicate Visits(z0: set<Cell>, center: Cell, u: set<Cell>, ns: seq<Cell>, k: nat)
  {
    && center in u && u <= Component(z0, center)
    && (forall x, y :: x in u && x != center && y in z0 && Adjacent(x, y) ==> y in u)
    && (forall m :: 0 <= m < k && m < |ns| ==> (ns[m] in z0 ==> ns[m] in u))
  }

  lemma VisitsStart(z0: set<Cell>, center: Cell, ns: seq<Cell>)
    requires center in z0
    ensures Visits(z0, center, {center}, ns, 0)
  {
    ComponentStart(z0, center);
  }

  /**
   * Adding the region of neighbour `ns[k]` among the empty cells not yet
   * visited keeps the invariant, with `ns[k]` done; that region is disjoint
   * from the visited cells.
   */
  lemma VisitsGrow(z0: set<Cell>, center: Cell, u: set<Cell>, ns: seq<Cell>, k: nat, n: Cell)
    requires Visits(z0, center, u, ns, k) && k < |ns| && n == ns[k] && Adjacent(center, n) && u <= z0
    ensures var a := Component(z0 - u, n);
      Visits(z0, center, u + a, ns, k + 1) && u * a == {} && a <= z0
  {
    var z := z0 - u;
    var a := Component(z, n);
    ComponentSubset(z, n);
    ComponentMono(z, z0, n);
    forall w | w in a ensures w in Component(z0, center) {
      ComponentPrepend(z0, center, n, w);
    }
    ComponentClosed(z, n);
    forall x, y | x in u + a && x != center && y in z0 && Adjacent(x, y) ensures y in u + a {
      if x in a && y !in u {
        assert y in z;
      }
    }
    if n in z {
      ComponentStart(z, n);
    }
  }

  /**
   * The call for neighbour `ns[k]`, made on the grid with `u` visited,
   * visits the part of the region of `ns[k]` not visited yet; afterwards
   * the visited cells are `u` plus that part, and the invariant holds with
   * `ns[k]` done.
   */
  lemma VisitsStep(g0: Grid, center: Cell, u: set<Cell>, ns: seq<Cell>, k: nat, n: Cell)
    requires Visits(Zeros(g0), center, u, ns, k) && k < |ns| && n == ns[k] && Adjacent(center, n) && u <= Zeros(g0)
    ensures var a := FillRegion(Marked(g0, u), n.0, n.1);
      && Visits(Zeros(g0), center, u + a, ns, k + 1)
      && Filled(Marked(g0, u), n.0, n.1) == Marked(g0, u + a)
      && u + a <= Zeros(g0) && |u + a| == |u| + |a|
  {
    ZerosMarked(g0, u);
    var a := Component(Zeros(g0) - u, n);
    assert FillRegion(Marked(g0, u), n.0, n.1) == a;
    VisitsGrow(Zeros(g0), center, u, ns, k, n);
    MarkedTwice(g0, u, a);
  }

  /** Once the calls for all four neighbours are done, the visited cells are the whole region. */
  lemma VisitsEnd(g0: Grid, i: int, j: int, u: set<Cell>, ns: seq<Cell>)
    requires Visits(Zeros(g0), (i, j), u, ns, |ns|)
    requires (i + 1, j) in ns && (i, j + 1) in ns && (i - 1, j) in ns && (i, j - 1) in ns
    ensures u == Component(Zeros(g0), (i, j))
  {
    assert Closed(u, Zeros(g0));
    ComponentUnique(u, Zeros(g0), (i, j));
  }

  /**
   * Before the call for neighbour `n`: on the grid with `u` visited the
   * empty cells keep their distance from the edge, and there are fewer of
   * them than on `g0`, since the start cell is among the visited ones.
   */
  lemma VisitsCallable(g0: Grid, center: Cell, u: set<Cell>, ns: seq<Cell>, k: nat)
    requires Visits(Zeros(g0), center, u, ns, k) && u <= Zeros(g0) && ZerosWithin(g0, 1)
    ensures ZerosWithin(Marked(g0, u), 1)
    ensures |Zeros(Marked(g0, u))| < |Zeros(g0)|
  {
    ZerosMarked(g0, u);
    ZerosMarkedWithin(g0, u, 1);
    var z0 := Zeros(g0);
    assert z0 == (z0 - u) + (z0 * u) && (z0 - u) * (z0 * u) == {};
    assert center in z0 * u;
  }

  /**
   * Invariant of the region scan of psolver.py:101-104, before it starts a
   * fill at (i, j): the visited cells `v` are empty cells of the entry grid
   * `g0`, no step leads out of them to an unvisited empty cell, every region
   * they belong to has a size divisible by `unit`, and every empty cell the
   * scan has already passed is visited.
   */
  ghost predicate ScanInv(g0: Grid, v: set<Cell>, i: int, j: int, unit: nat)
    requires unit > 0
  {
    && v <= Zeros(g0)
    && Closed(v, Zeros(g0))
    && (forall z :: z in v ==> |Component(Zeros(g0), z)| % unit == 0)
    && (forall x, y :: (x, y) in Zeros(g0) && (x < i || (x == i && y < j)) ==> (x, y) in v)
  }

  /**
   * A fill started at (i, j) on the grid with the closed set `v` of empty
   * cells visited finds the region of (i, j) among the entry grid's empty
   * cells when (i, j) is empty and unvisited, and nothing otherwise.
   */
  lemma ScanFill(g0: Grid, v: set<Cell>, i: int, j: int)
    requires v <= Zeros(g0) && Closed(v, Zeros(g0))
    ensures FillRegion(Marked(g0, v), i, j)
      == if (i, j) in Zeros(g0) - v then Component(Zeros(g0), (i, j)) else {}
    ensures Filled(Marked(g0, v), i, j) == Marked(g0, v + FillRegion(Marked(g0, v), i, j))
  {
    var z0 := Zeros(g0);
    ZerosMarked(g0, v);
    var a := Component(z0 - v, (i, j));
    assert FillRegion(Marked(g0, v), i, j) == a;
    MarkedTwice(g0, v, a);
    if (i, j) in z0 - v {
      ComponentAvoids(z0, v, (i, j));
    } else {
      ComponentOutside(z0 - v, (i, j));
    }
  }

  /** Adding a region of divisible size to the visited cells moves the scan one cell on. */
  lemma ScanGrow(g0: Grid, v: set<Cell>, i: int, j: int, unit: nat)
    requires unit > 0 && ScanInv(g0, v, i, j, unit) && (i, j) in Zeros(g0) - v
    requires |Component(Zeros(g0), (i, j))| % unit == 0
    ensures ScanInv(g0, v + Component(Zeros(g0), (i, j)), i, j + 1, unit)
  {
    var z0 := Zeros(g0);
    var a := Component(z0, (i, j));
    ComponentSubset(z0, (i, j));
    ComponentClosed(z0, (i, j));
    ComponentStart(z0, (i, j));
    forall w | w in a ensures |Component(z0, w)| % unit == 0 {
      ComponentSame(z0, (i, j), w);
    }
  }

  /**
   * One start of the scan at (i, j) on the grid with `v` visited.  A count
   * not divisible by `unit` shows a region of that size in the entry grid;
   * a divisible one lets the scan go on with the region added to the
   * visited cells.
   */
  lemma ScanStep(g0: Grid, v: set<Cell>, i: int, j: int, unit: nat)
    requires unit > 0 && ScanInv(g0, v, i, j, unit)
    ensures var a := FillRegion(Marked(g0, v), i, j);
      && Filled(Marked(g0, v), i, j) == Marked(g0, v + a)
      && v + a <= Zeros(g0)
      && (|a| % unit != 0 ==> (i, j) in Zeros(g0) && |Component(Zeros(g0), (i, j))| % unit != 0)
      && (|a| % unit == 0 ==> ScanInv(g0, v + a, i, j + 1, unit))
  {
    ScanFill(g0, v, i, j);
    if (i, j) in Zeros(g0) - v {
      ComponentSubset(Zeros(g0), (i, j));
      if |Component(Zeros(g0), (i, j))| % unit == 0 {
        ScanGrow(g0, v, i, j, unit);
      }
    } else {
      ScanSkip(g0, v, i, j, unit);
      assert v + {} == v && |FillRegion(Marked(g0, v), i, j)| == 0;
      assert 0 % unit == 0;
    }
  }

  /**
   * ScanStep in the form the scanning loop uses it: the grid a fill starts
   * from keeps its empty cells off the edge, a count not divisible by
   * `unit` refutes the test, and resetting the markers after the fill gives
   * the entry grid's reset.
   */
  lemma ScanCell(g0: Grid, v: set<Cell>, i: int, j: int, unit: nat)
    requires unit > 0 && ZerosWithin(g0, 2) && ScanInv(g0, v, i, j, unit)
    ensures ZerosWithin(Marked(g0, v), 1)
    ensures var a := FillRegion(Marked(g0, v), i, j);
      && Filled(Marked(g0, v), i, j) == Marked(g0, v + a)
      && (|a| % unit != 0 ==> !RegionsDivisible(Zeros(g0), unit) && Reset(Marked(g0, v + a)) == Reset(g0))
      && (|a| % unit == 0 ==> ScanInv(g0, v + a, i, j + 1, unit))
  {
    ScanStep(g0, v, i, j, unit);
    ZerosMarkedWithin(g0, v, 1);
    ResetMarkedAny(g0, v + FillRegion(Marked(g0, v), i, j));
  }

  /** A start on an occupied or visited cell moves the scan one cell on. */
  lemma ScanSkip(g0: Grid, v: set<Cell>, i: int, j: int, unit: nat)
    requires unit > 0 && ScanInv(g0, v, i, j, unit) && (i, j) !in Zeros(g0) - v
    ensures ScanInv(g0, v, i, j + 1, unit)
  {
  }

  /** The scan passes from the end of row `i` to the start of row `i + 1`. */
  lemma ScanNextRow(g0: Grid, v: set<Cell>, i: int, j: int, unit: nat)
    requires unit > 0 && ZerosWithin(g0, 2) && ScanInv(g0, v, i, j, unit)
    requires 0 <= i < |g0| && j >= |g0[i]| - 2
    ensures ScanInv(g0, v, i + 1, 2, unit)
  {
  }

  /** Once every row is passed, all regions of the entry grid's empty cells are divisible. */
  lemma ScanEnd(g0: Grid, v: set<Cell>, i: int, unit: nat)
    requires unit > 0 && ZerosWithin(g0, 2) && ScanInv(g0, v, i, 2, unit)
    requires i >= |g0| - 2
    ensures RegionsDivisible(Zeros(g0), unit)
  {
    forall z | z in Zeros(g0) ensures |Component(Zeros(g0), z)| % unit == 0 {
      ZerosMember(g0, z.0, z.1);
    }
  }
}

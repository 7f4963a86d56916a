/**
 * 4-connected regions of a set of grid cells: the notion behind the flood
 * fill of psolver.py:78-91 and the region-size test of psolver.py:94-108.
 * A region (component) of a cell `a` in a set `s` is every cell of `s`
 * that a path of up/down/left/right steps inside `s` joins to `a`.
 */
module Regions {

  type Cell = (int, int)

  /** The four neighbours the flood fill visits. */
  predicate Adjacent(a: Cell, b: Cell)
  {
    || (a.0 == b.0 && (a.1 - b.1 == 1 || b.1 - a.1 == 1))
    || (a.1 == b.1 && (a.0 - b.0 == 1 || b.0 - a.0 == 1))
  }

  /** A non-empty walk of neighbouring cells, all in `s`. */
  ghost predicate IsPath(s: set<Cell>, p: seq<Cell>)
  {
    && |p| > 0
    && (forall k :: 0 <= k < |p| ==> p[k] in s)
    && (forall k :: 0 <= k < |p| - 1 ==> Adjacent(p[k], p[k + 1]))
  }

  ghost predicate Connected(s: set<Cell>, a: Cell, z: Cell)
  {
    exists p :: IsPath(s, p) && p[0] == a && p[|p| - 1] == z
  }

  /** The region of `a` in `s`; empty when `a` is not in `s`. */
  ghost function Component(s: set<Cell>, a: Cell): set<Cell>
  {
    set z | z in s && Connected(s, a, z)
  }

  /** No step leads from `u` to a cell of `s` outside `u`. */
  ghost predicate Closed(u: set<Cell>, s: set<Cell>)
  {
    forall x, y :: x in u && y in s && Adjacent(x, y) ==> y in u
  }

  /** Every size of a region of `s` is a multiple of `unit`. */
  ghost predicate RegionsDivisible(s: set<Cell>, unit: nat)
    requires unit > 0
  {
    forall z :: z in s ==> |Component(s, z)| % unit == 0
  }

  lemma ComponentStart(s: set<Cell>, a: Cell)
    requires a in s
    ensures a in Component(s, a)
  {
    assert IsPath(s, [a]);
  }

  lemma ComponentSubset(s: set<Cell>, a: Cell)
    ensures Component(s, a) <= s
  {
  }

  /** Only a cell of `s` has cells of `s` joined to it. */
  lemma ComponentHasStart(s: set<Cell>, a: Cell)
    ensures forall z :: z in Component(s, a) ==> a in s
  {
    forall z | z in Component(s, a) ensures a in s {
      var p :| IsPath(s, p) && p[0] == a && p[|p| - 1] == z;
      assert p[0] in s;
    }
  }

  lemma ComponentOutside(s: set<Cell>, a: Cell)
    requires a !in s
    ensures Component(s, a) == {}
  {
    ComponentHasStart(s, a);
  }

  /** A region is closed under steps inside `s`. */
  lemma ComponentStep(s: set<Cell>, a: Cell, x: Cell, y: Cell)
    requires x in Component(s, a) && y in s && Adjacent(x, y)
    ensures y in Component(s, a)
  {
    var p :| IsPath(s, p) && p[0] == a && p[|p| - 1] == x;
    var q := p + [y];
    assert IsPath(s, q) && q[0] == a && q[|q| - 1] == y;
  }

  lemma ComponentClosed(s: set<Cell>, a: Cell)
    ensures Closed(Component(s, a), s)
  {
    forall x, y | x in Component(s, a) && y in s && Adjacent(x, y)
      ensures y in Component(s, a)
    {
      ComponentStep(s, a, x, y);
    }
  }

  /** A region grows with the set it lives in. */
  lemma ComponentMono(s: set<Cell>, t: set<Cell>, a: Cell)
    requires s <= t
    ensures Component(s, a) <= Component(t, a)
  {
    forall z | z in Component(s, a) ensures z in Component(t, a) {
      var p :| IsPath(s, p) && p[0] == a && p[|p| - 1] == z;
      assert IsPath(t, p);
    }
  }

  /** A neighbour's region is contained in the region. */
  lemma ComponentPrepend(s: set<Cell>, a: Cell, n: Cell, z: Cell)
    requires a in s && Adjacent(a, n) && z in Component(s, n)
    ensures z in Component(s, a)
  {
    var p :| IsPath(s, p) && p[0] == n && p[|p| - 1] == z;
    var q := [a] + p;
    assert forall k :: 0 < k < |q| ==> q[k] == p[k - 1];
    assert IsPath(s, q) && q[0] == a && q[|q| - 1] == z;
  }

  lemma {:induction false} PathInside(u: set<Cell>, s: set<Cell>, p: seq<Cell>, k: nat)
    requires IsPath(s, p) && p[0] in u && Closed(u, s) && k < |p|
    ensures p[k] in u
  {
    if k > 0 {
      PathInside(u, s, p, k - 1);
      assert Adjacent(p[k - 1], p[k]);
    }
  }

  /** A closed set holding `a` holds the whole region of `a`. */
  lemma ClosedContains(u: set<Cell>, s: set<Cell>, a: Cell)
    requires a in u && Closed(u, s)
    ensures Component(s, a) <= u
  {
    forall z | z in Component(s, a) ensures z in u {
      var p :| IsPath(s, p) && p[0] == a && p[|p| - 1] == z;
      PathInside(u, s, p, |p| - 1);
    }
  }

  /**
   * The region of `a` is the only subset of `s` that holds `a`, is closed and
   * lies inside the region: the shape of the flood fill's correctness proof.
   */
  lemma ComponentUnique(u: set<Cell>, s: set<Cell>, a: Cell)
    requires a in u && Closed(u, s) && u <= Component(s, a)
    ensures u == Component(s, a)
  {
    ClosedContains(u, s, a);
  }

  lemma ReversePath(s: set<Cell>, p: seq<Cell>) returns (q: seq<Cell>)
    requires IsPath(s, p)
    ensures IsPath(s, q) && q[0] == p[|p| - 1] && q[|q| - 1] == p[0]
  {
    q := seq(|p|, k requires 0 <= k < |p| => p[|p| - 1 - k]);
    forall k | 0 <= k < |q| - 1 ensures Adjacent(q[k], q[k + 1]) {
      assert Adjacent(p[|p| - 2 - k], p[|p| - 1 - k]);
    }
  }

  /** Cells of one region all have that same region. */
  lemma ComponentSame(s: set<Cell>, a: Cell, z: Cell)
    requires z in Component(s, a)
    ensures Component(s, z) == Component(s, a)
  {
    ComponentClosed(s, a);
    ClosedContains(Component(s, a), s, z);
    var p :| IsPath(s, p) && p[0] == a && p[|p| - 1] == z;
    var q := ReversePath(s, p);
    assert a in Component(s, z);
    ComponentClosed(s, z);
    ClosedContains(Component(s, z), s, a);
  }

  /**
   * Removing from `s` a closed part `m` that does not hold `a` leaves the
   * region of `a` as it was: flood fills that ran before do not change the
   * regions still to be found.
   */
  lemma ComponentAvoids(s: set<Cell>, m: set<Cell>, a: Cell)
    requires m <= s && Closed(m, s) && a in s && a !in m
    ensures Component(s - m, a) == Component(s, a)
  {
    var u := Component(s - m, a);
    ComponentMono(s - m, s, a);
    ComponentStart(s - m, a);
    ComponentClosed(s - m, a);
    forall x, y | x in u && y in s && Adjacent(x, y) ensures y in u {
      assert Adjacent(y, x);
      assert y in m ==> x in m;
      assert y in s - m;
      ComponentStep(s - m, a, x, y);
    }
    ClosedContains(u, s, a);
  }

  lemma {:induction false} MulAtLeast(u: int, d: int)
    requires u > 0 && d >= 1
    ensures u * d >= u
  {
    if d > 1 {
      MulAtLeast(u, d - 1);
      assert u * d == u * (d - 1) + u;
    }
  }

  /** The remainder of `unit * q + r` is `r` when `r` is below `unit`. */
  lemma ModUnique(y: int, unit: int, q: int, r: int)
    requires unit > 0 && y == unit * q + r && 0 <= r < unit
    ensures y % unit == r
  {
    var q', r' := y / unit, y % unit;
    assert unit * (q - q') == r' - r;
    if q - q' >= 1 {
      MulAtLeast(unit, q - q');
    } else if q' - q >= 1 {
      MulAtLeast(unit, q' - q);
    }
  }

  /** Two multiples of `unit` add up to a multiple of `unit`. */
  lemma SumDivisible(a: nat, b: nat, unit: nat)
    requires unit > 0 && a % unit == 0 && b % unit == 0
    ensures (a + b) % unit == 0
  {
    var p, q := a / unit, b / unit;
    assert a == unit * p;
    assert b == unit * q;
    assert a + b == unit * (p + q);
    ModUnique(a + b, unit, p + q, 0);
  }

  /**
   * When every region of `s` has a size divisible by `unit`, so has `s`:
   * remove one region at a time, which leaves the other regions as they were.
   */
  lemma {:induction false} RegionsDivisibleTotal(s: set<Cell>, unit: nat)
    requires unit > 0 && RegionsDivisible(s, unit)
    ensures |s| % unit == 0
    decreases |s|
  {
    if s == {} {
      ModUnique(0, unit, 0, 0);
    } else {
      var z :| z in s;
      var c := Component(s, z);
      ComponentSubset(s, z);
      ComponentStart(s, z);
      ComponentClosed(s, z);
      var rest := s - c;
      forall a | a in rest ensures |Component(rest, a)| % unit == 0 {
        ComponentAvoids(s, c, a);
      }
      RegionsDivisibleTotal(rest, unit);
      DisjointUnionDivisible(rest, c, unit);
      assert s == rest + c;
    }
  }

  lemma DisjointUnionDivisible(a: set<Cell>, b: set<Cell>, unit: nat)
    requires unit > 0 && a !! b && |a| % unit == 0 && |b| % unit == 0
    ensures |a + b| % unit == 0
  {
    assert |a + b| == |a| + |b|;
    SumDivisible(|a|, |b|, unit);
  }

  /** `p` is connected: a path inside `p` joins any two of its cells. */
  ghost predicate Linked(p: set<Cell>)
  {
    forall a, z :: a in p && z in p ==> Connected(p, a, z)
  }

  /** The union of a list of cell sets. */
  ghost function Union(parts: seq<set<Cell>>): set<Cell>
  {
    if |parts| == 0 then {} else Union(parts[..|parts| - 1]) + parts[|parts| - 1]
  }

  /** The union of those sets of the list that lie inside `u`. */
  ghost function UnionWithin(parts: seq<set<Cell>>, u: set<Cell>): set<Cell>
  {
    if |parts| == 0 then {}
    else UnionWithin(parts[..|parts| - 1], u) + (if parts[|parts| - 1] <= u then parts[|parts| - 1] else {})
  }

  /** Pairwise disjoint sets, each of `unit` cells. */
  ghost predicate DisjointUnits(parts: seq<set<Cell>>, unit: nat)
  {
    && (forall i :: 0 <= i < |parts| ==> |parts[i]| == unit)
    && (forall i, j :: 0 <= i < j < |parts| ==> parts[i] !! parts[j])
  }

  lemma {:induction false} UnionMember(parts: seq<set<Cell>>, z: Cell)
    ensures z in Union(parts) <==> exists i :: 0 <= i < |parts| && z in parts[i]
  {
    if |parts| > 0 {
      var init := parts[..|parts| - 1];
      UnionMember(init, z);
      assert forall i :: 0 <= i < |init| ==> init[i] == parts[i];
    }
  }

  /**
   * When each set of the list lies inside `u` or outside it, the sets inside
   * `u` cover exactly the union's cells in `u`.
   */
  lemma {:induction false} UnionWithinIs(parts: seq<set<Cell>>, u: set<Cell>)
    requires forall i :: 0 <= i < |parts| ==> parts[i] <= u || parts[i] !! u
    ensures UnionWithin(parts, u) == Union(parts) * u
  {
    if |parts| > 0 {
      UnionWithinIs(parts[..|parts| - 1], u);
    }
  }

  /** Disjoint sets of `unit` cells make up a multiple of `unit` cells, whichever of them are taken. */
  lemma {:induction false} UnionWithinDivisible(parts: seq<set<Cell>>, u: set<Cell>, unit: nat)
    requires unit > 0 && DisjointUnits(parts, unit)
    ensures |UnionWithin(parts, u)| % unit == 0
    ensures UnionWithin(parts, u) <= Union(parts)
  {
    if |parts| > 0 {
      var init := parts[..|parts| - 1];
      var last := parts[|parts| - 1];
      assert DisjointUnits(init, unit);
      UnionWithinDivisible(init, u, unit);
      forall z | z in Union(init) ensures z !in last {
        UnionMember(init, z);
      }
      if last <= u {
        assert UnionWithin(parts, u) == UnionWithin(init, u) + last;
        assert UnionWithin(init, u) !! last;
        ModUnique(|last|, unit, 1, 0);
        SumDivisible(|UnionWithin(init, u)|, |last|, unit);
      }
    }
  }

  /**
   * The region test never rejects a board that can still be covered: when
   * `s` is made of pairwise disjoint connected sets of `unit` cells, every
   * region of `s` is a whole number of them.
   */
  lemma PartitionDivisible(s: set<Cell>, parts: seq<set<Cell>>, unit: nat)
    requires unit > 0 && DisjointUnits(parts, unit)
    requires forall i :: 0 <= i < |parts| ==> Linked(parts[i])
    requires s == Union(parts)
    ensures RegionsDivisible(s, unit)
  {
    forall z | z in s ensures |Component(s, z)| % unit == 0 {
      var c := Component(s, z);
      ComponentSubset(s, z);
      ComponentClosed(s, z);
      forall i | 0 <= i < |parts| ensures parts[i] <= c || parts[i] !! c {
        PartInsideOrOut(s, parts, i, c);
      }
      UnionWithinIs(parts, c);
      UnionWithinDivisible(parts, c, unit);
      assert UnionWithin(parts, c) == c;
    }
  }

  /** A connected part of `s` that meets a closed subset of `s` lies inside it. */
  lemma PartInsideOrOut(s: set<Cell>, parts: seq<set<Cell>>, i: nat, c: set<Cell>)
    requires i < |parts| && Linked(parts[i]) && s == Union(parts) && Closed(c, s)
    ensures parts[i] <= c || parts[i] !! c
  {
    var p := parts[i];
    if !(p !! c) {
      var a :| a in p && a in c;
      forall z | z in p ensures z in c {
        UnionMember(parts, a);
        var path :| IsPath(p, path) && path[0] == a && path[|path| - 1] == z;
        forall k | 0 <= k < |path| ensures path[k] in s {
          UnionMember(parts, path[k]);
        }
        PathInside(c, s, path, |path| - 1);
      }
    }
  }
}

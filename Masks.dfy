/**
 * Shape masks and the two transforms the search applies to them in place:
 * numpy's `rot90` (a quarter turn counter-clockwise) and `flip(axis=1)`
 * (a left-right mirror).  A mask is a square 0/1 matrix of odd side at
 * most 5, so that it has a centre cell and reaches at most two cells from it.
 */
module Masks {

  /** Square, odd side between 1 and 5, every entry 0 or 1. */
  predicate IsMask(m: seq<seq<int>>) {
    && 1 <= |m| <= 5
    && |m| % 2 == 1
    && (forall i :: 0 <= i < |m| ==> |m[i]| == |m|)
    && (forall i, j :: 0 <= i < |m| && 0 <= j < |m[i]| ==> m[i][j] == 0 || m[i][j] == 1)
  }

  type Mask = m: seq<seq<int>> | IsMask(m) witness [[1]]

  /** Distance from the centre cell to the edge of the mask. */
  function HalfWidth(m: Mask): (hw: nat)
    ensures hw <= 2 && |m| == 2 * hw + 1
  {
    (|m| - 1) / 2
  }

  /** np.rot90: new[i][j] = old[j][n-1-i]. */
  function Rot90(m: Mask): Mask
  {
    var n := |m|;
    seq(n, i requires 0 <= i < n => seq(n, j requires 0 <= j < n => m[j][n - 1 - i]))
  }

  /** np.flip(axis=1): new[i][j] = old[i][n-1-j]. */
  function Flip(m: Mask): Mask
  {
    var n := |m|;
    seq(n, i requires 0 <= i < n => seq(n, j requires 0 <= j < n => m[i][n - 1 - j]))
  }

  /** `k` successive quarter turns. */
  function RotN(m: Mask, k: nat): Mask
  {
    if k == 0 then m else Rot90(RotN(m, k - 1))
  }

  /**
   * The mask after `i` complete mirror iterations of the search, each of
   * which applies `rotations` quarter turns and then one flip.
   */
  function Cycled(m: Mask, rotations: nat, i: nat): Mask
  {
    if i == 0 then m else Flip(RotN(Cycled(m, rotations, i - 1), rotations))
  }

  /** One more quarter turn. */
  lemma RotNNext(m: Mask, k: nat)
    ensures RotN(m, k + 1) == Rot90(RotN(m, k))
  {
  }

  /** One more mirror iteration. */
  lemma CycledNext(m: Mask, rotations: nat, i: nat)
    ensures Cycled(m, rotations, i + 1) == Flip(RotN(Cycled(m, rotations, i), rotations))
  {
  }

  /** A mask that is `Cycled` for `i` iterations, turned `rotations` times and mirrored, is `Cycled` for `i + 1`. */
  lemma CycledStep(prev: Mask, next: Mask, m: Mask, rotations: nat, i: nat)
    requires prev == Cycled(m, rotations, i) && next == Flip(RotN(prev, rotations))
    ensures next == Cycled(m, rotations, i + 1)
  {
    CycledNext(m, rotations, i);
  }

  /** The mask the search tries in mirror iteration `i`, rotation iteration `j`. */
  function Orientation(m: Mask, rotations: nat, i: nat, j: nat): Mask
  {
    RotN(Cycled(m, rotations, i), j)
  }

  /** Number of 1-cells of `m` from row `i`, column `j` on, in row-major order. */
  function OnesFrom(m: seq<seq<int>>, i: nat, j: nat): nat
    requires i <= |m|
    requires i < |m| ==> j <= |m[i]|
    decreases |m| - i, if i < |m| then |m[i]| - j else 0
  {
    if i == |m| then 0
    else if j == |m[i]| then OnesFrom(m, i + 1, 0)
    else (if m[i][j] == 1 then 1 else 0) + OnesFrom(m, i, j + 1)
  }

  /** Number of 1-cells of a mask. */
  function Ones(m: Mask): nat
  {
    OnesFrom(m, 0, 0)
  }

  /** The positions (row, column) of the 1-cells of `m` at or after row `i`, column `j`. */
  ghost function OnesSetFrom(m: Mask, i: nat, j: nat): set<(int, int)>
  {
    set u, v | 0 <= u < |m| && 0 <= v < |m| && m[u][v] == 1 && (u > i || (u == i && v >= j)) :: (u, v)
  }

  /** The positions of all 1-cells of `m`. */
  ghost function OnesSet(m: Mask): set<(int, int)>
  {
    OnesSetFrom(m, 0, 0)
  }

  lemma OnesSetFromMember(m: Mask, i: nat, j: nat, u: int, v: int)
    ensures (u, v) in OnesSetFrom(m, i, j) <==>
      0 <= u < |m| && 0 <= v < |m| && m[u][v] == 1 && (u > i || (u == i && v >= j))
  {
  }

  lemma OnesSetMember(m: Mask, u: int, v: int)
    ensures (u, v) in OnesSet(m) <==> 0 <= u < |m| && 0 <= v < |m| && m[u][v] == 1
  {
    OnesSetFromMember(m, 0, 0, u, v);
  }

  /** The row-major count of 1-cells is the number of 1-cell positions. */
  lemma {:induction false} OnesFromCount(m: Mask, i: nat, j: nat)
    requires i <= |m| && (i < |m| ==> j <= |m|)
    decreases |m| - i, if i < |m| then |m| - j else 0
    ensures |OnesSetFrom(m, i, j)| == OnesFrom(m, i, j)
  {
    var here := OnesSetFrom(m, i, j);
    if i == |m| {
      forall c | c in here ensures false {
        OnesSetFromMember(m, i, j, c.0, c.1);
      }
      assert here == {};
    } else if j == |m| {
      OnesFromCount(m, i + 1, 0);
      var next := OnesSetFrom(m, i + 1, 0);
      forall c ensures c in here <==> c in next {
        OnesSetFromMember(m, i, j, c.0, c.1);
        OnesSetFromMember(m, i + 1, 0, c.0, c.1);
      }
      assert here == next;
    } else {
      OnesFromCount(m, i, j + 1);
      var rest := OnesSetFrom(m, i, j + 1);
      var cell := if m[i][j] == 1 then {(i, j)} else {};
      forall c ensures c in here <==> c in rest + cell {
        OnesSetFromMember(m, i, j, c.0, c.1);
        OnesSetFromMember(m, i, j + 1, c.0, c.1);
      }
      assert here == rest + cell;
      OnesSetFromMember(m, i, j + 1, i, j);
      assert rest * cell == {};
    }
  }

  lemma OnesCount(m: Mask)
    ensures |OnesSet(m)| == Ones(m)
  {
    OnesFromCount(m, 0, 0);
  }

  /** A map that is one-to-one on `s` has an image as large as `s`. */
  lemma {:induction false} InjectiveCard(s: set<(int, int)>, f: ((int, int)) -> (int, int))
    requires forall a, b :: a in s && b in s && f(a) == f(b) ==> a == b
    ensures |set a | a in s :: f(a)| == |s|
    decreases |s|
  {
    if s != {} {
      var a :| a in s;
      var rest := s - {a};
      InjectiveCard(rest, f);
      assert (set x | x in s :: f(x)) == (set x | x in rest :: f(x)) + {f(a)};
      assert f(a) !in (set x | x in rest :: f(x));
    }
  }

  /** A quarter turn keeps the number of 1-cells: cell (u, v) moves to (n-1-v, u). */
  lemma OnesRot90(m: Mask)
    ensures Ones(Rot90(m)) == Ones(m)
  {
    var n := |m|;
    var f := (c: (int, int)) => (n - 1 - c.1, c.0);
    var image := set c | c in OnesSet(m) :: f(c);
    forall c | c in OnesSet(Rot90(m)) ensures c in image {
      OnesSetMember(Rot90(m), c.0, c.1);
      OnesSetMember(m, c.1, n - 1 - c.0);
      assert f((c.1, n - 1 - c.0)) == c;
    }
    forall c | c in image ensures c in OnesSet(Rot90(m)) {
      var d :| d in OnesSet(m) && f(d) == c;
      OnesSetMember(m, d.0, d.1);
      OnesSetMember(Rot90(m), c.0, c.1);
    }
    assert OnesSet(Rot90(m)) == image;
    InjectiveCard(OnesSet(m), f);
    OnesCount(m);
    OnesCount(Rot90(m));
  }

  /** So does the mirror image: cell (u, v) moves to (u, n-1-v). */
  lemma OnesFlip(m: Mask)
    ensures Ones(Flip(m)) == Ones(m)
  {
    var n := |m|;
    var f := (c: (int, int)) => (c.0, n - 1 - c.1);
    var image := set c | c in OnesSet(m) :: f(c);
    forall c | c in OnesSet(Flip(m)) ensures c in image {
      OnesSetMember(Flip(m), c.0, c.1);
      OnesSetMember(m, c.0, n - 1 - c.1);
      assert f((c.0, n - 1 - c.1)) == c;
    }
    forall c | c in image ensures c in OnesSet(Flip(m)) {
      var d :| d in OnesSet(m) && f(d) == c;
      OnesSetMember(m, d.0, d.1);
      OnesSetMember(Flip(m), c.0, c.1);
    }
    assert OnesSet(Flip(m)) == image;
    InjectiveCard(OnesSet(m), f);
    OnesCount(m);
    OnesCount(Flip(m));
  }

  lemma {:induction false} OnesRotN(m: Mask, k: nat)
    ensures Ones(RotN(m, k)) == Ones(m)
  {
    if k > 0 {
      OnesRotN(m, k - 1);
      OnesRot90(RotN(m, k - 1));
    }
  }

  /** Every orientation of a mask has as many 1-cells as the mask. */
  lemma ImageOnes(x: Mask, m: Mask)
    requires IsImage(x, m)
    ensures Ones(x) == Ones(m)
  {
    IsImageIff(x, m);
    var a, b :| 0 <= a < 2 && 0 <= b < 4 && x == Image(m, a, b);
    OnesFlip(m);
    OnesRotN(if a == 0 then m else Flip(m), b);
  }

  /** Two masks of the same side with the same cells are equal. */
  lemma CellwiseEqual(a: Mask, b: Mask)
    requires |a| == |b|
    requires forall i, j :: 0 <= i < |a| && 0 <= j < |a| ==> a[i][j] == b[i][j]
    ensures a == b
  {
    forall i | 0 <= i < |a| ensures a[i] == b[i] { }
  }

  /** Row `i` of a quarter turn of a 5 x 5 mask: column `4 - i`, top to bottom. */
  lemma Rot90FiveRow(m: Mask, i: nat)
    requires |m| == 5 && i < 5
    ensures Rot90(m)[i] == [m[0][4 - i], m[1][4 - i], m[2][4 - i], m[3][4 - i], m[4][4 - i]]
  {
  }

  /** A quarter turn of a 5 x 5 mask, entry by entry. */
  lemma Rot90Five(m: Mask)
    requires |m| == 5
    ensures Rot90(m) == [
      [m[0][4], m[1][4], m[2][4], m[3][4], m[4][4]],
      [m[0][3], m[1][3], m[2][3], m[3][3], m[4][3]],
      [m[0][2], m[1][2], m[2][2], m[3][2], m[4][2]],
      [m[0][1], m[1][1], m[2][1], m[3][1], m[4][1]],
      [m[0][0], m[1][0], m[2][0], m[3][0], m[4][0]]]
  {
    Rot90FiveRow(m, 0);
    Rot90FiveRow(m, 1);
    Rot90FiveRow(m, 2);
    Rot90FiveRow(m, 3);
    Rot90FiveRow(m, 4);
  }

  /** Row `i` of the mirror image of a 5 x 5 mask: row `i` right to left. */
  lemma FlipFiveRow(m: Mask, i: nat)
    requires |m| == 5 && i < 5
    ensures Flip(m)[i] == [m[i][4], m[i][3], m[i][2], m[i][1], m[i][0]]
  {
  }

  /** The mirror image of a 5 x 5 mask, entry by entry. */
  lemma FlipFive(m: Mask)
    requires |m| == 5
    ensures Flip(m) == [
      [m[0][4], m[0][3], m[0][2], m[0][1], m[0][0]],
      [m[1][4], m[1][3], m[1][2], m[1][1], m[1][0]],
      [m[2][4], m[2][3], m[2][2], m[2][1], m[2][0]],
      [m[3][4], m[3][3], m[3][2], m[3][1], m[3][0]],
      [m[4][4], m[4][3], m[4][2], m[4][1], m[4][0]]]
  {
    FlipFiveRow(m, 0);
    FlipFiveRow(m, 1);
    FlipFiveRow(m, 2);
    FlipFiveRow(m, 3);
    FlipFiveRow(m, 4);
  }

  /** Four quarter turns are the identity. */
  lemma RotFour(m: Mask)
    ensures RotN(m, 4) == m
  {
    var n := |m|;
    var r1 := Rot90(m);
    var r2 := Rot90(r1);
    var r3 := Rot90(r2);
    var r4 := Rot90(r3);
    assert RotN(m, 1) == r1;
    assert RotN(m, 2) == r2;
    assert RotN(m, 3) == r3;
    forall i, j | 0 <= i < n && 0 <= j < n ensures r4[i][j] == m[i][j] {
      calc {
        r4[i][j];
        r3[j][n - 1 - i];
        r2[n - 1 - i][n - 1 - j];
        r1[n - 1 - j][i];
        m[i][j];
      }
    }
    CellwiseEqual(r4, m);
  }

  /** Mirroring twice is the identity. */
  lemma FlipTwice(m: Mask)
    ensures Flip(Flip(m)) == m
  {
    CellwiseEqual(Flip(Flip(m)), m);
  }

  /** A quarter turn of the mirror image is the mirror image of three quarter turns. */
  lemma RotFlip(m: Mask)
    ensures Rot90(Flip(m)) == Flip(RotN(m, 3))
  {
    var n := |m|;
    var r3 := RotN(m, 3);
    assert RotN(m, 1) == Rot90(m);
    assert RotN(m, 2) == Rot90(Rot90(m));
    forall i, j | 0 <= i < n && 0 <= j < n ensures Rot90(Flip(m))[i][j] == Flip(r3)[i][j] {
      calc {
        Flip(r3)[i][j];
        r3[i][n - 1 - j];
        Rot90(Rot90(m))[n - 1 - j][n - 1 - i];
        Rot90(m)[n - 1 - i][j];
        m[j][i];
        Rot90(Flip(m))[i][j];
      }
    }
    CellwiseEqual(Rot90(Flip(m)), Flip(r3));
  }

  lemma {:induction false} RotNAdd(m: Mask, a: nat, b: nat)
    ensures RotN(RotN(m, a), b) == RotN(m, a + b)
  {
    if b > 0 {
      RotNAdd(m, a, b - 1);
    }
  }

  /** The rotation counts the catalog uses: the divisors of 4. */
  predicate IsPeriod(p: nat) {
    p == 1 || p == 2 || p == 4
  }

  /** Quarter turns act modulo a period of the mask. */
  lemma {:induction false} RotNMod(m: Mask, period: nat, k: nat)
    requires IsPeriod(period) && RotN(m, period) == m
    ensures RotN(m, k) == RotN(m, k % period)
  {
    if k >= period {
      RotNMod(m, period, k - period);
      RotNAdd(m, period, k - period);
      ModStep(k, period);
    }
  }

  lemma ModStep(k: nat, p: nat)
    requires IsPeriod(p) && p <= k
    ensures (k - p) % p == k % p
  {
  }

  lemma {:induction false} NineMod(b: nat)
    ensures (9 * b) % 4 == b % 4
  {
    if b > 0 {
      NineMod(b - 1);
      assert 9 * b == 9 * (b - 1) + 9;
    }
  }

  /** Quarter turns act modulo 4. */
  lemma RotNMod4(m: Mask, k: nat)
    ensures RotN(m, k) == RotN(m, k % 4)
  {
    RotFour(m);
    RotNMod(m, 4, k);
  }

  /** Quarter turns commute with the mirror by reversing their sense. */
  lemma {:induction false} RotNFlip(m: Mask, k: nat)
    ensures RotN(Flip(m), k) == Flip(RotN(m, 3 * k))
  {
    if k > 0 {
      RotNFlip(m, k - 1);
      RotFlip(RotN(m, 3 * (k - 1)));
      RotNAdd(m, 3 * (k - 1), 3);
    }
  }

  /** A rotation period of a mask is also one of its mirror image. */
  lemma FlipPeriod(m: Mask, period: nat)
    requires IsPeriod(period) && RotN(m, period) == m
    ensures RotN(Flip(m), period) == Flip(m)
  {
    RotNFlip(m, period);
    RotNMod(m, period, 3 * period);
    assert (3 * period) % period == 0;
  }

  /** Mirroring a turned mask is turning the mirror image the other way. */
  lemma FlipRotN(m: Mask, b: nat)
    ensures Flip(RotN(m, b)) == RotN(Flip(m), 3 * b)
  {
    RotNFlip(m, 3 * b);
    RotNMod4(m, 9 * b);
    RotNMod4(m, b);
    NineMod(b);
  }

  /**
   * `mirrors` and `rotations` are the exact symmetry counts of `m`:
   * `rotations` is the least number of quarter turns that gives `m` back,
   * and `mirrors` is 1 exactly when the mirror image of `m` is one of its
   * turns.
   */
  ghost predicate ExactCounts(m: Mask, mirrors: nat, rotations: nat)
  {
    && IsPeriod(rotations)
    && (mirrors == 1 || mirrors == 2)
    && RotN(m, rotations) == m
    && LeastPeriod(m, rotations)
    && (mirrors == 1 <==> MirrorIsTurn(m))
  }

  /** No fewer than `r` quarter turns give `m` back. */
  ghost predicate LeastPeriod(m: Mask, r: nat)
  {
    forall d :: 0 < d < r ==> RotN(m, d) != m
  }

  /** The mirror image of `m` is one of its turns. */
  ghost predicate MirrorIsTurn(m: Mask)
  {
    exists d :: 0 <= d < 4 && Flip(m) == RotN(m, d)
  }

  /** Three more quarter turns undo one. */
  lemma UndoRot90(m: Mask, d: nat)
    ensures RotN(RotN(Rot90(m), d), 3) == RotN(m, d)
  {
    assert RotN(m, 1) == Rot90(m);
    RotNAdd(m, 1, d);
    RotNAdd(m, 1 + d, 3);
    RotNAdd(m, 4, d);
    RotFour(m);
  }

  /** A period of a mask is one of the turned mask. */
  lemma Rot90Period(m: Mask, r: nat)
    requires RotN(m, r) == m
    ensures RotN(Rot90(m), r) == Rot90(m)
  {
    assert RotN(m, 1) == Rot90(m);
    RotNAdd(m, 1, r);
    RotNAdd(m, r, 1);
  }

  /** No shorter period appears by turning the mask. */
  lemma Rot90Minimal(m: Mask, d: nat)
    requires RotN(m, d) != m
    ensures RotN(Rot90(m), d) != Rot90(m)
  {
    UndoRot90(m, d);
    UndoRot90(m, 0);
  }

  /** If the mirror image of `m` is its `d`-th turn, that of `Rot90(m)` is its `(d + 2) % 4`-th. */
  lemma MirrorTurnRot90(m: Mask, d: nat)
    requires Flip(m) == RotN(m, d)
    ensures Flip(Rot90(m)) == RotN(Rot90(m), (d + 2) % 4)
  {
    var m1 := Rot90(m);
    assert RotN(m, 1) == m1;
    FlipRotN(m, 1);
    RotNAdd(m, d, 3);
    RotNAdd(m, 1, d + 2);
    RotNMod4(m1, d + 2);
  }

  /** If the mirror image of `Rot90(m)` is its `e`-th turn, that of `m` is its `(e + 2) % 4`-th. */
  lemma MirrorTurnUnrot90(m: Mask, e: nat)
    requires Flip(Rot90(m)) == RotN(Rot90(m), e)
    ensures Flip(m) == RotN(m, (e + 2) % 4)
  {
    var m1 := Rot90(m);
    assert RotN(m, 1) == m1;
    FlipRotN(m, 1);
    RotNAdd(Flip(m), 3, 1);
    RotFour(Flip(m));
    RotNAdd(m, 1, e);
    RotNAdd(m, 1 + e, 1);
    RotNMod4(m, e + 2);
  }

  /** The mirror image of a turned mask is a turn of it iff that holds before the turn. */
  lemma Rot90Mirror(m: Mask)
    ensures MirrorIsTurn(m) <==> MirrorIsTurn(Rot90(m))
  {
    if d :| 0 <= d < 4 && Flip(m) == RotN(m, d) {
      MirrorTurnRot90(m, d);
      assert 0 <= (d + 2) % 4 < 4;
    }
    if e :| 0 <= e < 4 && Flip(Rot90(m)) == RotN(Rot90(m), e) {
      MirrorTurnUnrot90(m, e);
      assert 0 <= (e + 2) % 4 < 4;
    }
  }

  /** A quarter turn keeps the symmetry counts exact. */
  lemma ExactCountsRot90(m: Mask, mirrors: nat, rotations: nat)
    requires ExactCounts(m, mirrors, rotations)
    ensures ExactCounts(Rot90(m), mirrors, rotations)
  {
    Rot90Period(m, rotations);
    forall d | 0 < d < rotations ensures RotN(Rot90(m), d) != Rot90(m) {
      Rot90Minimal(m, d);
    }
    Rot90Mirror(m);
  }

  /** A mirror image has the same least period. */
  lemma FlipMinimal(m: Mask, r: nat)
    requires IsPeriod(r) && RotN(m, r) == m && LeastPeriod(m, r)
    ensures LeastPeriod(Flip(m), r)
  {
    forall d | 0 < d < r ensures RotN(Flip(m), d) != Flip(m) {
      TripleMod(d, r);
      FlipTurnNotSelf(m, r, d);
    }
  }

  /** Three times a turn count below a period, reduced by it, is again nonzero. */
  lemma TripleMod(d: nat, r: nat)
    requires IsPeriod(r) && 0 < d < r
    ensures 0 < (3 * d) % r < r
  {
  }

  /** Mirroring is one-to-one. */
  lemma FlipInjective(x: Mask, y: Mask)
    ensures Flip(x) == Flip(y) ==> x == y
  {
    FlipTwice(x);
    FlipTwice(y);
  }

  /** The `d`-th turn of the mirror image differs from it when the `(3 * d) % r`-th turn of `m` differs from `m`. */
  lemma FlipTurnNotSelf(m: Mask, r: nat, d: nat)
    requires IsPeriod(r) && RotN(m, r) == m && RotN(m, (3 * d) % r) != m
    ensures RotN(Flip(m), d) != Flip(m)
  {
    RotNFlip(m, d);
    RotNMod(m, r, 3 * d);
    FlipInjective(RotN(m, (3 * d) % r), m);
  }

  /** If the mirror image of `m` is its `d`-th turn, `m` is the `(3 * d) % 4`-th turn of its mirror image. */
  lemma MirrorTurnFlip(m: Mask, d: nat)
    requires Flip(m) == RotN(m, d)
    ensures Flip(Flip(m)) == RotN(Flip(m), (3 * d) % 4)
  {
    FlipRotN(m, d);
    RotNMod4(Flip(m), 3 * d);
  }

  /** If `x` is the `e`-th turn of `y`, then `y` is the `(4 - e) % 4`-th turn of `x`. */
  lemma TurnBack(x: Mask, y: Mask, e: nat)
    requires x == RotN(y, e) && e < 4
    ensures y == RotN(x, (4 - e) % 4)
  {
    RotNAdd(y, e, 4 - e);
    RotFour(y);
    RotNMod4(x, 4 - e);
  }

  /** If `m` is the `e`-th turn of its mirror image, the mirror image is the `(4 - e) % 4`-th turn of `m`. */
  lemma MirrorTurnUnflip(m: Mask, e: nat)
    requires Flip(Flip(m)) == RotN(Flip(m), e) && e < 4
    ensures Flip(m) == RotN(m, (4 - e) % 4)
  {
    FlipTwice(m);
    TurnBack(m, Flip(m), e);
  }

  /** A mirror keeps the symmetry counts exact. */
  lemma ExactCountsFlip(m: Mask, mirrors: nat, rotations: nat)
    requires ExactCounts(m, mirrors, rotations)
    ensures ExactCounts(Flip(m), mirrors, rotations)
  {
    var f := Flip(m);
    FlipPeriod(m, rotations);
    FlipMinimal(m, rotations);
    if d :| 0 <= d < 4 && Flip(m) == RotN(m, d) {
      MirrorTurnFlip(m, d);
      assert 0 <= (3 * d) % 4 < 4;
    }
    if e :| 0 <= e < 4 && Flip(f) == RotN(f, e) {
      MirrorTurnUnflip(m, e);
      assert 0 <= (4 - e) % 4 < 4;
    }
  }

  /** The eight images of a mask under the symmetries of the square. */
  function Image(m: Mask, a: nat, b: nat): Mask
  {
    RotN(if a == 0 then m else Flip(m), b)
  }

  /** With exact counts, each mirror iteration starts from `m` or from its mirror image. */
  lemma {:induction false} CycledAlternates(m: Mask, rotations: nat, i: nat)
    requires IsPeriod(rotations) && RotN(m, rotations) == m
    ensures Cycled(m, rotations, i) == if i % 2 == 0 then m else Flip(m)
  {
    if i > 0 {
      CycledAlternates(m, rotations, i - 1);
      var prev := Cycled(m, rotations, i - 1);
      assert Cycled(m, rotations, i) == Flip(RotN(prev, rotations));
      if i % 2 == 0 {
        assert prev == Flip(m);
        FlipPeriod(m, rotations);
        FlipTwice(m);
      } else {
        assert prev == m;
      }
    }
  }

  /**
   * After one activation (all mirror and rotation iterations) a mask with
   * exact counts is back where it began when it has two mirror images, and
   * is its own mirror image (one of the same turns) when it has one.
   */
  lemma ActivationEnd(m: Mask, mirrors: nat, rotations: nat)
    requires ExactCounts(m, mirrors, rotations)
    ensures Cycled(m, rotations, mirrors) == if mirrors == 2 then m else Flip(m)
    ensures mirrors == 1 ==> exists d :: 0 <= d < rotations && Cycled(m, rotations, mirrors) == RotN(m, d)
  {
    CycledAlternates(m, rotations, mirrors);
    if mirrors == 1 {
      var d :| 0 <= d < 4 && Flip(m) == RotN(m, d);
      RotNMod(m, rotations, d);
      assert Cycled(m, rotations, mirrors) == RotN(m, d % rotations);
    }
  }

  lemma OrientationIsImage(m: Mask, rotations: nat, i: nat, j: nat)
    requires IsPeriod(rotations) && RotN(m, rotations) == m && i < 2
    ensures Orientation(m, rotations, i, j) == Image(m, i, j)
  {
    CycledAlternates(m, rotations, i);
  }

  /** Two equal turns `j <= k` of a mask with period `r` differ by a turn that gives the mask back. */
  lemma RotNCancel(x: Mask, r: nat, j: nat, k: nat)
    requires RotN(x, r) == x && j <= k && j <= r
    ensures RotN(x, j) == RotN(x, k) ==> RotN(x, k - j) == x
  {
    if RotN(x, j) == RotN(x, k) {
      RotNAdd(x, j, r - j);
      RotNAdd(x, k, r - j);
      RotNAdd(x, r, k - j);
    }
  }

  /** Distinct turns below the least period give distinct masks. */
  lemma TurnsDistinct(x: Mask, r: nat, j: nat, k: nat)
    requires IsPeriod(r) && RotN(x, r) == x && LeastPeriod(x, r)
    requires j < k < r
    ensures RotN(x, j) != RotN(x, k)
  {
    RotNCancel(x, r, j, k);
    assert 0 < k - j < r;
  }

  /**
   * One activation enumerates the orientations of a mask with exact counts
   * completely: every one of its eight images is tried at some mirror and
   * rotation iteration.
   */
  lemma ActivationComplete(m: Mask, mirrors: nat, rotations: nat, a: nat, b: nat)
    requires ExactCounts(m, mirrors, rotations) && a < 2 && b < 4
    ensures exists i, j :: 0 <= i < mirrors && 0 <= j < rotations && Orientation(m, rotations, i, j) == Image(m, a, b)
  {
    var r := rotations;
    if a == 0 || mirrors == 2 {
      var x := if a == 0 then m else Flip(m);
      FlipPeriod(m, r);
      RotNMod(x, r, b);
      OrientationIsImage(m, r, a, b % r);
      assert Orientation(m, r, a, b % r) == Image(m, a, b);
    } else {
      var d :| 0 <= d < 4 && Flip(m) == RotN(m, d);
      RotNAdd(m, d, b);
      RotNMod(m, r, d + b);
      OrientationIsImage(m, r, 0, (d + b) % r);
      assert Orientation(m, r, 0, (d + b) % r) == Image(m, a, b);
    }
  }

  /** ... and tries no orientation twice. */
  lemma ActivationDistinct(m: Mask, mirrors: nat, rotations: nat, i: nat, j: nat, i': nat, j': nat)
    requires ExactCounts(m, mirrors, rotations)
    requires i < mirrors && j < rotations && i' < mirrors && j' < rotations
    requires (i, j) != (i', j')
    ensures Orientation(m, rotations, i, j) != Orientation(m, rotations, i', j')
  {
    var r := rotations;
    OrientationIsImage(m, r, i, j);
    OrientationIsImage(m, r, i', j');
    FlipPeriod(m, r);
    FlipMinimal(m, r);
    if i == i' {
      var x := if i == 0 then m else Flip(m);
      if j < j' { TurnsDistinct(x, r, j, j'); } else { TurnsDistinct(x, r, j', j); }
    } else if i == 0 {
      MirrorNotTurn(m, j, j');
    } else {
      MirrorNotTurn(m, j', j);
    }
  }

  /** A mask whose mirror image is none of its turns: no turn of it is a turn of the mirror image. */
  lemma MirrorNotTurn(m: Mask, j: nat, k: nat)
    requires !MirrorIsTurn(m) && j < 4 && k < 4
    ensures RotN(m, j) != RotN(Flip(m), k)
  {
    RotFour(m);
    RotFour(Flip(m));
    RotNAdd(Flip(m), k, 4 - k);
    RotNAdd(m, j, 4 - k);
    RotNMod(m, 4, j + 4 - k);
  }

  /**
   * `x` is among the first `k` images of `m`, numbered `4 * a + b` for
   * `Image(m, a, b)`.
   */
  ghost predicate ImageAmong(x: Mask, m: Mask, k: nat)
  {
    k > 0 && (ImageAmong(x, m, k - 1) || x == Image(m, (k - 1) / 4, (k - 1) % 4))
  }

  /** `x` is one of the eight images of `m`. */
  ghost predicate IsImage(x: Mask, m: Mask)
  {
    ImageAmong(x, m, 8)
  }

  lemma {:induction false} ImageAmongIff(x: Mask, m: Mask, k: nat)
    ensures ImageAmong(x, m, k) <==> exists n :: 0 <= n < k && x == Image(m, n / 4, n % 4)
  {
    if k > 0 {
      ImageAmongIff(x, m, k - 1);
    }
  }

  /** The eight images are exactly the `Image(m, a, b)` with `a < 2` and `b < 4`. */
  lemma IsImageIff(x: Mask, m: Mask)
    ensures IsImage(x, m) <==> exists a, b :: 0 <= a < 2 && 0 <= b < 4 && x == Image(m, a, b)
  {
    ImageAmongIff(x, m, 8);
    if exists a, b :: 0 <= a < 2 && 0 <= b < 4 && x == Image(m, a, b) {
      var a, b :| 0 <= a < 2 && 0 <= b < 4 && x == Image(m, a, b);
      var n := 4 * a + b;
      assert n / 4 == a && n % 4 == b;
    }
  }

  lemma ImageSelf(m: Mask)
    ensures IsImage(m, m)
  {
    assert m == Image(m, 0, 0);
    IsImageIff(m, m);
  }

  /** A quarter turn of an image of `m` is an image of `m`. */
  lemma ImageRot90(x: Mask, m: Mask)
    requires IsImage(x, m)
    ensures IsImage(Rot90(x), m)
  {
    IsImageIff(x, m);
    IsImageIff(Rot90(x), m);
    var a, b :| 0 <= a < 2 && 0 <= b < 4 && x == Image(m, a, b);
    var y := if a == 0 then m else Flip(m);
    RotFour(y);
    RotNMod(y, 4, b + 1);
    assert Rot90(x) == Image(m, a, (b + 1) % 4);
  }

  /** The mirror image of an image of `m` is an image of `m`. */
  lemma ImageFlip(x: Mask, m: Mask)
    requires IsImage(x, m)
    ensures IsImage(Flip(x), m)
  {
    IsImageIff(x, m);
    IsImageIff(Flip(x), m);
    var a, b :| 0 <= a < 2 && 0 <= b < 4 && x == Image(m, a, b);
    var y := if a == 0 then m else Flip(m);
    FlipRotN(y, b);
    FlipTwice(m);
    var z := if a == 0 then Flip(m) else m;
    assert Flip(x) == RotN(z, 3 * b);
    RotFour(z);
    RotNMod(z, 4, 3 * b);
    assert Flip(x) == Image(m, 1 - a, (3 * b) % 4);
  }

  /** Exact counts carry over to every turn of a mask. */
  lemma {:induction false} ExactCountsTurns(m: Mask, mirrors: nat, rotations: nat, b: nat)
    requires ExactCounts(m, mirrors, rotations)
    ensures ExactCounts(RotN(m, b), mirrors, rotations)
  {
    if b > 0 {
      ExactCountsTurns(m, mirrors, rotations, b - 1);
      ExactCountsRot90(RotN(m, b - 1), mirrors, rotations);
    }
  }

  /**
   * Exact counts carry over to every image of a mask, so the counts of a
   * catalog shape stay exact for whatever orientation the search has left
   * its mask in.
   */
  lemma ImageExact(x: Mask, m: Mask, mirrors: nat, rotations: nat)
    requires IsImage(x, m) && ExactCounts(m, mirrors, rotations)
    ensures ExactCounts(x, mirrors, rotations)
  {
    IsImageIff(x, m);
    var a, b :| 0 <= a < 2 && 0 <= b < 4 && x == Image(m, a, b);
    if a == 0 {
      ExactCountsTurns(m, mirrors, rotations, b);
    } else {
      ExactCountsFlip(m, mirrors, rotations);
      ExactCountsTurns(Flip(m), mirrors, rotations, b);
    }
  }

  /** The orientations rotation iterations `0 .. n-1` try, starting from `x`. */
  function Turns(x: Mask, n: nat): (tried: seq<Mask>)
    ensures |tried| == n
  {
    if n == 0 then [] else Turns(x, n - 1) + [RotN(x, n - 1)]
  }

  /**
   * The orientations the first `i` mirror iterations of one activation try,
   * one row per mirror iteration.
   */
  function Activation(m: Mask, rotations: nat, i: nat): (rows: seq<seq<Mask>>)
    ensures |rows| == i && forall k :: 0 <= k < i ==> |rows[k]| == rotations
  {
    if i == 0 then [] else Activation(m, rotations, i - 1) + [Turns(Cycled(m, rotations, i - 1), rotations)]
  }

  lemma {:induction false} TurnsAt(x: Mask, n: nat, j: nat)
    requires j < n
    ensures Turns(x, n)[j] == RotN(x, j)
  {
    if j < n - 1 {
      TurnsAt(x, n - 1, j);
    }
  }

  /** Row `i`, column `j` of an activation is the orientation of mirror iteration `i`, rotation iteration `j`. */
  lemma {:induction false} ActivationAt(m: Mask, rotations: nat, n: nat, i: nat, j: nat)
    requires i < n && j < rotations
    ensures Activation(m, rotations, n)[i][j] == Orientation(m, rotations, i, j)
  {
    if i < n - 1 {
      ActivationAt(m, rotations, n - 1, i, j);
    } else {
      TurnsAt(Cycled(m, rotations, i), rotations, j);
    }
  }

  /** Some row of `rows` holds `y`. */
  ghost predicate Tried(rows: seq<seq<Mask>>, y: Mask)
  {
    exists i, j :: 0 <= i < |rows| && 0 <= j < |rows[i]| && rows[i][j] == y
  }

  /** Each image of `m` is tried at some mirror and rotation iteration of one activation. */
  lemma ActivationHas(m: Mask, mirrors: nat, rotations: nat, y: Mask)
    requires ExactCounts(m, mirrors, rotations) && IsImage(y, m)
    ensures Tried(Activation(m, rotations, mirrors), y)
  {
    IsImageIff(y, m);
    var a, b :| 0 <= a < 2 && 0 <= b < 4 && y == Image(m, a, b);
    ActivationComplete(m, mirrors, rotations, a, b);
    var i, j :| 0 <= i < mirrors && 0 <= j < rotations && Orientation(m, rotations, i, j) == Image(m, a, b);
    ActivationAt(m, rotations, mirrors, i, j);
  }

  /** What an activation tries is an image of `m`. */
  lemma ActivationImage(m: Mask, mirrors: nat, rotations: nat, i: nat, j: nat)
    requires ExactCounts(m, mirrors, rotations) && i < mirrors && j < rotations
    ensures IsImage(Activation(m, rotations, mirrors)[i][j], m)
  {
    ActivationAt(m, rotations, mirrors, i, j);
    OrientationIsImage(m, rotations, i, j);
    IsImageIff(Orientation(m, rotations, i, j), m);
    assert Orientation(m, rotations, i, j) == Image(m, i, j);
  }

  /**
   * One full activation of a mask with exact counts tries each of its eight
   * images, tries nothing else, and tries no image twice.
   */
  lemma ActivationEnumerates(m: Mask, mirrors: nat, rotations: nat)
    requires ExactCounts(m, mirrors, rotations)
    ensures forall y :: IsImage(y, m) ==> Tried(Activation(m, rotations, mirrors), y)
    ensures forall i, j :: 0 <= i < mirrors && 0 <= j < rotations ==> IsImage(Activation(m, rotations, mirrors)[i][j], m)
    ensures forall i, j, i', j' ::
      0 <= i < mirrors && 0 <= j < rotations && 0 <= i' < mirrors && 0 <= j' < rotations && (i, j) != (i', j')
      ==> Activation(m, rotations, mirrors)[i][j] != Activation(m, rotations, mirrors)[i'][j']
  {
    var rows := Activation(m, rotations, mirrors);
    forall y | IsImage(y, m) ensures Tried(rows, y) {
      ActivationHas(m, mirrors, rotations, y);
    }
    forall i, j | 0 <= i < mirrors && 0 <= j < rotations ensures IsImage(rows[i][j], m) {
      ActivationImage(m, mirrors, rotations, i, j);
    }
    forall i, j, i', j' |
      0 <= i < mirrors && 0 <= j < rotations && 0 <= i' < mirrors && 0 <= j' < rotations && (i, j) != (i', j')
      ensures rows[i][j] != rows[i'][j']
    {
      ActivationAt(m, rotations, mirrors, i, j);
      ActivationAt(m, rotations, mirrors, i', j');
      ActivationDistinct(m, mirrors, rotations, i, j, i', j');
    }
  }

  /** Any number of quarter turns of an image of `m` is an image of `m`. */
  lemma {:induction false} ImageTurns(x: Mask, m: Mask, b: nat)
    requires IsImage(x, m)
    ensures IsImage(RotN(x, b), m)
  {
    if b > 0 {
      ImageTurns(x, m, b - 1);
      ImageRot90(RotN(x, b - 1), m);
    }
  }

  /** An image of an image of `m` is an image of `m`. */
  lemma ImageTrans(y: Mask, x: Mask, m: Mask)
    requires IsImage(y, x) && IsImage(x, m)
    ensures IsImage(y, m)
  {
    IsImageIff(y, x);
    var a, b :| 0 <= a < 2 && 0 <= b < 4 && y == Image(x, a, b);
    if a == 0 {
      ImageTurns(x, m, b);
    } else {
      ImageFlip(x, m);
      ImageTurns(Flip(x), m, b);
    }
  }

  /** `m` is an image of each of its images. */
  lemma ImageSym(x: Mask, m: Mask)
    requires IsImage(x, m)
    ensures IsImage(m, x)
  {
    IsImageIff(x, m);
    var a, b :| 0 <= a < 2 && 0 <= b < 4 && x == Image(m, a, b);
    var w := if a == 0 then m else Flip(m);
    TurnBack(x, w, b);
    ImageSelf(x);
    ImageTurns(x, x, (4 - b) % 4);
    if a == 1 {
      FlipTwice(m);
      ImageFlip(w, x);
    }
  }

  /** Two images of the same mask have the same images. */
  lemma ImageSame(y: Mask, x: Mask, m: Mask)
    requires IsImage(x, m)
    ensures IsImage(y, x) <==> IsImage(y, m)
  {
    if IsImage(y, x) {
      ImageTrans(y, x, m);
    }
    if IsImage(y, m) {
      ImageSym(x, m);
      ImageTrans(y, m, x);
    }
  }

  /**
   * One activation started from any image of a mask with exact counts
   * tries every image of that mask.
   */
  lemma ActivationFromImage(x: Mask, m: Mask, mirrors: nat, rotations: nat)
    requires ExactCounts(m, mirrors, rotations) && IsImage(x, m)
    ensures forall y :: IsImage(y, m) ==> Tried(Activation(x, rotations, mirrors), y)
  {
    ImageExact(x, m, mirrors, rotations);
    ActivationEnumerates(x, mirrors, rotations);
    forall y | IsImage(y, m) ensures IsImage(y, x) {
      ImageSame(y, x, m);
    }
  }
}
